/**
 * The map matchers of container_matchers.go: mapMatcher (MapIs and
 * MapContains), which looks every expected key up in the map, and
 * mapKvMatcher (MapIsKVs and MapContainsKVs), which turns the map into a
 * list of key-value pairs and hands it to the unordered matcher, each pair
 * tested by a keyValMatcher.
 *
 * A Go map has no repeated key; DistinctKeys states that where a lemma needs
 * it.  The expected entries of MapIs and MapContains come from a Go map too.
 */
module Maps {
  import opened Wrappers
  import opened Text
  import opened GoValues
  import opened Bipartite
  import opened Unordered

  /** No key occurs twice, as in every Go map. */
  predicate DistinctKeys<V>(entries: seq<(Value, V)>) {
    forall i, j :: 0 <= i < j < |entries| ==> entries[i].0 != entries[j].0
  }

  /** The keys of a map. */
  function KeySet<V>(entries: seq<(Value, V)>): (ks: set<Value>)
    ensures forall k :: k in ks <==> exists i :: 0 <= i < |entries| && entries[i].0 == k
  {
    set i | 0 <= i < |entries| :: entries[i].0
  }

  /** The position of key k among the entries, or None when k is not a key. */
  function KeyIndex<V>(entries: seq<(Value, V)>, k: Value): (r: Option<nat>)
    ensures r.Some? ==> r.value < |entries| && entries[r.value].0 == k
    ensures r.None? ==> forall i :: 0 <= i < |entries| ==> entries[i].0 != k
  {
    if entries == [] then None
    else if entries[0].0 == k then Some(0)
    else match KeyIndex(entries[1..], k)
      case None => assert forall i :: 1 <= i < |entries| ==> entries[i] == entries[1..][i - 1]; None
      case Some(i) => Some(i + 1)
  }

  /** reflect's MapIndex: the value stored under k, or None (an invalid reflect.Value) when k is absent. */
  function Lookup(entries: seq<(Value, Value)>, k: Value): (r: Option<Value>)
    ensures r.Some? <==> k in KeySet(entries)
    ensures r.Some? ==> exists i :: 0 <= i < |entries| && entries[i] == (k, r.value)
  {
    match KeyIndex(entries, k)
    case None => None
    case Some(i) => Some(entries[i].1)
  }

  /** In a map without repeated keys, the lookup of an entry's key gives that entry's value. */
  lemma LookupEntry(entries: seq<(Value, Value)>, j: nat)
    requires DistinctKeys(entries) && j < |entries|
    ensures Lookup(entries, entries[j].0) == Some(entries[j].1)
  {
    var i := KeyIndex(entries, entries[j].0).value;
    assert entries[i].0 == entries[j].0;
  }

  /** Without repeated keys there are as many keys as entries. */
  lemma {:induction false} KeySetSize<V>(entries: seq<(Value, V)>)
    requires DistinctKeys(entries)
    ensures |KeySet(entries)| == |entries|
  {
    if entries != [] {
      var prefix := entries[..|entries| - 1];
      var last := entries[|entries| - 1];
      assert entries == prefix + [last];
      assert DistinctKeys(prefix) by {
        forall i, j | 0 <= i < j < |prefix| ensures prefix[i].0 != prefix[j].0 {
          assert prefix[i] == entries[i] && prefix[j] == entries[j];
        }
      }
      KeySetSize(prefix);
      KeySetSnoc(prefix, last);
      LastKeyNew(prefix, last);
    }
  }

  /** One more entry adds its key. */
  lemma KeySetSnoc<V>(prefix: seq<(Value, V)>, last: (Value, V))
    ensures KeySet(prefix + [last]) == KeySet(prefix) + {last.0}
  {
    var entries := prefix + [last];
    forall k | k in KeySet(entries) ensures k in KeySet(prefix) + {last.0} {
      var i :| 0 <= i < |entries| && entries[i].0 == k;
      if i < |prefix| {
        assert prefix[i].0 == k;
      }
    }
    forall k | k in KeySet(prefix) + {last.0} ensures k in KeySet(entries) {
      if k == last.0 {
        assert entries[|prefix|].0 == k;
      } else {
        var i :| 0 <= i < |prefix| && prefix[i].0 == k;
        assert entries[i].0 == k;
      }
    }
  }

  /** In a map without repeated keys, the last key is not among the earlier ones. */
  lemma LastKeyNew<V>(prefix: seq<(Value, V)>, last: (Value, V))
    requires DistinctKeys(prefix + [last])
    ensures last.0 !in KeySet(prefix)
  {
    var entries := prefix + [last];
    forall i | 0 <= i < |prefix| ensures prefix[i].0 != last.0 {
      assert prefix[i] == entries[i] && last == entries[|prefix|];
    }
  }

  /** A subset as large as its superset is the whole of it. */
  lemma SubsetOfSameSize<T>(a: set<T>, b: set<T>)
    requires a <= b && |b| <= |a|
    ensures a == b
  {
    assert b == a + (b - a);
    assert |b - a| == 0;
  }

  // ---------------------------------------------------------------------------
  // mapMatcher: MapIs and MapContains
  // ---------------------------------------------------------------------------

  /** The expected key is in the map and its matcher accepts the stored value. */
  predicate KeyMatched(e: (Value, Matcher), entries: seq<(Value, Value)>) {
    var v := Lookup(entries, e.0);
    v.Some? && e.1.matches(v.value)
  }

  /**
   * mapMatcher.Matches: a map in which every expected key is present with a
   * value its matcher accepts, and in full mode (MapIs) a map with exactly as
   * many entries as there are expected keys.
   */
  function MapMatches(expected: seq<(Value, Matcher)>, matchAll: bool, x: Value): bool {
    match x
    case Map(_, entries) =>
      (forall i :: 0 <= i < |expected| ==> KeyMatched(expected[i], entries)) &&
      (!matchAll || |entries| == |expected|)
    case _ => false
  }

  /** The loop of mapMatcher.Matches, which stops at the first missing key or rejected value. */
  method Matches(expected: seq<(Value, Matcher)>, matchAll: bool, x: Value) returns (ok: bool)
    ensures ok ==> x.Map? && KeySet(expected) <= KeySet(x.entries)
    ensures ok == MapMatches(expected, matchAll, x)
  {
    if !x.Map? {
      return false;
    }
    for i := 0 to |expected|
      invariant forall k :: 0 <= k < i ==> KeyMatched(expected[k], x.entries)
    {
      var val := Lookup(x.entries, expected[i].0);
      if val.None? {
        return false;
      }
      if !expected[i].1.matches(val.value) {
        return false;
      }
    }
    ok := !matchAll || |x.entries| == |expected|;
    if ok {
      forall k | k in KeySet(expected) ensures k in KeySet(x.entries) {
        var i :| 0 <= i < |expected| && expected[i].0 == k;
        assert KeyMatched(expected[i], x.entries);
      }
    }
  }

  /** MapIs is the stronger test: whatever it accepts, MapContains accepts. */
  lemma MapIsImpliesContains(expected: seq<(Value, Matcher)>, x: Value)
    ensures MapMatches(expected, true, x) ==> MapMatches(expected, false, x)
  {
  }

  /**
   * MapIs is MapContains with no key beyond the expected ones: the map's keys
   * are exactly the expected keys.  (The counting argument needs the expected
   * keys to be distinct, which they are, coming from a Go map.)
   */
  lemma MapIsExactKeys(expected: seq<(Value, Matcher)>, x: Value)
    requires DistinctKeys(expected) && x.Map? && DistinctKeys(x.entries)
    ensures MapMatches(expected, true, x) <==>
      MapMatches(expected, false, x) && KeySet(x.entries) == KeySet(expected)
  {
    var entries := x.entries;
    KeySetSize(expected);
    KeySetSize(entries);
    if MapMatches(expected, false, x) {
      forall k | k in KeySet(expected) ensures k in KeySet(entries) {
        var i :| 0 <= i < |expected| && expected[i].0 == k;
        assert KeyMatched(expected[i], entries);
      }
      if |entries| == |expected| {
        SubsetOfSameSize(KeySet(expected), KeySet(entries));
      }
    }
  }

  /** The description of one expected entry: its key as %v prints it, then its matcher. */
  function EntryText(e: (Value, Matcher)): string {
    "key " + Format(e.0) + " -> " + e.1.description
  }

  /** "has" for the full mode, "contains" otherwise. */
  function MapPrefix(matchAll: bool): string {
    if matchAll then "has" else "contains"
  }

  /**
   * mapMatcher.String: the mode's word, then one part per expected key,
   * separated by "; ", in brackets.  Go visits the keys in an arbitrary order;
   * here they come in the order of the sequence.
   */
  function MapString(expected: seq<(Value, Matcher)>, matchAll: bool): (s: string)
    ensures var pre := MapPrefix(matchAll) + " map entries [";
      |s| > |pre| && s[..|pre|] == pre && s[|s| - 1] == ']'
    ensures |expected| == 0 ==> s == MapPrefix(matchAll) + " map entries []"
    ensures |expected| == 1 ==> s == MapPrefix(matchAll) + " map entries [" + EntryText(expected[0]) + "]"
  {
    var pre := MapPrefix(matchAll) + " map entries [";
    var inner := Join(MapSeq(EntryText, expected), "; ");
    assert (pre + inner + "]")[..|pre|] == pre;
    pre + inner + "]"
  }

  /** With one more expected entry, its part follows the others after "; ". */
  lemma MapStringAppend(expected: seq<(Value, Matcher)>, e: (Value, Matcher), matchAll: bool)
    requires |expected| > 0
    ensures var s := MapString(expected, matchAll);
      MapString(expected + [e], matchAll) == s[..|s| - 1] + "; " + EntryText(e) + "]"
  {
    MapSeqAppend(EntryText, expected, e);
    BracketAppend(MapPrefix(matchAll) + " map entries [", MapSeq(EntryText, expected), EntryText(e));
  }

  /** MapIs: every expected key, with an accepted value, and no other key. */
  function MapIs(expected: seq<(Value, Matcher)>): (m: Matcher)
    requires DistinctKeys(expected)
    ensures forall x :: m.matches(x) ==> MapContains(expected).matches(x)
    ensures forall x: Value :: x.Map? && DistinctKeys(x.entries) ==>
      (m.matches(x) <==> MapContains(expected).matches(x) && KeySet(x.entries) == KeySet(expected))
  {
    forall x: Value | x.Map? && DistinctKeys(x.entries)
      ensures MapMatches(expected, true, x) <==>
        MapMatches(expected, false, x) && KeySet(x.entries) == KeySet(expected)
    {
      MapIsExactKeys(expected, x);
    }
    Matcher(x => MapMatches(expected, true, x), MapString(expected, true), x => None)
  }

  /** MapContains: every expected key, with an accepted value; other keys are allowed. */
  function MapContains(expected: seq<(Value, Matcher)>): (m: Matcher)
    ensures forall x :: m.matches(x) <==>
      x.Map? && forall i :: 0 <= i < |expected| ==> KeyMatched(expected[i], x.entries)
  {
    Matcher(x => MapMatches(expected, false, x), MapString(expected, false), x => None)
  }

  // ---------------------------------------------------------------------------
  // keyValMatcher and mapKvMatcher: MapIsKVs and MapContainsKVs
  // ---------------------------------------------------------------------------

  /** keyValMatcher.Matches: a two-element slice or array whose first element the key matcher accepts and whose second the value matcher accepts. */
  function KeyValMatches(km: Matcher, vm: Matcher, x: Value): bool {
    match Elements(x)
    case None => false
    case Some(es) => |es| == 2 && km.matches(es[0]) && vm.matches(es[1])
  }

  /** keyValMatcher.String. */
  function KeyValString(km: Matcher, vm: Matcher): string {
    "key (" + km.description + ") -> " + vm.description
  }

  /** The keyValMatcher the KVs constructors build for one pair; it has no ExplainFailure. */
  function KeyVal(p: (Matcher, Matcher)): Matcher {
    Matcher(x => KeyValMatches(p.0, p.1, x), KeyValString(p.0, p.1), x => None)
  }

  /** The loop of MapIsKVs and MapContainsKVs that wraps every pair in a keyValMatcher. */
  function PairMatchers(pairs: seq<(Matcher, Matcher)>): seq<Matcher> {
    MapSeq(KeyVal, pairs)
  }

  /** One map entry as mapKvMatcher lists it: a [2]any holding the key and the value. */
  function PairValue(e: (Value, Value)): Value {
    Slice("[2]interface {}", [e.0, e.1])
  }

  /** The map as the list of its entries, in iteration order. */
  function PairList(entries: seq<(Value, Value)>): Value {
    Slice("[][2]interface {}", MapSeq(PairValue, entries))
  }

  /** The loop of mapKvMatcher.Matches that appends one [2]any per entry. */
  method ListEntries(entries: seq<(Value, Value)>) returns (list: seq<Value>)
    ensures |list| == |entries|
    ensures forall j :: 0 <= j < |entries| ==> list[j] == Slice("[2]interface {}", [entries[j].0, entries[j].1])
    ensures Slice("[][2]interface {}", list) == PairList(entries)
  {
    list := [];
    for j := 0 to |entries|
      invariant list == MapSeq(PairValue, entries[..j])
    {
      assert entries[..j + 1][..j] == entries[..j];
      list := list + [PairValue(entries[j])];
    }
    assert entries[..|entries|] == entries;
  }

  /** mapKvMatcher.Matches: a map whose list of entries the unordered matcher accepts. */
  function MapKvMatches(ms: seq<Matcher>, matchAll: bool, x: Value): bool {
    match x
    case Map(_, entries) => UnorderedMatches(ms, matchAll, PairList(entries))
    case _ => false
  }

  /** mapKvMatcher.Matches as Go runs it: list the entries, then run the unordered matcher. */
  method MatchesKvs(ms: seq<Matcher>, matchAll: bool, x: Value) returns (ok: bool)
    ensures ok <==> x.Map? && HasPairing(MatrixOf(ms, MapSeq(PairValue, x.entries)), |x.entries|, matchAll)
    ensures ok == MapKvMatches(ms, matchAll, x)
  {
    if !x.Map? {
      return false;
    }
    var list := ListEntries(x.entries);
    ok := Unordered.Matches(ms, matchAll, Slice("[][2]interface {}", list));
  }

  /** kvs[i][j]: pair i's key matcher accepts entry j's key and its value matcher entry j's value. */
  function KvMatrix(pairs: seq<(Matcher, Matcher)>, entries: seq<(Value, Value)>): (mm: Matrix)
    ensures |mm| == |pairs| && Rectangular(mm, |entries|)
  {
    seq(|pairs|, i requires 0 <= i < |pairs| =>
      seq(|entries|, j requires 0 <= j < |entries| => pairs[i].0.matches(entries[j].0) && pairs[i].1.matches(entries[j].1)))
  }

  /**
   * MapIsKVs and MapContainsKVs decide whether the pairs can be given
   * distinct entries of the map, each pair accepting its entry's key and
   * value (and in full mode every entry used): Contains and
   * ElementsAreUnordered over the map's entries.
   */
  lemma KvPairingIff(pairs: seq<(Matcher, Matcher)>, matchAll: bool, x: Value)
    ensures MapKvMatches(PairMatchers(pairs), matchAll, x) <==>
      x.Map? && HasPairing(KvMatrix(pairs, x.entries), |x.entries|, matchAll)
  {
    if x.Map? {
      UnorderedMatchesIff(PairMatchers(pairs), matchAll, PairList(x.entries));
      KvMatrixOfPairs(pairs, x.entries);
    }
  }

  /** The key-value matrix is the matrix of the pair matchers over the entries as two-element lists. */
  lemma KvMatrixOfPairs(pairs: seq<(Matcher, Matcher)>, entries: seq<(Value, Value)>)
    ensures MatrixOf(PairMatchers(pairs), MapSeq(PairValue, entries)) == KvMatrix(pairs, entries)
  {
    var es := MapSeq(PairValue, entries);
    var mm := MatrixOf(PairMatchers(pairs), es);
    var kv := KvMatrix(pairs, entries);
    forall i | 0 <= i < |pairs| ensures mm[i] == kv[i] {
      forall j | 0 <= j < |es| ensures mm[i][j] == kv[i][j] {
        KeyValOnEntry(pairs[i], entries[j]);
      }
    }
  }

  /** A keyValMatcher accepts an entry's [2]any exactly when both its matchers accept. */
  lemma KeyValOnEntry(p: (Matcher, Matcher), e: (Value, Value))
    ensures KeyVal(p).matches(PairValue(e)) == (p.0.matches(e.0) && p.1.matches(e.1))
  {
    assert Elements(PairValue(e)).value == [e.0, e.1];
  }

  /**
   * MapContainsKVs generalises MapContains (and MapIsKVs MapIs): with key
   * matchers that accept exactly the expected keys and the expected value
   * matchers, the KVs form decides what the keyed form decides.
   */
  lemma KvsGeneraliseKeys(expected: seq<(Value, Matcher)>, pairs: seq<(Matcher, Matcher)>, matchAll: bool, x: Value)
    requires DistinctKeys(expected) && |pairs| == |expected|
    requires forall i :: 0 <= i < |pairs| ==> pairs[i].1 == expected[i].1
    requires forall i, v :: 0 <= i < |pairs| ==> (pairs[i].0.matches(v) <==> v == expected[i].0)
    requires x.Map? ==> DistinctKeys(x.entries)
    ensures MapKvMatches(PairMatchers(pairs), matchAll, x) <==> MapMatches(expected, matchAll, x)
  {
    KvPairingIff(pairs, matchAll, x);
    if x.Map? {
      var entries := x.entries;
      FullPairingIffSquare(KvMatrix(pairs, entries), |entries|);
      KeysFromKvPairing(expected, pairs, entries);
      KvPairingFromKeys(expected, pairs, entries);
    }
  }

  /** A pairing of key-equality pairs finds every expected key, with an accepted value. */
  lemma KeysFromKvPairing(expected: seq<(Value, Matcher)>, pairs: seq<(Matcher, Matcher)>, entries: seq<(Value, Value)>)
    requires |pairs| == |expected| && DistinctKeys(entries)
    requires forall i :: 0 <= i < |pairs| ==> pairs[i].1 == expected[i].1
    requires forall i, v :: 0 <= i < |pairs| ==> (pairs[i].0.matches(v) <==> v == expected[i].0)
    ensures HasPairing(KvMatrix(pairs, entries), |entries|, false) ==>
      forall i :: 0 <= i < |expected| ==> KeyMatched(expected[i], entries)
  {
    var mm := KvMatrix(pairs, entries);
    if HasPairing(mm, |entries|, false) {
      var f :| IsAssignment(mm, |entries|, f);
      forall i | 0 <= i < |expected| ensures KeyMatched(expected[i], entries) {
        assert mm[i][f[i]];
        LookupEntry(entries, f[i] as nat);
      }
    }
  }

  /** Expected keys that are all found give a pairing of the key-equality pairs: each pair takes its key's entry. */
  lemma KvPairingFromKeys(expected: seq<(Value, Matcher)>, pairs: seq<(Matcher, Matcher)>, entries: seq<(Value, Value)>)
    requires DistinctKeys(expected) && |pairs| == |expected| && DistinctKeys(entries)
    requires forall i :: 0 <= i < |pairs| ==> pairs[i].1 == expected[i].1
    requires forall i, v :: 0 <= i < |pairs| ==> (pairs[i].0.matches(v) <==> v == expected[i].0)
    ensures (forall i :: 0 <= i < |expected| ==> KeyMatched(expected[i], entries)) ==>
      HasPairing(KvMatrix(pairs, entries), |entries|, false)
  {
    var mm := KvMatrix(pairs, entries);
    if forall i :: 0 <= i < |expected| ==> KeyMatched(expected[i], entries) {
      var f := seq(|expected|, i requires 0 <= i < |expected| => KeyIndex(entries, expected[i].0).value);
      forall i | 0 <= i < |f| ensures 0 <= f[i] < |entries| && mm[i][f[i]] {
        assert KeyMatched(expected[i], entries);
        LookupEntry(entries, f[i]);
      }
      forall i, i' | 0 <= i < i' < |f| ensures f[i] != f[i'] {
        assert entries[f[i]].0 == expected[i].0 && entries[f[i']].0 == expected[i'].0;
      }
      assert IsAssignment(mm, |entries|, f);
    }
  }

  /** mapKvMatcher.String: the mode's word, then the keyValMatchers' descriptions. */
  function KvString(ms: seq<Matcher>, matchAll: bool): (s: string)
    ensures var pre := MapPrefix(matchAll) + " map entries [";
      |s| > |pre| && s[..|pre|] == pre && s[|s| - 1] == ']'
    ensures |ms| == 0 ==> s == MapPrefix(matchAll) + " map entries []"
    ensures |ms| == 1 ==> s == MapPrefix(matchAll) + " map entries [" + ms[0].description + "]"
  {
    var pre := MapPrefix(matchAll) + " map entries [";
    var inner := Join(Descriptions(ms), "; ");
    assert (pre + inner + "]")[..|pre|] == pre;
    pre + inner + "]"
  }

  /** With one more pair matcher, its description follows the others after "; ". */
  lemma KvStringAppend(ms: seq<Matcher>, m: Matcher, matchAll: bool)
    requires |ms| > 0
    ensures var s := KvString(ms, matchAll);
      KvString(ms + [m], matchAll) == s[..|s| - 1] + "; " + m.description + "]"
  {
    DescriptionsAppend(ms, m);
    BracketAppend(MapPrefix(matchAll) + " map entries [", Descriptions(ms), m.description);
  }

  /** One pair's part of the description: "key (<key matcher>) -> <value matcher>". */
  lemma KvStringOne(p: (Matcher, Matcher), matchAll: bool)
    ensures KvString(PairMatchers([p]), matchAll) ==
      MapPrefix(matchAll) + " map entries [key (" + p.0.description + ") -> " + p.1.description + "]"
  {
    assert Descriptions(PairMatchers([p])) == [KeyValString(p.0, p.1)];
  }

  /** MapContainsKVs: the pairs can be given distinct entries of the map. */
  function MapContainsKvs(pairs: seq<(Matcher, Matcher)>): (m: Matcher)
    ensures forall x :: m.matches(x) <==> x.Map? && HasPairing(KvMatrix(pairs, x.entries), |x.entries|, false)
  {
    forall x ensures MapKvMatches(PairMatchers(pairs), false, x) <==>
      x.Map? && HasPairing(KvMatrix(pairs, x.entries), |x.entries|, false)
    {
      KvPairingIff(pairs, false, x);
    }
    Matcher(x => MapKvMatches(PairMatchers(pairs), false, x), KvString(PairMatchers(pairs), false), x => None)
  }

  /** MapIsKVs: the pairs can be given distinct entries of the map, using every entry. */
  function MapIsKvs(pairs: seq<(Matcher, Matcher)>): (m: Matcher)
    ensures forall x :: m.matches(x) <==> x.Map? && HasPairing(KvMatrix(pairs, x.entries), |x.entries|, true)
    ensures forall x :: m.matches(x) ==> MapContainsKvs(pairs).matches(x) && |x.entries| == |pairs|
  {
    forall x ensures MapKvMatches(PairMatchers(pairs), true, x) <==>
      x.Map? && HasPairing(KvMatrix(pairs, x.entries), |x.entries|, true)
    {
      KvPairingIff(pairs, true, x);
      KvPairingIff(pairs, false, x);
      if x.Map? {
        FullPairingIffSquare(KvMatrix(pairs, x.entries), |x.entries|);
      }
    }
    Matcher(x => MapKvMatches(PairMatchers(pairs), true, x), KvString(PairMatchers(pairs), true), x => None)
  }
}

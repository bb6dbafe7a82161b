/**
 * The string matchers of string_matchers.go: StartsWith, HasSubstr, Regex
 * and ContainsRegex.  All of them accept a string or a []byte and nothing
 * else, and share stringMatcher's ExplainFailure.  The regular-expression
 * engine is not part of this model: the regex matchers take it as a
 * parameter, and what is modelled is how Regex anchors its pattern.
 */
module Strings {
  import opened Wrappers
  import opened GoValues

  /** stringMatcher.getString: the text of a string or of a []byte, one char per byte. */
  function GetString(x: Value): (r: Option<string>)
    ensures r.Some? <==> x.Str? || x.Bytes?
    ensures x.Str? ==> r == Some(x.s)
    ensures x.Bytes? ==> |r.value| == |x.b| && forall k :: 0 <= k < |x.b| ==> r.value[k] as int == x.b[k] as int
  {
    match x
    case Str(s) => Some(s)
    case Bytes(b) => Some(seq(|b|, k requires 0 <= k < |b| => (b[k] as int) as char))
    case _ => None
  }

  /** strings.HasPrefix. */
  predicate HasPrefix(s: string, prefix: string) {
    |prefix| <= |s| && s[..|prefix|] == prefix
  }

  /** sub occurs in s starting at position i. */
  predicate OccursAt(s: string, sub: string, i: nat) {
    i + |sub| <= |s| && s[i..i + |sub|] == sub
  }

  /** strings.Contains, as a property: sub occurs somewhere in s. */
  predicate HasSubstring(s: string, sub: string) {
    exists i: nat | i <= |s| :: OccursAt(s, sub, i)
  }

  /** strings.Index from position `from` on: the first occurrence of sub at or after `from`. */
  function IndexFrom(s: string, sub: string, from: nat): (r: Option<nat>)
    decreases |s| - from
    ensures r.Some? ==> from <= r.value && OccursAt(s, sub, r.value)
    ensures r.Some? ==> forall i: nat :: from <= i < r.value ==> !OccursAt(s, sub, i)
    ensures r.None? ==> forall i: nat :: from <= i ==> !OccursAt(s, sub, i)
  {
    if from + |sub| > |s| then None
    else if s[from..from + |sub|] == sub then Some(from)
    else IndexFrom(s, sub, from + 1)
  }

  /** strings.Index: the first occurrence of sub in s. */
  function Index(s: string, sub: string): (r: Option<nat>)
    ensures r.Some? <==> HasSubstring(s, sub)
    ensures r.Some? ==> OccursAt(s, sub, r.value) && forall i: nat :: i < r.value ==> !OccursAt(s, sub, i)
  {
    IndexFrom(s, sub, 0)
  }

  /** stringMatcher.ExplainFailure: nothing to say about a string or []byte, otherwise its type. */
  function StringExplanation(x: Value): (r: Option<string>)
    ensures r.None? <==> GetString(x).Some?
    ensures r.Some? ==> r.value == "value is of type " + TypeName(x) + ", not a string"
  {
    match GetString(x)
    case Some(_) => None
    case None => Some("value is of type " + TypeName(x) + ", not a string")
  }

  /** prefixMatcher.Matches. */
  function PrefixMatches(prefix: string, x: Value): bool {
    match GetString(x)
    case Some(s) => HasPrefix(s, prefix)
    case None => false
  }

  /** substrMatcher.Matches, through strings.Contains. */
  function SubstrMatches(sub: string, x: Value): bool {
    match GetString(x)
    case Some(s) => Index(s, sub).Some?
    case None => false
  }

  /** StartsWith: a string or []byte that begins with the prefix. */
  function StartsWith(prefix: string): (m: Matcher)
    ensures forall x :: m.matches(x) <==> GetString(x).Some? && HasPrefix(GetString(x).value, prefix)
    ensures m.description == "starts with '" + prefix + "'"
  {
    Matcher(x => PrefixMatches(prefix, x), "starts with '" + prefix + "'", StringExplanation)
  }

  /** HasSubstr: a string or []byte in which the substring occurs. */
  function HasSubstr(sub: string): (m: Matcher)
    ensures forall x :: m.matches(x) <==> GetString(x).Some? && HasSubstring(GetString(x).value, sub)
    ensures m.description == "has substring '" + sub + "'"
  {
    Matcher(x => SubstrMatches(sub, x), "has substring '" + sub + "'", StringExplanation)
  }

  /** StartsWith is the stronger test: a prefix is a substring. */
  lemma PrefixIsSubstring(prefix: string, x: Value)
    ensures StartsWith(prefix).matches(x) ==> HasSubstr(prefix).matches(x)
  {
    if StartsWith(prefix).matches(x) {
      assert OccursAt(GetString(x).value, prefix, 0);
    }
  }

  /** The empty prefix and the empty substring accept every string and []byte, and nothing else. */
  lemma EmptyNeedle(x: Value)
    ensures StartsWith("").matches(x) <==> x.Str? || x.Bytes?
    ensures HasSubstr("").matches(x) <==> x.Str? || x.Bytes?
  {
    if x.Str? || x.Bytes? {
      assert OccursAt(GetString(x).value, "", 0);
    }
  }

  /** A substring is never longer than the text it occurs in. */
  lemma SubstringFits(sub: string, x: Value)
    ensures HasSubstr(sub).matches(x) ==> |sub| <= |GetString(x).value|
  {
  }

  /** The occurrences the substring examples look for: "o, w" first occurs at 4 in "hello, world", "o,w" not at all. */
  lemma SubstrExamples(s: string)
    requires s == "hello, world"
    ensures Index(s, "o, w") == Some(4)
    ensures Index(s, "o,w") == None
  {
    SubstrHit(s);
    SubstrMiss(s);
  }

  /** "o, w" first occurs at 4 in "hello, world". */
  lemma SubstrHit(s: string)
    requires s == "hello, world"
    ensures Index(s, "o, w") == Some(4)
  {
    var hit := "o, w";
    Mismatch(s, hit, 0, 0);
    Mismatch(s, hit, 1, 0);
    Mismatch(s, hit, 2, 0);
    Mismatch(s, hit, 3, 0);
    assert s[4..8] == hit;
    assert OccursAt(s, hit, 4);
  }

  /** "o,w" does not occur in "hello, world". */
  lemma SubstrMiss(s: string)
    requires s == "hello, world"
    ensures Index(s, "o,w") == None
  {
    var miss := "o,w";
    forall i: nat ensures !OccursAt(s, miss, i) {
      if i < 5 {
        Mismatch(s, miss, i, if i == 4 then 2 else 0);
      } else if i < 10 {
        Mismatch(s, miss, i, if i == 8 then 1 else 0);
      }
    }
  }

  /** sub does not occur at i when one of its characters differs there. */
  lemma Mismatch(s: string, sub: string, i: nat, k: nat)
    requires i + |sub| <= |s| && k < |sub| && s[i + k] != sub[k]
    ensures !OccursAt(s, sub, i)
  {
    assert s[i..i + |sub|][k] != sub[k];
  }

  // ---------------------------------------------------------------------------
  // Regex and ContainsRegex
  // ---------------------------------------------------------------------------

  /** The pattern begins with ^. */
  predicate AnchoredAtStart(r: string) {
    |r| > 0 && r[0] == '^'
  }

  /** The pattern ends with $. */
  predicate AnchoredAtEnd(r: string) {
    |r| > 0 && r[|r| - 1] == '$'
  }

  /** The pattern begins with ^ and ends with $ (and is more than the single ^). */
  predicate Anchored(r: string) {
    |r| >= 2 && r[0] == '^' && r[|r| - 1] == '$'
  }

  /**
   * Regex's anchoring: a ^ in front unless the pattern already starts with
   * one, then a $ at the end unless it already ends with one.
   */
  function Anchor(r: string): (a: string)
    ensures Anchored(a)
    ensures |r| <= |a| <= |r| + 2
    ensures AnchoredAtStart(r) ==> a[..|r|] == r
    ensures !AnchoredAtStart(r) ==> |a| >= |r| + 1 && a[1..|r| + 1] == r
    ensures Anchored(r) ==> a == r
    ensures a == (if AnchoredAtStart(r) then "" else "^") + r + (if AnchoredAtEnd(r) then "" else "$")
  {
    var started := if AnchoredAtStart(r) then r else "^" + r;
    var a := if started[|started| - 1] != '$' then started + "$" else started;
    assert AnchoredAtStart(r) ==> a[..|r|] == r;
    assert !AnchoredAtStart(r) ==> a[1..|r| + 1] == r;
    a
  }

  /** Anchoring twice is anchoring once. */
  lemma AnchorIdempotent(r: string)
    ensures Anchor(Anchor(r)) == Anchor(r)
  {
  }

  /** A pattern with neither anchor gets both. */
  lemma AnchorBoth(r: string)
    requires |r| > 0 && r[0] != '^' && r[|r| - 1] != '$'
    ensures Anchor(r) == "^" + r + "$"
  {
  }

  /** The anchored patterns the Regex descriptions show. */
  lemma AnchorExamples()
    ensures Anchor("hello$") == "^hello$"
    ensures Anchor("\\d+") == "^\\d+$"
    ensures Anchor("") == "^$"
    ensures Anchor("^\\w+, \\w+$") == "^\\w+, \\w+$"
  {
    assert "^hello$"[..|"hello$"|] == "^hello";
  }

  /**
   * regexMatcher: a string or []byte in which the compiled pattern finds a
   * match.  `find` stands for the regexp engine's MatchString, which is not
   * part of this model.
   */
  function RegexMatcher(find: (string, string) -> bool, pattern: string): (m: Matcher)
    ensures forall x :: m.matches(x) <==> GetString(x).Some? && find(pattern, GetString(x).value)
    ensures m.description == "matches regex '" + pattern + "'"
    ensures forall x :: m.explain(x) == StringExplanation(x)
  {
    Matcher(
      x => match GetString(x) case Some(s) => find(pattern, s) case None => false,
      "matches regex '" + pattern + "'",
      StringExplanation)
  }

  /**
   * Regex: the engine runs the pattern with ^ and $ added.  Without
   * parentheses the anchors bind to the outer alternatives only, so "a|b"
   * becomes "^a|b$"; and a pattern ending in an escaped \$ gets no end anchor.
   */
  function Regex(find: (string, string) -> bool, r: string): (m: Matcher)
    ensures m.description == "matches regex '" + Anchor(r) + "'"
    ensures forall x :: m.matches(x) <==> GetString(x).Some? && find(Anchor(r), GetString(x).value)
  {
    RegexMatcher(find, Anchor(r))
  }

  /** ContainsRegex: the engine runs the pattern as given. */
  function ContainsRegex(find: (string, string) -> bool, r: string): (m: Matcher)
    ensures m.description == "matches regex '" + r + "'"
    ensures forall x :: m.matches(x) <==> GetString(x).Some? && find(r, GetString(x).value)
  {
    RegexMatcher(find, r)
  }

  /** On a pattern that is already anchored at both ends, Regex and ContainsRegex are the same matcher. */
  lemma AnchoredRegexIsContainsRegex(find: (string, string) -> bool, r: string)
    requires Anchored(r)
    ensures Regex(find, r) == ContainsRegex(find, r)
  {
  }
}

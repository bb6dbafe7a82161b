/**
 * orderedMatcher (container_matchers.go:661-720): ElementsAre, the
 * position-by-position matcher, with its failure explanation and its
 * description.  ElementsAre is the strongest of the three slice matchers:
 * whatever it accepts, ElementsAreUnordered and Contains accept too.
 */
module Ordered {
  import opened Wrappers
  import opened Text
  import opened GoValues
  import opened Bipartite
  import opened Unordered

  /** orderedMatcher.Matches: a slice or array as long as the matchers, each element accepted by the matcher at its index. */
  function OrderedMatches(ms: seq<Matcher>, x: Value): bool {
    match Elements(x)
    case None => false
    case Some(es) => |es| == |ms| && forall i :: 0 <= i < |es| ==> ms[i].matches(es[i])
  }

  /** The loop of orderedMatcher.Matches, which stops at the first element that fails. */
  method Matches(ms: seq<Matcher>, x: Value) returns (ok: bool)
    ensures ok <==> (Elements(x).Some? && |Elements(x).value| == |ms| &&
      forall i :: 0 <= i < |ms| ==> ms[i].matches(Elements(x).value[i]))
    ensures ok == OrderedMatches(ms, x)
  {
    if !(x.Slice? || x.Bytes?) {
      return false;
    }
    var es := Elements(x).value;
    if |es| != |ms| {
      return false;
    }
    for i := 0 to |es|
      invariant forall k :: 0 <= k < i ==> ms[k].matches(es[k])
    {
      if !ms[i].matches(es[i]) {
        return false;
      }
    }
    return true;
  }

  /** ElementsAre is the strongest test: the identity pairing serves ElementsAreUnordered, and so Contains. */
  lemma ElementsAreImpliesUnordered(ms: seq<Matcher>, x: Value)
    ensures OrderedMatches(ms, x) ==> UnorderedMatches(ms, true, x) && UnorderedMatches(ms, false, x)
  {
    if OrderedMatches(ms, x) {
      var es := Elements(x).value;
      var mm := MatrixOf(ms, es);
      var f: seq<int> := seq(|ms|, i => i);
      assert IsAssignment(mm, |es|, f);
      forall j | 0 <= j < |es| ensures j in f {
        assert f[j] == j;
      }
      assert Covers(f, |es|);
      UnorderedMatchesIff(ms, true, x);
      FullMatchImpliesContains(ms, x);
    }
  }

  /** What a failing element contributes: the matcher's own explanation, or "doesn't match" without one. */
  function ElementProblem(m: Matcher, v: Value): string {
    match m.explain(v)
    case Some(e) => e
    case None => "doesn't match"
  }

  /** The failing positions among the first n, each with its explanation, in increasing order. */
  function Failures(ms: seq<Matcher>, es: seq<Value>, n: nat): seq<(nat, string)>
    requires |es| == |ms| && n <= |ms|
  {
    if n == 0 then []
    else if ms[n - 1].matches(es[n - 1]) then Failures(ms, es, n - 1)
    else Failures(ms, es, n - 1) + [(n - 1, ElementProblem(ms[n - 1], es[n - 1]))]
  }

  /** Every listed position fails, with its element's explanation, and the positions increase. */
  lemma {:induction false} FailuresSound(ms: seq<Matcher>, es: seq<Value>, n: nat, r: seq<(nat, string)>)
    requires |es| == |ms| && n <= |ms| && r == Failures(ms, es, n)
    ensures forall k :: 0 <= k < |r| ==>
      r[k].0 < n && !ms[r[k].0].matches(es[r[k].0]) && r[k].1 == ElementProblem(ms[r[k].0], es[r[k].0])
    ensures forall a, b :: 0 <= a < b < |r| ==> r[a].0 < r[b].0
  {
    if n > 0 {
      var prev := Failures(ms, es, n - 1);
      FailuresSound(ms, es, n - 1, prev);
      forall k | 0 <= k < |prev| ensures r[k] == prev[k] {
      }
    }
  }

  /** Nothing is listed exactly when every position passes. */
  lemma {:induction false} FailuresEmpty(ms: seq<Matcher>, es: seq<Value>, n: nat)
    requires |es| == |ms| && n <= |ms|
    ensures |Failures(ms, es, n)| == 0 <==> forall i :: 0 <= i < n ==> ms[i].matches(es[i])
  {
    if n > 0 {
      FailuresEmpty(ms, es, n - 1);
    }
  }

  /** Every failing position is listed. */
  lemma {:induction false} FailuresComplete(ms: seq<Matcher>, es: seq<Value>, n: nat, i: nat)
    requires |es| == |ms| && i < n <= |ms| && !ms[i].matches(es[i])
    ensures exists k :: 0 <= k < |Failures(ms, es, n)| && Failures(ms, es, n)[k].0 == i
  {
    var prev := Failures(ms, es, n - 1);
    if i < n - 1 {
      FailuresComplete(ms, es, n - 1, i);
      var k :| 0 <= k < |prev| && prev[k].0 == i;
      assert Failures(ms, es, n)[k] == prev[k];
    } else {
      assert Failures(ms, es, n)[|prev|].0 == i;
    }
  }

  function PartText(p: (nat, string)): string {
    "element " + NatToString(p.0) + ": " + p.1
  }

  /** orderedMatcher.ExplainFailure as a value: the text and whether it explains anything. */
  function OrderedExplanation(ms: seq<Matcher>, x: Value): (string, bool) {
    match Elements(x)
    case None => ("val is of type " + TypeName(x) + ", which isn't iterable", true)
    case Some(es) =>
      if |es| != |ms| then (NatToString(|ms|) + " elements expected but got " + NatToString(|es|), true)
      else
        var fs := Failures(ms, es, |es|);
        if |fs| == 0 then ("", false) else (Join(MapSeq(PartText, fs), "; "), true)
  }

  /** The parts the loop of orderedMatcher.ExplainFailure collects from the first n positions, each rendered by f. */
  function Parts<B>(f: ((nat, string)) -> B, ms: seq<Matcher>, es: seq<Value>, n: nat): seq<B>
    requires |es| == |ms| && n <= |ms|
  {
    if n == 0 then []
    else if ms[n - 1].matches(es[n - 1]) then Parts(f, ms, es, n - 1)
    else Parts(f, ms, es, n - 1) + [f((n - 1, ElementProblem(ms[n - 1], es[n - 1])))]
  }

  /** The parts are the failures, each rendered by f. */
  lemma {:induction false} PartsAreFailures<B>(f: ((nat, string)) -> B, ms: seq<Matcher>, es: seq<Value>, n: nat)
    requires |es| == |ms| && n <= |ms|
    ensures Parts(f, ms, es, n) == MapSeq(f, Failures(ms, es, n))
  {
    if n > 0 {
      PartsAreFailures(f, ms, es, n - 1);
      PartsStep(f, ms, es, n);
    }
  }

  /** Position n - 1 adds the same part to both sides. */
  lemma PartsStep<B>(f: ((nat, string)) -> B, ms: seq<Matcher>, es: seq<Value>, n: nat)
    requires |es| == |ms| && 0 < n <= |ms|
    requires Parts(f, ms, es, n - 1) == MapSeq(f, Failures(ms, es, n - 1))
    ensures Parts(f, ms, es, n) == MapSeq(f, Failures(ms, es, n))
  {
    if !ms[n - 1].matches(es[n - 1]) {
      var failure: (nat, string) := (n - 1, ElementProblem(ms[n - 1], es[n - 1]));
      MapSeqAppend(f, Failures(ms, es, n - 1), failure);
    }
  }

  /** The loop of orderedMatcher.ExplainFailure that collects one part per failing element. */
  method ListFailures(ms: seq<Matcher>, es: seq<Value>) returns (parts: seq<string>)
    requires |es| == |ms|
    ensures parts == MapSeq(PartText, Failures(ms, es, |es|))
    ensures |parts| == |Failures(ms, es, |es|)|
    ensures forall k :: 0 <= k < |parts| ==> parts[k] == PartText(Failures(ms, es, |es|)[k])
  {
    parts := [];
    for i := 0 to |es|
      invariant parts == Parts(PartText, ms, es, i)
    {
      if !ms[i].matches(es[i]) {
        parts := parts + [PartText((i, ElementProblem(ms[i], es[i])))];
      }
    }
    PartsAreFailures(PartText, ms, es, |es|);
  }

  /**
   * orderedMatcher.ExplainFailure: nothing to explain exactly when the
   * matcher accepts; otherwise the type, the size, or one part per failing
   * element.
   */
  method ExplainFailure(ms: seq<Matcher>, x: Value) returns (text: string, ok: bool)
    ensures !ok <==> OrderedMatches(ms, x)
    ensures !ok ==> text == ""
    ensures (text, ok) == OrderedExplanation(ms, x)
  {
    if !(x.Slice? || x.Bytes?) {
      return "val is of type " + TypeName(x) + ", which isn't iterable", true;
    }
    var es := Elements(x).value;
    if |es| != |ms| {
      return NatToString(|ms|) + " elements expected but got " + NatToString(|es|), true;
    }
    var parts := ListFailures(ms, es);
    FailuresEmpty(ms, es, |es|);
    if |parts| == 0 {
      return "", false;
    }
    return Join(parts, "; "), true;
  }

  /** orderedMatcher.String. */
  function OrderedString(ms: seq<Matcher>): (s: string)
    ensures |s| > |"has elements matching ["| && s[..|"has elements matching ["|] == "has elements matching ["
    ensures s[|s| - 1] == ']'
    ensures |ms| == 0 ==> s == "has elements matching []"
    ensures |ms| == 1 ==> s == "has elements matching [" + ms[0].description + "]"
  {
    var inner := Join(Descriptions(ms), "; ");
    assert ("has elements matching [" + inner + "]")[..|"has elements matching ["|] == "has elements matching [";
    "has elements matching [" + inner + "]"
  }

  /** With one more matcher, its description follows the others after "; ". */
  lemma OrderedStringAppend(ms: seq<Matcher>, m: Matcher)
    requires |ms| > 0
    ensures var s := OrderedString(ms);
      OrderedString(ms + [m]) == s[..|s| - 1] + "; " + m.description + "]"
  {
    DescriptionsAppend(ms, m);
    BracketAppend("has elements matching [", Descriptions(ms), m.description);
  }

  function AsOption(r: (string, bool)): Option<string> {
    if r.1 then Some(r.0) else None
  }

  /** ElementsAre, which accepts only what ElementsAreUnordered and Contains of the same matchers accept. */
  function ElementsAre(ms: seq<Matcher>): (m: Matcher)
    ensures forall x :: m.matches(x) ==> ElementsAreUnordered(ms).matches(x) && Contains(ms).matches(x)
    ensures forall x :: m.explain(x).None? <==> m.matches(x)
  {
    forall x ensures OrderedMatches(ms, x) ==> UnorderedMatches(ms, true, x) && UnorderedMatches(ms, false, x) {
      ElementsAreImpliesUnordered(ms, x);
    }
    forall x ensures OrderedExplanation(ms, x).1 <==> !OrderedMatches(ms, x) {
      if Elements(x).Some? && |Elements(x).value| == |ms| {
        FailuresEmpty(ms, Elements(x).value, |ms|);
      }
    }
    Matcher(x => OrderedMatches(ms, x), OrderedString(ms), x => AsOption(OrderedExplanation(ms, x)))
  }
}

/**
 * unorderedMatcher (container_matchers.go:412-570): Contains and
 * ElementsAreUnordered.  Matches builds the matrix of which matcher accepts
 * which element, rejects at once when some matcher (or, in full mode, some
 * element) is unmatchable, and otherwise asks the flow graph how many
 * matchers it can pair.  The functions here are the specification; the
 * methods follow the Go loops and are proved equal to them; the lemmas say
 * what the answer means: an injective pairing of matchers to elements they
 * accept exists (covering every element in full mode).
 */
module Unordered {
  import opened Wrappers
  import opened Text
  import opened GoValues
  import opened Bipartite
  import opened KuhnSearch
  import opened FlowGraph

  // ---------------------------------------------------------------------------
  // The match matrix
  // ---------------------------------------------------------------------------

  /** Row i, column j: does matcher i accept element j. */
  function MatrixOf(ms: seq<Matcher>, es: seq<Value>): (mm: Matrix)
    ensures |mm| == |ms| && Rectangular(mm, |es|)
    ensures forall i, j :: 0 <= i < |ms| && 0 <= j < |es| ==> mm[i][j] == ms[i].matches(es[j])
  {
    seq(|ms|, i requires 0 <= i < |ms| => seq(|es|, j requires 0 <= j < |es| => ms[i].matches(es[j])))
  }

  /** The nested loops of Matches and ExplainFailure that fill the matrix row by row. */
  method BuildMatrix(ms: seq<Matcher>, es: seq<Value>) returns (mm: Matrix)
    ensures mm == MatrixOf(ms, es)
  {
    mm := [];
    for i := 0 to |ms|
      invariant |mm| == i && Rectangular(mm, |es|)
      invariant forall i', j :: 0 <= i' < i && 0 <= j < |es| ==> mm[i'][j] == ms[i'].matches(es[j])
    {
      var row := new bool[|es|];
      for j := 0 to |es|
        invariant forall j' :: 0 <= j' < j ==> row[j'] == ms[i].matches(es[j'])
      {
        row[j] := ms[i].matches(es[j]);
      }
      mm := mm + [row[..]];
    }
    SameMatrix(mm, ms, es);
  }

  /** A matrix with the entries of MatrixOf is MatrixOf. */
  lemma SameMatrix(mm: Matrix, ms: seq<Matcher>, es: seq<Value>)
    requires |mm| == |ms| && Rectangular(mm, |es|)
    requires forall i, j :: 0 <= i < |ms| && 0 <= j < |es| ==> mm[i][j] == ms[i].matches(es[j])
    ensures mm == MatrixOf(ms, es)
  {
    var nn := MatrixOf(ms, es);
    forall i | 0 <= i < |mm| ensures mm[i] == nn[i] {
      assert |mm[i]| == |nn[i]|;
    }
  }

  /** Strictly increasing indices. */
  predicate Increasing(s: seq<nat>) {
    forall a, b :: 0 <= a < b < |s| ==> s[a] < s[b]
  }

  /** The matchers among the first n that accept no value, in increasing order. */
  function EmptyRows(mm: Matrix, width: nat, n: nat): (r: seq<nat>)
    requires Rectangular(mm, width) && n <= |mm|
    ensures forall k :: 0 <= k < |r| ==> r[k] < n && RowEmpty(mm, width, r[k])
    ensures forall i :: i in r <==> 0 <= i < n && RowEmpty(mm, width, i)
    ensures Increasing(r)
  {
    if n == 0 then []
    else
      var prev := EmptyRows(mm, width, n - 1);
      if RowEmpty(mm, width, n - 1) then
        assert forall k :: 0 <= k < |prev| ==> prev[k] < n - 1;
        prev + [n - 1]
      else prev
  }

  /** The values among the first n that no matcher accepts, in increasing order. */
  function EmptyColumns(mm: Matrix, width: nat, n: nat): (r: seq<nat>)
    requires Rectangular(mm, width) && n <= width
    ensures forall k :: 0 <= k < |r| ==> r[k] < n && ColumnEmpty(mm, width, r[k])
    ensures forall j :: j in r <==> 0 <= j < n && ColumnEmpty(mm, width, j)
    ensures Increasing(r)
  {
    if n == 0 then []
    else
      var prev := EmptyColumns(mm, width, n - 1);
      if ColumnEmpty(mm, width, n - 1) then
        assert forall k :: 0 <= k < |prev| ==> prev[k] < n - 1;
        prev + [n - 1]
      else prev
  }

  /** One more matcher adds itself to the list exactly when it accepts no value. */
  lemma EmptyRowsStep(mm: Matrix, width: nat, i: nat)
    requires Rectangular(mm, width) && i < |mm|
    ensures EmptyRows(mm, width, i + 1) ==
      if RowEmpty(mm, width, i) then EmptyRows(mm, width, i) + [i] else EmptyRows(mm, width, i)
  {
  }

  /** One more value adds itself to the list exactly when no matcher accepts it. */
  lemma EmptyColumnsStep(mm: Matrix, width: nat, j: nat)
    requires Rectangular(mm, width) && j < width
    ensures EmptyColumns(mm, width, j + 1) ==
      if ColumnEmpty(mm, width, j) then EmptyColumns(mm, width, j) + [j] else EmptyColumns(mm, width, j)
  {
  }

  /**
   * validateMatchMatrix: the matchers that accept no value and the values no
   * matcher accepts, each list in increasing order.
   */
  method ValidateMatchMatrix(mm: Matrix, width: nat) returns (noMatchMatchers: seq<nat>, noMatchValues: seq<nat>)
    requires Rectangular(mm, width)
    ensures noMatchMatchers == EmptyRows(mm, width, |mm|)
    ensures noMatchValues == EmptyColumns(mm, width, width)
  {
    noMatchMatchers := ListEmptyRows(mm, width);
    noMatchValues := ListEmptyColumns(mm, width);
  }

  /** The first loop nest of validateMatchMatrix: each matcher that accepts no value. */
  method ListEmptyRows(mm: Matrix, width: nat) returns (noMatchMatchers: seq<nat>)
    requires Rectangular(mm, width)
    ensures noMatchMatchers == EmptyRows(mm, width, |mm|)
  {
    noMatchMatchers := [];
    label EachMatcher:
    for i := 0 to |mm|
      invariant noMatchMatchers == EmptyRows(mm, width, i)
    {
      for j := 0 to width
        invariant forall j' :: 0 <= j' < j ==> !mm[i][j']
      {
        if mm[i][j] {
          assert !RowEmpty(mm, width, i);
          EmptyRowsStep(mm, width, i);
          continue EachMatcher;
        }
      }
      assert RowEmpty(mm, width, i);
      EmptyRowsStep(mm, width, i);
      noMatchMatchers := noMatchMatchers + [i];
    }
  }

  /** The second loop nest of validateMatchMatrix: each value no matcher accepts. */
  method ListEmptyColumns(mm: Matrix, width: nat) returns (noMatchValues: seq<nat>)
    requires Rectangular(mm, width)
    ensures noMatchValues == EmptyColumns(mm, width, width)
  {
    noMatchValues := [];
    label EachValue:
    for j := 0 to width
      invariant noMatchValues == EmptyColumns(mm, width, j)
    {
      for i := 0 to |mm|
        invariant forall i' :: 0 <= i' < i ==> !mm[i'][j]
      {
        if mm[i][j] {
          assert !ColumnEmpty(mm, width, j);
          EmptyColumnsStep(mm, width, j);
          continue EachValue;
        }
      }
      assert ColumnEmpty(mm, width, j);
      EmptyColumnsStep(mm, width, j);
      noMatchValues := noMatchValues + [j];
    }
  }

  // ---------------------------------------------------------------------------
  // Matches
  // ---------------------------------------------------------------------------

  /**
   * unorderedMatcher.Matches: only slices and arrays match; the length must
   * equal the number of matchers in full mode and be at least that number
   * otherwise; no matcher (and in full mode no value) may be unmatchable; and
   * the flow graph must pair every matcher.
   */
  function UnorderedMatches(ms: seq<Matcher>, matchAll: bool, x: Value): bool {
    match Elements(x)
    case None => false
    case Some(es) =>
      if matchAll && |es| != |ms| then false
      else if |es| < |ms| then false
      else
        var mm := MatrixOf(ms, es);
        if |EmptyRows(mm, |es|, |mm|)| > 0 then false
        else if matchAll && |EmptyColumns(mm, |es|, |es|)| > 0 then false
        else CountAssigned(SolveCorrected(mm, Width(mm)).matcherToVal) == |ms|
  }

  /** A pairing needs at least as many values as matchers. */
  lemma PairingNeedsEnoughValues(mm: Matrix, width: nat)
    requires Rectangular(mm, width)
    ensures HasPairing(mm, width, false) ==> |mm| <= width
  {
    if HasPairing(mm, width, false) {
      var f :| IsAssignment(mm, width, f);
      AssignmentNeedsEnoughValues(mm, width, f);
    }
  }

  /** A matcher that accepts no value rules out every pairing. */
  lemma EmptyRowBlocks(mm: Matrix, width: nat, i: nat)
    requires Rectangular(mm, width) && i < |mm| && RowEmpty(mm, width, i)
    ensures !HasPairing(mm, width, false) && !HasPairing(mm, width, true)
  {
    forall f ensures !IsAssignment(mm, width, f) {
      if |f| == |mm| && 0 <= f[i] < width {
        assert !mm[i][f[i]];
      }
    }
  }

  /** A value that no matcher accepts rules out every covering pairing. */
  lemma EmptyColumnBlocks(mm: Matrix, width: nat, j: nat)
    requires Rectangular(mm, width) && j < width && ColumnEmpty(mm, width, j)
    ensures !HasPairing(mm, width, true)
  {
    forall f ensures !(IsAssignment(mm, width, f) && Covers(f, width)) {
      if IsAssignment(mm, width, f) {
        forall i | 0 <= i < |f| ensures f[i] != j {
          assert mm[i][f[i]];
        }
        assert j !in f;
      }
    }
  }

  /**
   * What Matches decides: x is a slice or array and its elements can be
   * paired one to one with the matchers, each matcher with an element it
   * accepts, using every element in full mode (ElementsAreUnordered) and
   * any subset of them otherwise (Contains).
   */
  lemma UnorderedMatchesIff(ms: seq<Matcher>, matchAll: bool, x: Value)
    ensures UnorderedMatches(ms, matchAll, x) <==>
      Elements(x).Some? && HasPairing(MatrixOf(ms, Elements(x).value), |Elements(x).value|, matchAll)
  {
    if Elements(x).Some? {
      var es := Elements(x).value;
      var w := |es|;
      var mm := MatrixOf(ms, es);
      FullPairingIffSquare(mm, w);
      PairingNeedsEnoughValues(mm, w);
      if matchAll && w != |ms| {
      } else if w < |ms| {
      } else if |EmptyRows(mm, w, |mm|)| > 0 {
        var rows := EmptyRows(mm, w, |mm|);
        assert rows[0] in rows;
        EmptyRowBlocks(mm, w, rows[0]);
      } else if matchAll && |EmptyColumns(mm, w, w)| > 0 {
        var cols := EmptyColumns(mm, w, w);
        assert cols[0] in cols;
        EmptyColumnBlocks(mm, w, cols[0]);
      } else {
        SolveCounts(mm, Width(mm));
        if |ms| == 0 {
          assert IsAssignment(mm, w, []);
          if matchAll {
            assert Covers([], w);
          }
        } else {
          assert Width(mm) == w;
        }
      }
    }
  }

  /** Matches as the Go code computes it, through the matrix, the validation and the flow graph. */
  method Matches(ms: seq<Matcher>, matchAll: bool, x: Value) returns (ok: bool)
    ensures ok <==> Elements(x).Some? && HasPairing(MatrixOf(ms, Elements(x).value), |Elements(x).value|, matchAll)
    ensures ok == UnorderedMatches(ms, matchAll, x)
  {
    UnorderedMatchesIff(ms, matchAll, x);
    if !(x.Slice? || x.Bytes?) {
      return false;
    }
    var es := Elements(x).value;
    if matchAll && |es| != |ms| {
      return false;
    } else if |es| < |ms| {
      return false;
    }
    var mm := BuildMatrix(ms, es);
    var noMatchMatchers, noMatchValues := ValidateMatchMatrix(mm, |es|);
    if |noMatchMatchers| > 0 {
      return false;
    }
    if matchAll && |noMatchValues| > 0 {
      return false;
    }
    var g := NewSolved(mm);
    return g.matchersMatched == |ms|;
  }

  /** ElementsAreUnordered is the stronger test: whatever it accepts, Contains accepts. */
  lemma FullMatchImpliesContains(ms: seq<Matcher>, x: Value)
    ensures UnorderedMatches(ms, true, x) ==> UnorderedMatches(ms, false, x)
  {
    UnorderedMatchesIff(ms, true, x);
    UnorderedMatchesIff(ms, false, x);
  }

  /**
   * Without matchers, Contains accepts every slice and array and
   * ElementsAreUnordered exactly the empty ones.
   */
  lemma NoMatchers(x: Value)
    ensures UnorderedMatches([], false, x) <==> Elements(x).Some?
    ensures UnorderedMatches([], true, x) <==> Elements(x).Some? && |Elements(x).value| == 0
  {
    UnorderedMatchesIff([], false, x);
    UnorderedMatchesIff([], true, x);
    if Elements(x).Some? {
      var es := Elements(x).value;
      assert IsAssignment(MatrixOf([], es), |es|, []);
      if |es| > 0 {
        assert !Covers([], |es|) by {
          assert 0 !in [];
        }
        assert IsAssignment(MatrixOf([], es), |es|, []);
        forall f ensures !(IsAssignment(MatrixOf([], es), |es|, f) && Covers(f, |es|)) {
          if IsAssignment(MatrixOf([], es), |es|, f) {
            assert f == [];
          }
        }
      }
    }
  }

  // ---------------------------------------------------------------------------
  // ExplainFailure
  // ---------------------------------------------------------------------------

  /** The (value, matcher) pairs of valToMatcher, in increasing value order, skipping unassigned values. */
  function AssignedPairs(vtm: seq<int>): (ps: seq<(nat, int)>)
    ensures |ps| == CountAssigned(vtm)
    ensures forall k :: 0 <= k < |ps| ==> ps[k].0 < |vtm| && vtm[ps[k].0] != Free && ps[k].1 == vtm[ps[k].0]
    ensures forall a, b :: 0 <= a < b < |ps| ==> ps[a].0 < ps[b].0
  {
    if vtm == [] then []
    else
      var last := |vtm| - 1;
      var prefix := AssignedPairs(vtm[..last]);
      if vtm[last] != Free then prefix + [(last, vtm[last])] else prefix
  }

  /** Every assigned value appears in AssignedPairs. */
  lemma {:induction false} AssignedPairsComplete(vtm: seq<int>, j: nat)
    requires j < |vtm| && vtm[j] != Free
    ensures exists k :: 0 <= k < |AssignedPairs(vtm)| && AssignedPairs(vtm)[k] == (j, vtm[j])
  {
    var last := |vtm| - 1;
    var prefix := AssignedPairs(vtm[..last]);
    if j < last {
      AssignedPairsComplete(vtm[..last], j);
      var k :| 0 <= k < |prefix| && prefix[k] == (j, vtm[j]);
      assert AssignedPairs(vtm)[k] == prefix[k];
    } else {
      assert AssignedPairs(vtm)[|prefix|] == (j, vtm[j]);
    }
  }

  /** The increasingly specific explanations ExplainFailure gives. */
  datatype Diagnosis =
      /** the value is not a slice or array */
    | NotIterable(typeName: string)
      /** full mode, and the number of elements differs from the number of matchers */
    | WrongCount(expected: nat, got: nat)
      /** fewer elements than matchers */
    | TooFew(expected: nat, got: nat)
      /** matchers that accept nothing (index and description) and, in full mode, values nothing accepts */
    | Unmatchable(matchers: seq<(nat, string)>, values: seq<nat>)
      /** the flow graph's best pairing: matched of total matchers, as (value, matcher) pairs */
    | Closest(matchAll: bool, matched: nat, total: nat, pairs: seq<(nat, int)>)

  /** The unmatchable matchers with their descriptions. */
  function Unpaired(ms: seq<Matcher>, rows: seq<nat>): (r: seq<(nat, string)>)
    requires forall k :: 0 <= k < |rows| ==> rows[k] < |ms|
    ensures |r| == |rows|
    ensures forall k :: 0 <= k < |rows| ==> r[k] == (rows[k], ms[rows[k]].description)
  {
    seq(|rows|, k requires 0 <= k < |rows| => (rows[k], ms[rows[k]].description))
  }

  /** Which explanation ExplainFailure gives for x. */
  function Diagnose(ms: seq<Matcher>, matchAll: bool, x: Value): Diagnosis {
    match Elements(x)
    case None => NotIterable(TypeName(x))
    case Some(es) =>
      if matchAll && |es| != |ms| then WrongCount(|ms|, |es|)
      else if |es| < |ms| then TooFew(|ms|, |es|)
      else DiagnosePairing(ms, matchAll, es)
  }

  /** Past the size checks: the unmatchable matchers and values if any, otherwise the flow graph's pairing. */
  function DiagnosePairing(ms: seq<Matcher>, matchAll: bool, es: seq<Value>): Diagnosis {
    var mm := MatrixOf(ms, es);
    var rows := EmptyRows(mm, |es|, |mm|);
    var cols := if matchAll then EmptyColumns(mm, |es|, |es|) else [];
    if |rows| > 0 || |cols| > 0 then Unmatchable(Unpaired(ms, rows), cols)
    else
      var p := SolveCorrected(mm, Width(mm));
      Closest(matchAll, CountAssigned(p.matcherToVal), |ms|, AssignedPairs(p.valToMatcher))
  }

  function MatcherProblem(m: (nat, string)): string {
    "matcher " + NatToString(m.0) + " matches no elements (wanted " + m.1 + ")"
  }

  function ValueProblem(j: nat): string {
    "value " + NatToString(j) + " matches no matchers"
  }

  function PairText(p: (nat, int)): string {
    "value " + NatToString(p.0) + " -> matcher " + IntToString(p.1)
  }

  /** The start of the closest-match explanation: the count of paired matchers out of all. */
  function ClosestHeader(matchAll: bool, matched: nat, total: nat): string {
    (if matchAll then "no permutation could pair all matchers and values, closest match is "
     else "no permutation could satisfy all matchers, closest match is ") +
    NatToString(matched) + "/" + NatToString(total) + " with "
  }

  /** The text ExplainFailure returns for a diagnosis. */
  function Render(d: Diagnosis): string {
    match d
    case NotIterable(t) => "type " + t + " isn't iterable"
    case WrongCount(n, got) => NatToString(n) + " elements expected but got " + NatToString(got)
    case TooFew(n, got) => "at least " + NatToString(n) + " elements expected but got " + NatToString(got)
    case Unmatchable(ms, vs) => Join(MapSeq(MatcherProblem, ms) + MapSeq(ValueProblem, vs), "; ")
    case Closest(matchAll, matched, total, pairs) =>
      ClosestHeader(matchAll, matched, total) + Join(MapSeq(PairText, pairs), "; ")
  }

  /** The closest-match explanation is the header followed by the pairs, joined by "; ". */
  lemma RenderClosest(d: Diagnosis, header: string, pairs: seq<string>)
    requires d.Closest? && header == ClosestHeader(d.matchAll, d.matched, d.total)
    requires pairs == MapSeq(PairText, d.pairs)
    ensures Render(d) == header + Join(pairs, "; ")
  {
  }

  /** Appending one element to the input appends its image to MapSeq's result. */
  lemma MapSeqStep<A, B>(f: A -> B, s: seq<A>, k: nat)
    requires k < |s|
    ensures MapSeq(f, s[..k + 1]) == MapSeq(f, s[..k]) + [f(s[k])]
  {
    assert s[..k + 1][..k] == s[..k];
  }

  /** Appending one element appends its image. */
  lemma MapSeqAppend<A, B>(f: A -> B, s: seq<A>, a: A)
    ensures MapSeq(f, s + [a]) == MapSeq(f, s) + [f(a)]
  {
    assert (s + [a])[..|s|] == s;
  }

  /** AssignedPairs of a prefix one longer. */
  lemma AssignedPairsStep(vtm: seq<int>, i: nat)
    requires i < |vtm|
    ensures AssignedPairs(vtm[..i + 1]) ==
      AssignedPairs(vtm[..i]) + (if vtm[i] != Free then [(i, vtm[i])] else [])
  {
    assert vtm[..i + 1][..i] == vtm[..i];
  }

  /**
   * The loops of ExplainFailure that describe each unmatchable matcher and,
   * in full mode, each unmatchable value.
   */
  method ListProblems(ms: seq<Matcher>, matchAll: bool, noMatchMatchers: seq<nat>, noMatchValues: seq<nat>)
    returns (problems: seq<string>)
    requires forall k :: 0 <= k < |noMatchMatchers| ==> noMatchMatchers[k] < |ms|
    ensures problems == MapSeq(MatcherProblem, Unpaired(ms, noMatchMatchers)) +
      MapSeq(ValueProblem, if matchAll then noMatchValues else [])
  {
    ghost var unpaired := Unpaired(ms, noMatchMatchers);
    problems := [];
    for k := 0 to |noMatchMatchers|
      invariant problems == MapSeq(MatcherProblem, unpaired[..k])
    {
      MapSeqStep(MatcherProblem, unpaired, k);
      var badMatcher := noMatchMatchers[k];
      problems := problems + [MatcherProblem((badMatcher, ms[badMatcher].description))];
    }
    assert unpaired[..|noMatchMatchers|] == unpaired;
    if matchAll {
      for k := 0 to |noMatchValues|
        invariant problems == MapSeq(MatcherProblem, unpaired) + MapSeq(ValueProblem, noMatchValues[..k])
      {
        MapSeqStep(ValueProblem, noMatchValues, k);
        problems := problems + [ValueProblem(noMatchValues[k])];
      }
      assert noMatchValues[..|noMatchValues|] == noMatchValues;
    }
  }

  /** The loop of ExplainFailure that describes each assigned value and its matcher. */
  method ListPairs(valToMatcher: array<int>) returns (matches: seq<string>)
    ensures matches == MapSeq(PairText, AssignedPairs(valToMatcher[..]))
  {
    matches := [];
    for i := 0 to valToMatcher.Length
      invariant matches == MapSeq(PairText, AssignedPairs(valToMatcher[..i]))
    {
      AssignedPairsStep(valToMatcher[..], i);
      assert valToMatcher[..][..i + 1] == valToMatcher[..i + 1];
      if valToMatcher[i] != -1 {
        MapSeqAppend(PairText, AssignedPairs(valToMatcher[..i]), (i, valToMatcher[i]));
        matches := matches + [PairText((i, valToMatcher[i]))];
      }
    }
    assert valToMatcher[..valToMatcher.Length] == valToMatcher[..];
  }

  /**
   * unorderedMatcher.ExplainFailure, step by step as in Go, proved to produce
   * the rendering of Diagnose.  The second result is always true.
   */
  method ExplainFailure(ms: seq<Matcher>, matchAll: bool, x: Value) returns (text: string, ok: bool)
    ensures ok && text == Render(Diagnose(ms, matchAll, x))
  {
    if !(x.Slice? || x.Bytes?) {
      return "type " + TypeName(x) + " isn't iterable", true;
    }
    var es := Elements(x).value;
    if matchAll && |es| != |ms| {
      return NatToString(|ms|) + " elements expected but got " + NatToString(|es|), true;
    } else if |es| < |ms| {
      return "at least " + NatToString(|ms|) + " elements expected but got " + NatToString(|es|), true;
    }
    text := ExplainPairing(ms, matchAll, es);
    return text, true;
  }

  /**
   * The part of ExplainFailure after the size checks: the unmatchable
   * matchers and values if there are any, otherwise the flow graph's pairing.
   */
  method ExplainPairing(ms: seq<Matcher>, matchAll: bool, es: seq<Value>) returns (text: string)
    ensures text == Render(DiagnosePairing(ms, matchAll, es))
  {
    var mm := BuildMatrix(ms, es);
    var noMatchMatchers, noMatchValues := ValidateMatchMatrix(mm, |es|);
    var problems := ListProblems(ms, matchAll, noMatchMatchers, noMatchValues);
    if |problems| > 0 {
      UnmatchableText(ms, matchAll, es, problems);
      return Join(problems, "; ");
    }
    assert Rectangular(mm, Width(mm)) by {
      ShapeOfMatrix(ms, es);
    }
    text := ExplainClosest(mm, matchAll, |ms|);
    ClosestText(ms, matchAll, es, text);
  }

  /** MatrixOf has the dimensions the flow graph reads off it. */
  lemma ShapeOfMatrix(ms: seq<Matcher>, es: seq<Value>)
    ensures Rectangular(MatrixOf(ms, es), Width(MatrixOf(ms, es)))
    ensures |ms| > 0 ==> Width(MatrixOf(ms, es)) == |es|
  {
  }

  /** The problem lines ExplainFailure lists before it solves the flow graph. */
  function ProblemLines(ms: seq<Matcher>, matchAll: bool, es: seq<Value>): seq<string> {
    var mm := MatrixOf(ms, es);
    MapSeq(MatcherProblem, Unpaired(ms, EmptyRows(mm, |es|, |ms|))) +
    MapSeq(ValueProblem, if matchAll then EmptyColumns(mm, |es|, |es|) else [])
  }

  /** When there are problem lines, they are the explanation. */
  lemma UnmatchableText(ms: seq<Matcher>, matchAll: bool, es: seq<Value>, problems: seq<string>)
    requires problems == ProblemLines(ms, matchAll, es) && |problems| > 0
    ensures Join(problems, "; ") == Render(DiagnosePairing(ms, matchAll, es))
  {
    var mm := MatrixOf(ms, es);
    var rows := EmptyRows(mm, |es|, |mm|);
    var cols := if matchAll then EmptyColumns(mm, |es|, |es|) else [];
    var u := Unpaired(ms, rows);
    assert problems == MapSeq(MatcherProblem, u) + MapSeq(ValueProblem, cols);
    assert |rows| > 0 || |cols| > 0;
    var d := Unmatchable(u, cols);
    assert DiagnosePairing(ms, matchAll, es) == d;
    RenderUnmatchable(u, cols);
  }

  /** The unmatchable explanation is the problem lines joined with "; ". */
  lemma RenderUnmatchable(u: seq<(nat, string)>, cols: seq<nat>)
    ensures Render(Unmatchable(u, cols)) == Join(MapSeq(MatcherProblem, u) + MapSeq(ValueProblem, cols), "; ")
  {
  }

  /** Without problem lines, the explanation is the solved flow graph's closest match. */
  lemma ClosestText(ms: seq<Matcher>, matchAll: bool, es: seq<Value>, text: string)
    requires |ProblemLines(ms, matchAll, es)| == 0
    requires var mm := MatrixOf(ms, es); var p := SolveCorrected(mm, Width(mm));
      Rectangular(mm, Width(mm)) &&
      text == Render(Closest(matchAll, CountAssigned(p.matcherToVal), |ms|, AssignedPairs(p.valToMatcher)))
    ensures text == Render(DiagnosePairing(ms, matchAll, es))
  {
  }

  /** The closest-match explanation: solve the flow graph and list its pairs after the header. */
  method ExplainClosest(mm: Matrix, matchAll: bool, total: nat) returns (text: string)
    requires Rectangular(mm, Width(mm))
    ensures var p := SolveCorrected(mm, Width(mm));
      text == Render(Closest(matchAll, CountAssigned(p.matcherToVal), total, AssignedPairs(p.valToMatcher)))
  {
    var g := NewSolved(mm);
    var problem := ClosestHeader(matchAll, g.matchersMatched, total);
    var matches := ListPairs(g.valToMatcher);
    ghost var q := SolveCorrected(mm, Width(mm));
    assert g.valToMatcher[..] == q.valToMatcher && g.matcherToVal[..] == q.matcherToVal;
    ghost var d := Closest(matchAll, CountAssigned(q.matcherToVal), total, AssignedPairs(q.valToMatcher));
    RenderClosest(d, problem, matches);
    text := problem + Join(matches, "; ");
  }

  /** Every matcher Diagnose lists as unmatchable accepts no element, and the list is increasing. */
  lemma UnpairedSound(ms: seq<Matcher>, es: seq<Value>, u: seq<(nat, string)>)
    requires u == Unpaired(ms, EmptyRows(MatrixOf(ms, es), |es|, |ms|))
    ensures forall k :: 0 <= k < |u| ==>
      u[k].0 < |ms| && u[k].1 == ms[u[k].0].description &&
      forall j :: 0 <= j < |es| ==> !ms[u[k].0].matches(es[j])
    ensures forall a, b :: 0 <= a < b < |u| ==> u[a].0 < u[b].0
  {
    var mm := MatrixOf(ms, es);
    var rows := EmptyRows(mm, |es|, |ms|);
    forall k | 0 <= k < |u|
      ensures forall j :: 0 <= j < |es| ==> !ms[u[k].0].matches(es[j])
    {
      assert RowEmpty(mm, |es|, rows[k]);
    }
  }

  /** Every matcher that accepts no element is listed. */
  lemma UnpairedComplete(ms: seq<Matcher>, es: seq<Value>, u: seq<(nat, string)>, i: nat)
    requires u == Unpaired(ms, EmptyRows(MatrixOf(ms, es), |es|, |ms|))
    requires i < |ms| && forall j :: 0 <= j < |es| ==> !ms[i].matches(es[j])
    ensures exists k :: 0 <= k < |u| && u[k].0 == i
  {
    var mm := MatrixOf(ms, es);
    var rows := EmptyRows(mm, |es|, |ms|);
    assert RowEmpty(mm, |es|, i);
    assert i in rows;
    var k :| 0 <= k < |rows| && rows[k] == i;
    assert u[k].0 == i;
  }

  /** The values no matcher accepts, as Diagnose lists them in full mode: exactly those, in increasing order. */
  lemma EmptyColumnsExact(ms: seq<Matcher>, es: seq<Value>)
    ensures var cols := EmptyColumns(MatrixOf(ms, es), |es|, |es|);
      Increasing(cols) &&
      forall j :: j in cols <==> 0 <= j < |es| && forall i :: 0 <= i < |ms| ==> !ms[i].matches(es[j])
  {
    var mm := MatrixOf(ms, es);
    var cols := EmptyColumns(mm, |es|, |es|);
    forall j ensures j in cols <==> 0 <= j < |es| && forall i :: 0 <= i < |ms| ==> !ms[i].matches(es[j]) {
      if 0 <= j < |es| {
        assert ColumnEmpty(mm, |es|, j) <==> forall i :: 0 <= i < |ms| ==> !ms[i].matches(es[j]);
      }
    }
  }

  /**
   * The unmatchable lists are exact: the matchers listed (with their
   * descriptions) are exactly those that accept no element, the values listed
   * (only in full mode) exactly those no matcher accepts, both in increasing
   * order, and such a diagnosis is only given when the match fails.
   */
  lemma UnmatchableIsExact(ms: seq<Matcher>, matchAll: bool, x: Value)
    requires Diagnose(ms, matchAll, x).Unmatchable?
    ensures Elements(x).Some? && !UnorderedMatches(ms, matchAll, x)
    ensures var d := Diagnose(ms, matchAll, x); var es := Elements(x).value;
      (forall k :: 0 <= k < |d.matchers| ==>
         d.matchers[k].0 < |ms| && d.matchers[k].1 == ms[d.matchers[k].0].description &&
         forall j :: 0 <= j < |es| ==> !ms[d.matchers[k].0].matches(es[j])) &&
      (forall i :: 0 <= i < |ms| && (forall j :: 0 <= j < |es| ==> !ms[i].matches(es[j])) ==>
         exists k :: 0 <= k < |d.matchers| && d.matchers[k].0 == i) &&
      (forall a, b :: 0 <= a < b < |d.matchers| ==> d.matchers[a].0 < d.matchers[b].0)
    ensures var d := Diagnose(ms, matchAll, x); var es := Elements(x).value;
      (|d.values| > 0 ==> matchAll) && Increasing(d.values) &&
      (matchAll ==> forall j :: j in d.values <==>
         0 <= j < |es| && forall i :: 0 <= i < |ms| ==> !ms[i].matches(es[j]))
  {
    UnmatchableShape(ms, matchAll, x);
    var es := Elements(x).value;
    var u := Unpaired(ms, EmptyRows(MatrixOf(ms, es), |es|, |ms|));
    UnpairedSound(ms, es, u);
    forall i | 0 <= i < |ms| && (forall j :: 0 <= j < |es| ==> !ms[i].matches(es[j]))
      ensures exists k :: 0 <= k < |u| && u[k].0 == i
    {
      UnpairedComplete(ms, es, u, i);
    }
    EmptyColumnsExact(ms, es);
  }

  /** An unmatchable diagnosis comes from DiagnosePairing on the elements, past the size checks. */
  lemma UnmatchableShape(ms: seq<Matcher>, matchAll: bool, x: Value)
    requires Diagnose(ms, matchAll, x).Unmatchable?
    ensures Elements(x).Some?
    ensures var es := Elements(x).value; var mm := MatrixOf(ms, es);
      !(matchAll && |es| != |ms|) && |es| >= |ms| &&
      Diagnose(ms, matchAll, x) ==
        Unmatchable(Unpaired(ms, EmptyRows(mm, |es|, |ms|)), if matchAll then EmptyColumns(mm, |es|, |es|) else [])
  {
  }

  /** Past the size and unmatchable checks, Diagnose reports the flow graph's pairing and Matches its count. */
  lemma ClosestFromSolve(ms: seq<Matcher>, matchAll: bool, x: Value)
    requires Diagnose(ms, matchAll, x).Closest?
    ensures Elements(x).Some?
    ensures var es := Elements(x).value; var mm := MatrixOf(ms, es);
      var p := SolveCorrected(mm, Width(mm));
      |es| >= |ms| &&
      Diagnose(ms, matchAll, x) ==
        Closest(matchAll, CountAssigned(p.matcherToVal), |ms|, AssignedPairs(p.valToMatcher)) &&
      (UnorderedMatches(ms, matchAll, x) <==> CountAssigned(p.matcherToVal) == |ms|)
  {
  }

  /**
   * The pairs of a solved flow graph link each value to a matcher that
   * accepts it, with no matcher twice, and there are as many as matched
   * matchers.
   */
  lemma SolvedPairs(ms: seq<Matcher>, es: seq<Value>)
    requires |es| >= |ms|
    ensures var mm := MatrixOf(ms, es); var p := SolveCorrected(mm, Width(mm));
      var ps := AssignedPairs(p.valToMatcher);
      CountAssigned(p.matcherToVal) == |ps| <= |ms| &&
      (forall k :: 0 <= k < |ps| ==>
         ps[k].0 < |es| && 0 <= ps[k].1 < |ms| && ms[ps[k].1].matches(es[ps[k].0])) &&
      (forall a, b :: 0 <= a < b < |ps| ==> ps[a].1 != ps[b].1)
  {
    var mm := MatrixOf(ms, es);
    var width := Width(mm);
    var p := SolveCorrected(mm, width);
    SolveDecides(mm, width);
    SolveCounts(mm, width);
    var ps := AssignedPairs(p.valToMatcher);
    if |ms| > 0 {
      assert width == |es|;
    }
    forall k | 0 <= k < |ps|
      ensures ps[k].0 < |es| && 0 <= ps[k].1 < |ms| && ms[ps[k].1].matches(es[ps[k].0])
    {
      var j := ps[k].0;
      var i := ps[k].1;
      assert p.matcherToVal[i] == j;
      assert mm[i][j];
    }
    forall a, b | 0 <= a < b < |ps| ensures ps[a].1 != ps[b].1 {
      assert p.matcherToVal[ps[a].1] == ps[a].0;
      assert p.matcherToVal[ps[b].1] == ps[b].0;
    }
  }

  /**
   * The closest match reported is a genuine partial pairing: each pair links
   * a value to a matcher that accepts it, values in increasing order, no
   * matcher twice; the count is the number of pairs; and it reports all
   * matchers paired exactly when the match succeeds.
   */
  lemma ClosestIsPairing(ms: seq<Matcher>, matchAll: bool, x: Value)
    requires Diagnose(ms, matchAll, x).Closest?
    ensures Elements(x).Some?
    ensures var d := Diagnose(ms, matchAll, x); var es := Elements(x).value;
      d.matchAll == matchAll && d.total == |ms| &&
      d.matched == |d.pairs| <= |ms| &&
      (forall k :: 0 <= k < |d.pairs| ==>
         d.pairs[k].0 < |es| && 0 <= d.pairs[k].1 < |ms| && ms[d.pairs[k].1].matches(es[d.pairs[k].0])) &&
      (forall a, b :: 0 <= a < b < |d.pairs| ==> d.pairs[a].0 < d.pairs[b].0 && d.pairs[a].1 != d.pairs[b].1) &&
      (d.matched == d.total <==> UnorderedMatches(ms, matchAll, x))
  {
    ClosestFromSolve(ms, matchAll, x);
    SolvedPairs(ms, Elements(x).value);
  }

  // ---------------------------------------------------------------------------
  // String and the constructors
  // ---------------------------------------------------------------------------

  function Descriptions(ms: seq<Matcher>): (r: seq<string>)
    ensures |r| == |ms| && forall k :: 0 <= k < |ms| ==> r[k] == ms[k].description
  {
    seq(|ms|, k requires 0 <= k < |ms| => ms[k].description)
  }

  /** One more matcher adds its description at the end. */
  lemma DescriptionsAppend(ms: seq<Matcher>, m: Matcher)
    ensures Descriptions(ms + [m]) == Descriptions(ms) + [m.description]
  {
  }

  function UnorderedPrefix(matchAll: bool): string {
    if matchAll then "has elements matching (in any order)" else "contains elements matching"
  }

  /**
   * unorderedMatcher.String: the mode's prefix, then the matchers'
   * descriptions in brackets, separated by "; ".
   */
  function UnorderedString(ms: seq<Matcher>, matchAll: bool): (s: string)
    ensures var pre := UnorderedPrefix(matchAll) + " [";
      |s| > |pre| && s[..|pre|] == pre && s[|s| - 1] == ']'
    ensures |ms| == 0 ==> s == UnorderedPrefix(matchAll) + " []"
    ensures |ms| == 1 ==> s == UnorderedPrefix(matchAll) + " [" + ms[0].description + "]"
  {
    var inner := Join(Descriptions(ms), "; ");
    assert (UnorderedPrefix(matchAll) + " [" + inner + "]")[..|UnorderedPrefix(matchAll) + " ["|] ==
      UnorderedPrefix(matchAll) + " [";
    UnorderedPrefix(matchAll) + " [" + inner + "]"
  }

  /** With one more matcher, its description follows the others after "; ". */
  lemma UnorderedStringAppend(ms: seq<Matcher>, m: Matcher, matchAll: bool)
    requires |ms| > 0
    ensures var s := UnorderedString(ms, matchAll);
      UnorderedString(ms + [m], matchAll) == s[..|s| - 1] + "; " + m.description + "]"
  {
    DescriptionsAppend(ms, m);
    BracketAppend(UnorderedPrefix(matchAll) + " [", Descriptions(ms), m.description);
  }

  /** The two modes never print the same description. */
  lemma ModesDescribedApart(ms: seq<Matcher>, ns: seq<Matcher>)
    ensures UnorderedString(ms, true) != UnorderedString(ns, false)
  {
    var a := UnorderedString(ms, true);
    var b := UnorderedString(ns, false);
    assert a[0] == 'h' && b[0] == 'c';
  }

  /** The matcher a Matcher record describes for an unorderedMatcher. */
  function UnorderedMatcher(ms: seq<Matcher>, matchAll: bool): Matcher {
    Matcher(
      x => UnorderedMatches(ms, matchAll, x),
      UnorderedString(ms, matchAll),
      x => Some(Render(Diagnose(ms, matchAll, x))))
  }

  /** Contains: the matchers may be paired with any subset of the elements. */
  function Contains(ms: seq<Matcher>): (m: Matcher)
    ensures forall x :: m.matches(x) <==>
      Elements(x).Some? && HasPairing(MatrixOf(ms, Elements(x).value), |Elements(x).value|, false)
  {
    forall x ensures UnorderedMatches(ms, false, x) <==>
      Elements(x).Some? && HasPairing(MatrixOf(ms, Elements(x).value), |Elements(x).value|, false)
    {
      UnorderedMatchesIff(ms, false, x);
    }
    UnorderedMatcher(ms, false)
  }

  /** ElementsAreUnordered: the matchers must be paired with all of the elements. */
  function ElementsAreUnordered(ms: seq<Matcher>): (m: Matcher)
    ensures forall x :: m.matches(x) <==>
      Elements(x).Some? && HasPairing(MatrixOf(ms, Elements(x).value), |Elements(x).value|, true)
    ensures forall x :: m.matches(x) ==> Contains(ms).matches(x)
  {
    forall x ensures UnorderedMatches(ms, true, x) <==>
      Elements(x).Some? && HasPairing(MatrixOf(ms, Elements(x).value), |Elements(x).value|, true)
    {
      UnorderedMatchesIff(ms, true, x);
      FullMatchImpliesContains(ms, x);
    }
    UnorderedMatcher(ms, true)
  }
}

/**
 * The bipartite graph behind the unordered matchers: N matchers on one side,
 * M values on the other, and an N x M compatibility matrix.  This module holds
 * the vocabulary shared by the search (KuhnSearch), the graph object
 * (FlowGraph) and the adapters: what an assignment is, when two assignment
 * slices are inverse to each other, and the counting facts (pigeonhole and a
 * Hall-style obstruction) that make the search complete.
 */
module Bipartite {

  /** matchMatrix[i][j] is true iff matcher i accepts value j. */
  type Matrix = seq<seq<bool>>

  /** The marker the Go code stores for "not assigned". */
  const Free: int := -1

  /** Every row of the matrix has `width` columns. */
  predicate Rectangular(mm: Matrix, width: nat) {
    forall i :: 0 <= i < |mm| ==> |mm[i]| == width
  }

  /** The number of columns the Go code reads off the matrix: the length of row 0, or 0 without rows. */
  function Width(mm: Matrix): nat {
    if |mm| == 0 then 0 else |mm[0]|
  }

  /** Matcher i accepts no value at all. */
  predicate RowEmpty(mm: Matrix, width: nat, i: nat)
    requires Rectangular(mm, width) && i < |mm|
  {
    forall j :: 0 <= j < width ==> !mm[i][j]
  }

  /** No matcher accepts value j. */
  predicate ColumnEmpty(mm: Matrix, width: nat, j: nat)
    requires Rectangular(mm, width) && j < width
  {
    forall i :: 0 <= i < |mm| ==> !mm[i][j]
  }

  /**
   * f sends every matcher to a value it accepts, and no two matchers to the
   * same value: an injective assignment of all matchers.
   */
  predicate IsAssignment(mm: Matrix, width: nat, f: seq<int>)
    requires Rectangular(mm, width)
  {
    |f| == |mm| &&
    (forall i :: 0 <= i < |f| ==> 0 <= f[i] < width && mm[i][f[i]]) &&
    (forall i, i' :: 0 <= i < i' < |f| ==> f[i] != f[i'])
  }

  /** Every value is the image of some matcher. */
  predicate Covers(f: seq<int>, width: nat) {
    forall j :: 0 <= j < width ==> j in f
  }

  /**
   * The property the unordered matchers decide: an injective assignment of every
   * matcher to a value it accepts exists, and in full mode it also covers every value.
   */
  ghost predicate HasPairing(mm: Matrix, width: nat, full: bool)
    requires Rectangular(mm, width)
  {
    exists f :: IsAssignment(mm, width, f) && (full ==> Covers(f, width))
  }

  /** The two assignment slices of the Go graph: matcherToVal and valToMatcher. */
  datatype Pairing = Pairing(matcherToVal: seq<int>, valToMatcher: seq<int>)

  /** Both slices have the graph's dimensions and hold indices into the other side or Free. */
  predicate Shaped(mm: Matrix, width: nat, p: Pairing) {
    Rectangular(mm, width) &&
    |p.matcherToVal| == |mm| && |p.valToMatcher| == width &&
    (forall i :: 0 <= i < |mm| ==> Free <= p.matcherToVal[i] < width) &&
    (forall j :: 0 <= j < width ==> Free <= p.valToMatcher[j] < |mm|)
  }

  /** matcherToVal[i] == j iff valToMatcher[j] == i, for every assigned index on either side. */
  predicate Inverse(p: Pairing) {
    (forall i :: 0 <= i < |p.matcherToVal| && p.matcherToVal[i] != Free ==>
       0 <= p.matcherToVal[i] < |p.valToMatcher| && p.valToMatcher[p.matcherToVal[i]] == i) &&
    (forall j :: 0 <= j < |p.valToMatcher| && p.valToMatcher[j] != Free ==>
       0 <= p.valToMatcher[j] < |p.matcherToVal| && p.matcherToVal[p.valToMatcher[j]] == j)
  }

  /** Every assigned matcher accepts the value it is assigned to. */
  predicate Compatible(mm: Matrix, width: nat, p: Pairing)
    requires Shaped(mm, width, p)
  {
    forall i :: 0 <= i < |mm| && p.matcherToVal[i] != Free ==> mm[i][p.matcherToVal[i]]
  }

  /** The pairing in which nothing is assigned, as newMatcherFlowGraph builds it. */
  function Initial(n: nat, width: nat): (p: Pairing)
    ensures |p.matcherToVal| == n && |p.valToMatcher| == width
    ensures forall i :: 0 <= i < n ==> p.matcherToVal[i] == Free
    ensures forall j :: 0 <= j < width ==> p.valToMatcher[j] == Free
  {
    Pairing(seq(n, _ => Free), seq(width, _ => Free))
  }

  /** The number of entries of a slice that are not Free. */
  function CountAssigned(s: seq<int>): nat {
    if s == [] then 0 else CountAssigned(s[..|s| - 1]) + (if s[|s| - 1] != Free then 1 else 0)
  }

  /** Every matcher (or value) of the slice is assigned. */
  predicate AllAssigned(s: seq<int>) {
    forall i :: 0 <= i < |s| ==> s[i] != Free
  }

  // ---------------------------------------------------------------------------
  // Counting
  // ---------------------------------------------------------------------------

  /** The indices of a slice whose entry is not Free. */
  function AssignedSet(s: seq<int>): set<int> {
    set i | 0 <= i < |s| && s[i] != Free
  }

  /** The indices 0 .. n - 1. */
  function Range(n: nat): (r: set<int>)
    ensures forall i :: i in r <==> 0 <= i < n
  {
    if n == 0 then {} else Range(n - 1) + {n - 1}
  }

  function Image(a: set<int>, f: seq<int>): set<int>
    requires forall x :: x in a ==> 0 <= x < |f|
  {
    set x | x in a :: f[x]
  }

  lemma {:induction false} CountIsCardinality(s: seq<int>)
    ensures CountAssigned(s) == |AssignedSet(s)|
  {
    if s != [] {
      var t := s[..|s| - 1];
      CountIsCardinality(t);
      if s[|s| - 1] != Free {
        assert AssignedSet(s) == AssignedSet(t) + {|s| - 1};
      } else {
        assert AssignedSet(s) == AssignedSet(t);
      }
    }
  }

  /** The count reaches the length exactly when every entry is assigned. */
  lemma {:induction false} CountAllAssigned(s: seq<int>)
    ensures CountAssigned(s) <= |s|
    ensures CountAssigned(s) == |s| <==> AllAssigned(s)
  {
    if s != [] {
      var t := s[..|s| - 1];
      CountAllAssigned(t);
      if AllAssigned(s) {
        assert AllAssigned(t);
      }
      if CountAssigned(s) == |s| {
        assert CountAssigned(t) == |t| && s[|s| - 1] != Free;
        assert forall i :: 0 <= i < |s| ==> i == |s| - 1 || s[i] == t[i];
      }
    }
  }

  /** A slice with nothing assigned counts zero. */
  lemma {:induction false} CountNoneAssigned(s: seq<int>)
    requires forall i :: 0 <= i < |s| ==> s[i] == Free
    ensures CountAssigned(s) == 0
  {
    if s != [] {
      CountNoneAssigned(s[..|s| - 1]);
    }
  }

  lemma {:induction false} RangeCardinality(n: nat)
    ensures |Range(n)| == n
  {
    if n > 0 {
      RangeCardinality(n - 1);
    }
  }

  /** All elements of the set lie in 0 .. n - 1. */
  predicate Below(a: set<int>, n: nat) {
    forall x :: x in a ==> 0 <= x < n
  }

  /** A set of indices below 0 is empty. */
  lemma EmptyBelowZero(a: set<int>)
    requires Below(a, 0)
    ensures a == {}
  {
    forall x ensures x !in a {}
    assert a == {};
  }

  lemma {:induction false} SubsetCardinality(a: set<int>, b: set<int>, n: nat)
    requires a <= b && Below(b, n)
    ensures |a| <= |b|
  {
    if n == 0 {
      EmptyBelowZero(b);
      assert a == {};
    } else {
      var top := n - 1;
      SubsetCardinality(a - {top}, b - {top}, n - 1);
      if top in a {
        assert |a - {top}| == |a| - 1 && |b - {top}| == |b| - 1;
      } else if top in b {
        assert a - {top} == a && |b - {top}| == |b| - 1;
      } else {
        assert a - {top} == a && b - {top} == b;
      }
    }
  }

  lemma {:induction false} SubsetSameCardinality(a: set<int>, b: set<int>, n: nat)
    requires a <= b && Below(b, n) && |a| == |b|
    ensures a == b
  {
    if n == 0 {
      EmptyBelowZero(b);
      assert a == {};
    } else {
      var top := n - 1;
      var a', b' := a - {top}, b - {top};
      if top in b && top !in a {
        SubsetCardinality(a, b', n);
      } else {
        if top in b {
          assert |a'| == |a| - 1 && |b'| == |b| - 1;
        } else {
          assert a' == a && b' == b;
        }
        SubsetSameCardinality(a', b', n - 1);
        forall x ensures x in a <==> x in b {
          if x != top {
            assert x in a <==> x in a';
            assert x in b <==> x in b';
          }
        }
        assert a == b;
      }
    }
  }

  /** An injective map keeps the size of every set it is applied to. */
  lemma {:induction false} InjectiveImageCardinality(a: set<int>, f: seq<int>, n: nat)
    requires Below(a, n) && forall x :: x in a ==> 0 <= x < |f|
    requires forall x, y :: x in a && y in a && x != y ==> f[x] != f[y]
    ensures |Image(a, f)| == |a|
  {
    if n == 0 {
      EmptyBelowZero(a);
      assert Image(a, f) == {};
    } else {
      var top := n - 1;
      var rest := a - {top};
      InjectiveImageCardinality(rest, f, n - 1);
      if top in a {
        assert Image(a, f) == Image(rest, f) + {f[top]};
        assert f[top] !in Image(rest, f);
        assert |a| == |rest| + 1;
      } else {
        assert rest == a;
      }
    }
  }

  /** Pigeonhole: an injective assignment of N matchers needs at least N values. */
  lemma AssignmentNeedsEnoughValues(mm: Matrix, width: nat, f: seq<int>)
    requires Rectangular(mm, width) && IsAssignment(mm, width, f)
    ensures |mm| <= width
  {
    var dom := Range(|f|);
    InjectiveImageCardinality(dom, f, |f|);
    RangeCardinality(|f|);
    RangeCardinality(width);
    SubsetCardinality(Image(dom, f), Range(width), width);
  }

  /** The values an injective assignment uses, as a set. */
  lemma UsedValues(mm: Matrix, width: nat, f: seq<int>)
    requires Rectangular(mm, width) && IsAssignment(mm, width, f)
    ensures Image(Range(|f|), f) <= Range(width)
    ensures |Image(Range(|f|), f)| == |mm|
    ensures forall j :: j in Image(Range(|f|), f) <==> j in f
  {
    var dom := Range(|f|);
    InjectiveImageCardinality(dom, f, |f|);
    RangeCardinality(|f|);
    forall j | j in f ensures j in Image(dom, f) {
      var i :| 0 <= i < |f| && f[i] == j;
      assert i in dom;
    }
  }

  lemma CoversImpliesSquare(mm: Matrix, width: nat, f: seq<int>)
    requires Rectangular(mm, width) && IsAssignment(mm, width, f) && Covers(f, width)
    ensures |mm| == width
  {
    var used := Image(Range(|f|), f);
    UsedValues(mm, width, f);
    RangeCardinality(width);
    assert Range(width) <= used by {
      forall j | j in Range(width) ensures j in used {
        assert j in f;
      }
    }
    SubsetCardinality(Range(width), used, width);
    SubsetCardinality(used, Range(width), width);
  }

  /** A subset of 0 .. width - 1 with width elements is all of it. */
  lemma FullSubsetCovers(used: set<int>, f: seq<int>, width: nat)
    requires used <= Range(width) && |used| == width
    requires forall j :: j in used <==> j in f
    ensures Covers(f, width)
  {
    RangeCardinality(width);
    SubsetSameCardinality(used, Range(width), width);
    forall j | 0 <= j < width ensures j in f {
      assert j in Range(width);
      assert j in used;
    }
  }

  lemma SquareImpliesCovers(mm: Matrix, width: nat, f: seq<int>)
    requires Rectangular(mm, width) && IsAssignment(mm, width, f) && |mm| == width
    ensures Covers(f, width)
  {
    UsedValues(mm, width, f);
    FullSubsetCovers(Image(Range(|f|), f), f, width);
  }

  /** An injective assignment covers every value exactly when there are as many values as matchers. */
  lemma CoversIffSquare(mm: Matrix, width: nat, f: seq<int>)
    requires Rectangular(mm, width) && IsAssignment(mm, width, f)
    ensures Covers(f, width) <==> |mm| == width
  {
    if Covers(f, width) {
      CoversImpliesSquare(mm, width, f);
    }
    if |mm| == width {
      SquareImpliesCovers(mm, width, f);
    }
  }

  /** In full mode a pairing exists iff an injective one exists and the matrix is square. */
  lemma FullPairingIffSquare(mm: Matrix, width: nat)
    requires Rectangular(mm, width)
    ensures HasPairing(mm, width, true) <==> HasPairing(mm, width, false) && |mm| == width
  {
    if HasPairing(mm, width, false) && |mm| == width {
      var f :| IsAssignment(mm, width, f);
      CoversIffSquare(mm, width, f);
    }
    if HasPairing(mm, width, true) {
      var f :| IsAssignment(mm, width, f) && Covers(f, width);
      CoversIffSquare(mm, width, f);
    }
  }

  /** Under inverse slices, as many values as matchers are assigned. */
  lemma {:induction false} InverseCountsAgree(mm: Matrix, width: nat, p: Pairing)
    requires Shaped(mm, width, p) && Inverse(p)
    ensures CountAssigned(p.matcherToVal) == CountAssigned(p.valToMatcher)
  {
    var ms := AssignedSet(p.matcherToVal);
    var vs := AssignedSet(p.valToMatcher);
    InjectiveImageCardinality(ms, p.matcherToVal, |mm|);
    assert Image(ms, p.matcherToVal) == vs by {
      forall j | j in vs ensures j in Image(ms, p.matcherToVal) {
        assert p.valToMatcher[j] in ms;
      }
    }
    CountIsCardinality(p.matcherToVal);
    CountIsCardinality(p.valToMatcher);
  }

  /** A fully assigned, compatible, inverse pairing is an injective assignment of every matcher. */
  lemma CompleteIsAssignment(mm: Matrix, width: nat, p: Pairing)
    requires Shaped(mm, width, p) && Inverse(p) && Compatible(mm, width, p)
    requires AllAssigned(p.matcherToVal)
    ensures IsAssignment(mm, width, p.matcherToVal)
  {
    var f := p.matcherToVal;
    forall i, i' | 0 <= i < i' < |f| ensures f[i] != f[i'] {
      assert p.valToMatcher[f[i]] == i && p.valToMatcher[f[i']] == i';
    }
  }

  // ---------------------------------------------------------------------------
  // The obstruction a failed search leaves behind
  // ---------------------------------------------------------------------------

  /** Every value matcher i accepts has been visited. */
  predicate Closed(mm: Matrix, width: nat, visited: seq<bool>, i: nat)
    requires Rectangular(mm, width) && i < |mm| && |visited| == width
  {
    forall j :: 0 <= j < width && mm[i][j] ==> visited[j]
  }

  /**
   * Hall's condition fails: if an unassigned matcher k and the matchers of all
   * visited values accept only visited values, and every visited value is
   * assigned, then these |V| + 1 matchers compete for |V| values, so no injective
   * assignment of all matchers exists.
   */
  lemma {:induction false} ClosedSetBlocksAssignment(mm: Matrix, width: nat, p: Pairing, k: nat, visited: seq<bool>)
    requires Shaped(mm, width, p) && Inverse(p)
    requires k < |mm| && p.matcherToVal[k] == Free
    requires |visited| == width
    requires forall j :: 0 <= j < width && visited[j] ==> p.valToMatcher[j] != Free
    requires Closed(mm, width, visited, k)
    requires forall j :: 0 <= j < width && visited[j] ==> Closed(mm, width, visited, p.valToMatcher[j])
    ensures !HasPairing(mm, width, false)
  {
    if f :| IsAssignment(mm, width, f) {
      var vs := set j | 0 <= j < width && visited[j];
      var s := Image(vs, p.valToMatcher) + {k};
      CompetitorCount(mm, width, p, k, visited, vs);
      CompetitorsInside(mm, width, p, k, visited, vs, f);
      InjectiveImageCardinality(s, f, |mm|);
      SubsetCardinality(Image(s, f), vs, width);
      assert false;
    }
  }

  /** The holders of the visited values, and k besides, are |vs| + 1 distinct matchers. */
  lemma CompetitorCount(mm: Matrix, width: nat, p: Pairing, k: nat, visited: seq<bool>, vs: set<int>)
    requires Shaped(mm, width, p) && Inverse(p)
    requires k < |mm| && p.matcherToVal[k] == Free && |visited| == width
    requires forall j :: j in vs <==> 0 <= j < width && visited[j]
    requires forall j :: 0 <= j < width && visited[j] ==> p.valToMatcher[j] != Free
    ensures forall x :: x in vs ==> 0 <= x < |p.valToMatcher|
    ensures Below(Image(vs, p.valToMatcher) + {k}, |mm|)
    ensures |Image(vs, p.valToMatcher) + {k}| == |vs| + 1
  {
    var owners := Image(vs, p.valToMatcher);
    InjectiveImageCardinality(vs, p.valToMatcher, width);
    assert k !in owners;
  }

  /** Every one of those matchers accepts only visited values, so any assignment sends them into vs. */
  lemma CompetitorsInside(mm: Matrix, width: nat, p: Pairing, k: nat, visited: seq<bool>, vs: set<int>, f: seq<int>)
    requires Shaped(mm, width, p) && k < |mm| && |visited| == width
    requires forall j :: j in vs <==> 0 <= j < width && visited[j]
    requires forall j :: 0 <= j < width && visited[j] ==> p.valToMatcher[j] != Free
    requires Closed(mm, width, visited, k)
    requires forall j :: 0 <= j < width && visited[j] ==> Closed(mm, width, visited, p.valToMatcher[j])
    requires IsAssignment(mm, width, f)
    ensures forall x :: x in Image(vs, p.valToMatcher) + {k} ==> 0 <= x < |f| && f[x] in vs
  {
    forall x | x in Image(vs, p.valToMatcher) + {k} ensures 0 <= x < |f| && f[x] in vs {
      if x != k {
        var j :| j in vs && p.valToMatcher[j] == x;
        assert Closed(mm, width, visited, x);
      }
    }
  }
}

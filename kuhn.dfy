/**
 * The augmenting-path search of matcherFlowGraph.tryAssign and Solve
 * (container_matchers.go:601-659), written as pure functions on the two
 * assignment slices and the `visited` slice.  The class in FlowGraph runs the
 * same steps in place and is proved equal to these functions.
 *
 * The length of `visited` is a parameter: the Go code allocates it with one
 * entry per matcher (container_matchers.go:617) but indexes it by value
 * (container_matchers.go:648).  An index past its end is the Go runtime panic,
 * modelled as the outcome OutOfRange.
 */
module KuhnSearch {
  import opened Wrappers
  import opened Bipartite

  /** How one tryAssign call ends: it returns true, returns false, or panics on visited[index]. */
  datatype Outcome = Assigned | Unassigned | OutOfRange(index: nat)

  /** The outcome together with the assignment slices and the visited slice afterwards. */
  datatype Attempt = Attempt(outcome: Outcome, pairing: Pairing, visited: seq<bool>)

  /** The number of values not yet visited. */
  function Unvisited(v: seq<bool>): nat {
    if v == [] then 0 else Unvisited(v[..|v| - 1]) + (if v[|v| - 1] then 0 else 1)
  }

  /** Marking an unvisited value removes exactly one from the count. */
  lemma {:induction false} UnvisitedMark(v: seq<bool>, j: nat)
    requires j < |v| && !v[j]
    ensures Unvisited(v[j := true]) == Unvisited(v) - 1
  {
    var last := |v| - 1;
    if j == last {
      assert v[j := true][..last] == v[..last];
    } else {
      assert v[j := true][..last] == v[..last][j := true];
      UnvisitedMark(v[..last], j);
    }
  }

  /** A unmarked visited slice, as `make([]bool, n)` gives it. */
  function Falses(n: nat): (v: seq<bool>)
    ensures |v| == n && forall j :: 0 <= j < n ==> !v[j]
  {
    seq(n, _ => false)
  }

  /** w keeps every mark of v. */
  predicate Grows(v: seq<bool>, w: seq<bool>) {
    |w| == |v| && forall j :: 0 <= j < |v| && v[j] ==> w[j]
  }

  /**
   * The first pass of tryAssign: the first value at or after j that the matcher
   * accepts and that no matcher holds yet.
   */
  function FirstFree(row: seq<bool>, valToMatcher: seq<int>, j: nat): (r: Option<nat>)
    requires |row| == |valToMatcher| && j <= |row|
    decreases |row| - j
    ensures r.Some? ==> j <= r.value < |row| && row[r.value] && valToMatcher[r.value] == Free
    ensures r.Some? ==> forall k :: j <= k < r.value ==> !(row[k] && valToMatcher[k] == Free)
    ensures r.None? <==> forall k :: j <= k < |row| ==> !(row[k] && valToMatcher[k] == Free)
  {
    if j == |row| then None
    else if row[j] && valToMatcher[j] == Free then Some(j)
    else FirstFree(row, valToMatcher, j + 1)
  }

  /**
   * tryAssign(m, visited): take the first free accepted value if there is one,
   * otherwise walk the accepted values again (Rest).
   */
  function Try(mm: Matrix, width: nat, m: nat, p: Pairing, visited: seq<bool>): (r: Attempt)
    requires Shaped(mm, width, p) && m < |mm|
    decreases Unvisited(visited), 1
    ensures Shaped(mm, width, r.pairing) && Grows(visited, r.visited)
    ensures Unvisited(r.visited) <= Unvisited(visited)
    ensures r.outcome.Unassigned? ==> r.pairing == p
    ensures |visited| >= width ==> !r.outcome.OutOfRange?
  {
    match FirstFree(mm[m], p.valToMatcher, 0)
    case Some(j) =>
      Attempt(Assigned, Pairing(p.matcherToVal[m := j], p.valToMatcher[j := m]), visited)
    case None =>
      Rest(mm, width, m, 0, p, visited)
  }

  /**
   * The second pass of tryAssign from value j on: every accepted value is held
   * by some matcher; for each accepted value not yet visited, mark it and try to
   * move its holder elsewhere; on success take the value over.
   */
  function Rest(mm: Matrix, width: nat, m: nat, j: nat, p: Pairing, visited: seq<bool>): (r: Attempt)
    requires Shaped(mm, width, p) && m < |mm| && j <= width
    requires forall k :: j <= k < width && mm[m][k] ==> p.valToMatcher[k] != Free
    decreases Unvisited(visited), 0, width - j
    ensures Shaped(mm, width, r.pairing) && Grows(visited, r.visited)
    ensures Unvisited(r.visited) <= Unvisited(visited)
    ensures r.outcome.Unassigned? ==> r.pairing == p
    ensures |visited| >= width ==> !r.outcome.OutOfRange?
  {
    if j == width then Attempt(Unassigned, p, visited)
    else if !mm[m][j] then Rest(mm, width, m, j + 1, p, visited)
    else if j >= |visited| then Attempt(OutOfRange(j), p, visited)
    else if visited[j] then Rest(mm, width, m, j + 1, p, visited)
    else
      var marked := visited[j := true];
      UnvisitedMark(visited, j);
      var r := Try(mm, width, p.valToMatcher[j], p, marked);
      match r.outcome
      case Assigned =>
        Attempt(Assigned, Pairing(r.pairing.matcherToVal[m := j], r.pairing.valToMatcher[j := m]), r.visited)
      case OutOfRange(_) => r
      case Unassigned => Rest(mm, width, m, j + 1, r.pairing, r.visited)
  }

  /** The second pass passes over a value the matcher rejects or that is already visited. */
  lemma RestSkip(mm: Matrix, width: nat, m: nat, j: nat, p: Pairing, visited: seq<bool>)
    requires Shaped(mm, width, p) && m < |mm| && j < width
    requires forall k :: j <= k < width && mm[m][k] ==> p.valToMatcher[k] != Free
    requires !mm[m][j] || (j < |visited| && visited[j])
    ensures Rest(mm, width, m, j, p, visited) == Rest(mm, width, m, j + 1, p, visited)
  {
  }

  /**
   * The second pass at an accepted, unvisited value: mark it, try to move its
   * holder, and take the value over when that succeeds.
   */
  lemma RestTakeOver(mm: Matrix, width: nat, m: nat, j: nat, p: Pairing, visited: seq<bool>)
    requires Shaped(mm, width, p) && m < |mm| && j < width
    requires forall k :: j <= k < width && mm[m][k] ==> p.valToMatcher[k] != Free
    requires mm[m][j] && j < |visited| && !visited[j]
    ensures var r := Try(mm, width, p.valToMatcher[j], p, visited[j := true]);
      (r.outcome.Assigned? ==>
         Rest(mm, width, m, j, p, visited) ==
         Attempt(Assigned, Pairing(r.pairing.matcherToVal[m := j], r.pairing.valToMatcher[j := m]), r.visited)) &&
      (r.outcome.Unassigned? ==>
         r.pairing == p && Rest(mm, width, m, j, p, visited) == Rest(mm, width, m, j + 1, p, r.visited))
  {
  }

  /** How Solve ends: with the final slices, or with the index of the panicking visited read. */
  datatype Solution = Solved(pairing: Pairing) | Panicked(index: nat)

  /** The loop of Solve from matcher k on, each search with a unmarked visited slice of length vlen. */
  function SolveFrom(mm: Matrix, width: nat, vlen: nat, k: nat, p: Pairing): (s: Solution)
    requires Shaped(mm, width, p) && k <= |mm|
    decreases |mm| - k
    ensures s.Solved? ==> Shaped(mm, width, s.pairing)
    ensures vlen >= width ==> s.Solved?
  {
    if k == |mm| then Solved(p)
    else
      var r := Try(mm, width, k, p, Falses(vlen));
      if r.outcome.OutOfRange? then Panicked(r.outcome.index)
      else SolveFrom(mm, width, vlen, k + 1, r.pairing)
  }

  /** Solve on a unmarked graph: nothing to do without matchers or values. */
  function SolveWith(mm: Matrix, width: nat, vlen: nat): (s: Solution)
    requires Rectangular(mm, width)
    ensures s.Solved? ==> Shaped(mm, width, s.pairing)
    ensures vlen >= width ==> s.Solved?
  {
    if |mm| == 0 || width == 0 then Solved(Initial(|mm|, width))
    else SolveFrom(mm, width, vlen, 0, Initial(|mm|, width))
  }

  /** Solve as written: `visited` has one entry per matcher. */
  function SolveAsWritten(mm: Matrix, width: nat): (s: Solution)
    requires Rectangular(mm, width)
    ensures |mm| >= width ==> s.Solved?
  {
    SolveWith(mm, width, |mm|)
  }

  /** Solve with `visited` sized by the number of values, as the search needs; it never panics. */
  function SolveCorrected(mm: Matrix, width: nat): (p: Pairing)
    requires Rectangular(mm, width)
    ensures Shaped(mm, width, p)
  {
    SolveWith(mm, width, width).pairing
  }

  // ---------------------------------------------------------------------------
  // Correctness of one search
  // ---------------------------------------------------------------------------

  /** valToMatcher with the entry of `prev` (when it is a value index) cleared. */
  function Release(valToMatcher: seq<int>, prev: int): seq<int> {
    if 0 <= prev < |valToMatcher| then valToMatcher[prev := Free] else valToMatcher
  }

  /**
   * What holds whenever tryAssign(m) is entered: the slices are consistent, m is
   * free or holds a visited value, and every visited value is held.
   */
  predicate SearchReady(mm: Matrix, width: nat, m: nat, p: Pairing, visited: seq<bool>) {
    Shaped(mm, width, p) && Inverse(p) && Compatible(mm, width, p) &&
    |visited| == width && m < |mm| &&
    (p.matcherToVal[m] == Free || visited[p.matcherToVal[m]]) &&
    (forall j :: 0 <= j < width && visited[j] ==> p.valToMatcher[j] != Free)
  }

  /** m holds an accepted value that was not visited, and that value names m. */
  predicate Moved(mm: Matrix, width: nat, m: nat, visited: seq<bool>, q: Pairing)
    requires Shaped(mm, width, q) && m < |mm| && |visited| == width
  {
    var next := q.matcherToVal[m];
    next != Free && mm[m][next] && !visited[next] && q.valToMatcher[next] == m
  }

  /** Every matcher held in p is still held in q. */
  predicate KeepsAssigned(p: Pairing, q: Pairing)
    requires |q.matcherToVal| == |p.matcherToVal|
  {
    forall i :: 0 <= i < |p.matcherToVal| && p.matcherToVal[i] != Free ==> q.matcherToVal[i] != Free
  }

  /**
   * Visited values keep their holder, and matchers other than m that are free
   * or hold a visited value keep their value.
   */
  predicate Untouched(mm: Matrix, width: nat, m: nat, p: Pairing, visited: seq<bool>, q: Pairing)
    requires Shaped(mm, width, p) && Shaped(mm, width, q) && |visited| == width
  {
    (forall j :: 0 <= j < width && visited[j] ==> q.valToMatcher[j] == p.valToMatcher[j]) &&
    (forall i :: 0 <= i < |mm| && i != m && (p.matcherToVal[i] == Free || visited[p.matcherToVal[i]]) ==>
       q.matcherToVal[i] == p.matcherToVal[i])
  }

  /**
   * A successful search from p: m now holds a new, accepted, previously unvisited
   * value; the slices are inverse except that the value m held before still
   * names m (the caller overwrites it); every held matcher is still held; and
   * nothing visited, nor any other free matcher or holder of a visited value, changed.
   */
  predicate Augmented(mm: Matrix, width: nat, m: nat, p: Pairing, visited: seq<bool>, q: Pairing)
    requires SearchReady(mm, width, m, p, visited) && Shaped(mm, width, q)
  {
    Moved(mm, width, m, visited, q) &&
    Inverse(Pairing(q.matcherToVal, Release(q.valToMatcher, p.matcherToVal[m]))) &&
    Compatible(mm, width, q) &&
    KeepsAssigned(p, q) &&
    Untouched(mm, width, m, p, visited, q)
  }

  /**
   * A failed search: every value m accepts is visited, and every value the
   * search marked is held by a matcher whose accepted values are all visited.
   */
  predicate Exhausted(mm: Matrix, width: nat, m: nat, p: Pairing, visited: seq<bool>, w: seq<bool>)
    requires SearchReady(mm, width, m, p, visited) && Grows(visited, w)
  {
    Closed(mm, width, w, m) &&
    forall j :: 0 <= j < width && w[j] && !visited[j] ==>
      p.valToMatcher[j] != Free && Closed(mm, width, w, p.valToMatcher[j])
  }

  /** How a search from m may end: an augmentation, or a failure that leaves a closed set of visited values. */
  predicate SearchCorrect(mm: Matrix, width: nat, m: nat, p: Pairing, visited: seq<bool>, r: Attempt)
    requires SearchReady(mm, width, m, p, visited)
  {
    Shaped(mm, width, r.pairing) && Grows(visited, r.visited) &&
    ((r.outcome.Assigned? && Augmented(mm, width, m, p, visited, r.pairing)) ||
     (r.outcome.Unassigned? && Exhausted(mm, width, m, p, visited, r.visited)))
  }

  /** The first pass succeeds: taking a free accepted value is an augmentation. */
  lemma TakeFree(mm: Matrix, width: nat, m: nat, j: nat, p: Pairing, visited: seq<bool>)
    requires SearchReady(mm, width, m, p, visited)
    requires j < width && mm[m][j] && p.valToMatcher[j] == Free
    ensures Shaped(mm, width, Pairing(p.matcherToVal[m := j], p.valToMatcher[j := m]))
    ensures Augmented(mm, width, m, p, visited, Pairing(p.matcherToVal[m := j], p.valToMatcher[j := m]))
  {
    var q := Pairing(p.matcherToVal[m := j], p.valToMatcher[j := m]);
    assert p.matcherToVal[m] != j;
    TakeFreeInverse(p, m, j);
    assert Moved(mm, width, m, visited, q);
    assert Compatible(mm, width, q);
    assert Untouched(mm, width, m, p, visited, q);
  }

  /** Taking a free value keeps the slices inverse once m's previous value is released. */
  lemma TakeFreeInverse(p: Pairing, m: nat, j: nat)
    requires Inverse(p) && m < |p.matcherToVal| && j < |p.valToMatcher|
    requires p.valToMatcher[j] == Free && p.matcherToVal[m] != j
    ensures Inverse(Pairing(p.matcherToVal[m := j], Release(p.valToMatcher[j := m], p.matcherToVal[m])))
  {
    var released := Pairing(p.matcherToVal[m := j], Release(p.valToMatcher[j := m], p.matcherToVal[m]));
    forall i | 0 <= i < |released.matcherToVal| && released.matcherToVal[i] != Free
      ensures 0 <= released.matcherToVal[i] < |released.valToMatcher| && released.valToMatcher[released.matcherToVal[i]] == i
    {
      if i != m {
        assert p.valToMatcher[p.matcherToVal[i]] == i;
      }
    }
    forall v | 0 <= v < |released.valToMatcher| && released.valToMatcher[v] != Free
      ensures 0 <= released.valToMatcher[v] < |released.matcherToVal| && released.matcherToVal[released.valToMatcher[v]] == v
    {
      if v != j {
        assert p.matcherToVal[p.valToMatcher[v]] == v;
      }
    }
  }

  /**
   * The slices stay inverse when m takes over value j from its holder, which has
   * already moved on, and m's previous value (if any) is released.
   */
  lemma TakeOverInverse(q: Pairing, m: nat, j: nat, prev: int)
    requires m < |q.matcherToVal| && j < |q.valToMatcher|
    requires Inverse(Pairing(q.matcherToVal, Release(q.valToMatcher, j)))
    requires q.matcherToVal[m] == prev && prev != j
    requires prev == Free || (0 <= prev < |q.valToMatcher| && q.valToMatcher[prev] == m)
    ensures Inverse(Pairing(q.matcherToVal[m := j], Release(q.valToMatcher[j := m], prev)))
  {
    var inner := Release(q.valToMatcher, j);
    var mtv := q.matcherToVal[m := j];
    var vtm := Release(q.valToMatcher[j := m], prev);
    forall i | 0 <= i < |mtv| && mtv[i] != Free
      ensures 0 <= mtv[i] < |vtm| && vtm[mtv[i]] == i
    {
      if i != m {
        var v := q.matcherToVal[i];
        assert inner[v] == i;
      }
    }
    forall v | 0 <= v < |vtm| && vtm[v] != Free
      ensures 0 <= vtm[v] < |mtv| && mtv[vtm[v]] == v
    {
      if v != j {
        var i := inner[v];
        assert q.matcherToVal[i] == v;
      }
    }
  }

  /**
   * The second pass succeeds at value j: the holder of j moved to another value,
   * so m takes j over; the result is an augmentation from m's point of view.
   */
  lemma AugmentStep(mm: Matrix, width: nat, m: nat, j: nat, p: Pairing, visited: seq<bool>, q: Pairing)
    requires SearchReady(mm, width, m, p, visited)
    requires j < width && mm[m][j] && !visited[j] && p.valToMatcher[j] != Free
    requires SearchReady(mm, width, p.valToMatcher[j], p, visited[j := true])
    requires Shaped(mm, width, q) && Augmented(mm, width, p.valToMatcher[j], p, visited[j := true], q)
    ensures Shaped(mm, width, Pairing(q.matcherToVal[m := j], q.valToMatcher[j := m]))
    ensures Augmented(mm, width, m, p, visited, Pairing(q.matcherToVal[m := j], q.valToMatcher[j := m]))
  {
    var holder := p.valToMatcher[j];
    var marked := visited[j := true];
    var prev := p.matcherToVal[m];
    var res := Pairing(q.matcherToVal[m := j], q.valToMatcher[j := m]);
    assert p.matcherToVal[holder] == j;
    assert Untouched(mm, width, holder, p, marked, q);
    assert q.matcherToVal[m] == prev;
    assert prev != Free ==> q.valToMatcher[prev] == m by {
      if prev != Free {
        assert marked[prev];
      }
    }
    TakeOverInverse(q, m, j, prev);
    assert Untouched(mm, width, m, p, visited, res) by {
      forall i | 0 <= i < |mm| && i != m && (p.matcherToVal[i] == Free || visited[p.matcherToVal[i]])
        ensures res.matcherToVal[i] == p.matcherToVal[i]
      {
        assert p.matcherToVal[i] == Free || marked[p.matcherToVal[i]];
      }
      forall k | 0 <= k < width && visited[k]
        ensures res.valToMatcher[k] == p.valToMatcher[k]
      {
        assert marked[k];
      }
    }
    assert KeepsAssigned(p, q);
  }

  /** One tryAssign call either augments or leaves a closed set of visited values behind. */
  lemma {:induction false} TryCorrect(mm: Matrix, width: nat, m: nat, p: Pairing, visited: seq<bool>)
    requires SearchReady(mm, width, m, p, visited)
    decreases Unvisited(visited), 1, 0, 0
    ensures SearchCorrect(mm, width, m, p, visited, Try(mm, width, m, p, visited))
  {
    match FirstFree(mm[m], p.valToMatcher, 0)
    case Some(j) =>
      TakeFree(mm, width, m, j, p, visited);
    case None =>
      RestCorrect(mm, width, m, 0, p, visited);
  }

  /** The second pass from j on, given that every accepted value before j is visited. */
  lemma {:induction false} RestCorrect(mm: Matrix, width: nat, m: nat, j: nat, p: Pairing, visited: seq<bool>)
    requires SearchReady(mm, width, m, p, visited) && j <= width
    requires forall k :: j <= k < width && mm[m][k] ==> p.valToMatcher[k] != Free
    requires forall k :: 0 <= k < j && mm[m][k] ==> visited[k]
    decreases Unvisited(visited), 0, width - j, 1
    ensures SearchCorrect(mm, width, m, p, visited, Rest(mm, width, m, j, p, visited))
  {
    if j == width {
      RestEnd(mm, width, m, p, visited);
    } else if !mm[m][j] || visited[j] {
      RestSkip(mm, width, m, j, p, visited);
      RestCorrect(mm, width, m, j + 1, p, visited);
    } else {
      RestVisit(mm, width, m, j, p, visited);
    }
  }

  /** The second pass ends unassigned, every accepted value visited, and nothing newly marked. */
  lemma RestEnd(mm: Matrix, width: nat, m: nat, p: Pairing, visited: seq<bool>)
    requires SearchReady(mm, width, m, p, visited)
    requires forall k :: 0 <= k < width && mm[m][k] ==> visited[k]
    ensures Rest(mm, width, m, width, p, visited) == Attempt(Unassigned, p, visited)
    ensures Grows(visited, visited) && Exhausted(mm, width, m, p, visited, visited)
  {
  }

  /** The second pass at an accepted, unvisited value j: mark it and search from its holder. */
  lemma {:induction false} RestVisit(mm: Matrix, width: nat, m: nat, j: nat, p: Pairing, visited: seq<bool>)
    requires SearchReady(mm, width, m, p, visited) && j < width && mm[m][j] && !visited[j]
    requires forall k :: j <= k < width && mm[m][k] ==> p.valToMatcher[k] != Free
    requires forall k :: 0 <= k < j && mm[m][k] ==> visited[k]
    decreases Unvisited(visited), 0, width - j, 0
    ensures SearchCorrect(mm, width, m, p, visited, Rest(mm, width, m, j, p, visited))
  {
    var holder := p.valToMatcher[j];
    var marked := visited[j := true];
    UnvisitedMark(visited, j);
    HolderReady(mm, width, m, j, p, visited);
    TryCorrect(mm, width, holder, p, marked);
    var r := Try(mm, width, holder, p, marked);
    if r.outcome.Assigned? {
      assert Rest(mm, width, m, j, p, visited) ==
        Attempt(Assigned, Pairing(r.pairing.matcherToVal[m := j], r.pairing.valToMatcher[j := m]), r.visited);
      AugmentStep(mm, width, m, j, p, visited, r.pairing);
    } else {
      assert Rest(mm, width, m, j, p, visited) == Rest(mm, width, m, j + 1, p, r.visited);
      VisitFailed(mm, width, m, j, p, visited, r.visited);
    }
  }

  /** The holder of j could not move: continue the second pass with the enlarged visited set. */
  lemma {:induction false} VisitFailed(mm: Matrix, width: nat, m: nat, j: nat, p: Pairing, visited: seq<bool>, w: seq<bool>)
    requires SearchReady(mm, width, m, p, visited) && j < width && mm[m][j] && !visited[j]
    requires forall k :: j <= k < width && mm[m][k] ==> p.valToMatcher[k] != Free
    requires forall k :: 0 <= k < j && mm[m][k] ==> visited[k]
    requires SearchReady(mm, width, p.valToMatcher[j], p, visited[j := true])
    requires Grows(visited[j := true], w) && Exhausted(mm, width, p.valToMatcher[j], p, visited[j := true], w)
    requires Unvisited(w) < Unvisited(visited)
    decreases Unvisited(w), 0, width - j, 0
    ensures SearchCorrect(mm, width, m, p, visited, Rest(mm, width, m, j + 1, p, w))
  {
    assert SearchReady(mm, width, m, p, w);
    RestCorrect(mm, width, m, j + 1, p, w);
    var r2 := Rest(mm, width, m, j + 1, p, w);
    if r2.outcome.Assigned? {
      AugmentedShrink(mm, width, m, p, visited, w, r2.pairing);
    } else {
      ExhaustedCompose(mm, width, m, j, p, visited, w, r2.visited);
    }
  }

  /** Marking an accepted value j and entering the search from its holder keeps the entry conditions. */
  lemma HolderReady(mm: Matrix, width: nat, m: nat, j: nat, p: Pairing, visited: seq<bool>)
    requires SearchReady(mm, width, m, p, visited) && j < width && !visited[j] && p.valToMatcher[j] != Free
    ensures SearchReady(mm, width, p.valToMatcher[j], p, visited[j := true])
  {
  }

  /** An augmentation relative to more visited values is one relative to fewer. */
  lemma AugmentedShrink(mm: Matrix, width: nat, m: nat, p: Pairing, v: seq<bool>, w: seq<bool>, q: Pairing)
    requires SearchReady(mm, width, m, p, v) && SearchReady(mm, width, m, p, w) && Grows(v, w)
    requires Shaped(mm, width, q) && Augmented(mm, width, m, p, w, q)
    ensures Augmented(mm, width, m, p, v, q)
  {
  }

  /** The marks of the holder's failed search and of the later second-pass steps combine. */
  lemma ExhaustedCompose(mm: Matrix, width: nat, m: nat, j: nat, p: Pairing, visited: seq<bool>, w: seq<bool>, w2: seq<bool>)
    requires SearchReady(mm, width, m, p, visited) && j < width && !visited[j] && p.valToMatcher[j] != Free
    requires SearchReady(mm, width, p.valToMatcher[j], p, visited[j := true])
    requires Grows(visited[j := true], w) && Exhausted(mm, width, p.valToMatcher[j], p, visited[j := true], w)
    requires SearchReady(mm, width, m, p, w)
    requires Grows(w, w2) && Exhausted(mm, width, m, p, w, w2)
    ensures Grows(visited, w2) && Exhausted(mm, width, m, p, visited, w2)
  {
    var holder := p.valToMatcher[j];
    forall k | 0 <= k < width && w2[k] && !visited[k]
      ensures p.valToMatcher[k] != Free && Closed(mm, width, w2, p.valToMatcher[k])
    {
      if k == j {
        assert Closed(mm, width, w, holder);
      } else if w[k] {
        assert Closed(mm, width, w, p.valToMatcher[k]);
      }
    }
  }


  // ---------------------------------------------------------------------------
  // Correctness of Solve
  // ---------------------------------------------------------------------------

  /**
   * How Solve should end: without a panic, with inverse slices that pair only
   * compatible matchers and values, and with every matcher assigned unless no
   * injective assignment of all matchers exists.
   */
  ghost predicate SolvedWell(mm: Matrix, width: nat, s: Solution) {
    s.Solved? && Shaped(mm, width, s.pairing) && Inverse(s.pairing) && Compatible(mm, width, s.pairing) &&
    (AllAssigned(s.pairing.matcherToVal) || !HasPairing(mm, width, false))
  }

  /**
   * The loop of Solve from matcher k on, with visited sized by the values:
   * the slices stay inverse and compatible, and at the end either every matcher
   * holds a value or no injective assignment of all matchers exists.
   */
  lemma {:induction false} SolveFromCorrect(mm: Matrix, width: nat, k: nat, p: Pairing)
    requires Shaped(mm, width, p) && Inverse(p) && Compatible(mm, width, p) && k <= |mm|
    requires forall i :: k <= i < |mm| ==> p.matcherToVal[i] == Free
    requires (forall i :: 0 <= i < k ==> p.matcherToVal[i] != Free) || !HasPairing(mm, width, false)
    decreases |mm| - k
    ensures SolvedWell(mm, width, SolveFrom(mm, width, width, k, p))
  {
    if k < |mm| {
      var r := Try(mm, width, k, p, Falses(width));
      assert SolveFrom(mm, width, width, k, p) == SolveFrom(mm, width, width, k + 1, r.pairing);
      SolveStep(mm, width, k, p);
      SolveFromCorrect(mm, width, k + 1, r.pairing);
    } else {
      assert SolveFrom(mm, width, width, k, p) == Solved(p);
    }
  }

  /** One round of Solve keeps the loop's invariant for the next matcher. */
  lemma SolveStep(mm: Matrix, width: nat, k: nat, p: Pairing)
    requires Shaped(mm, width, p) && Inverse(p) && Compatible(mm, width, p) && k < |mm|
    requires forall i :: k <= i < |mm| ==> p.matcherToVal[i] == Free
    requires (forall i :: 0 <= i < k ==> p.matcherToVal[i] != Free) || !HasPairing(mm, width, false)
    ensures var q := Try(mm, width, k, p, Falses(width)).pairing;
      Shaped(mm, width, q) && Inverse(q) && Compatible(mm, width, q) &&
      (forall i :: k + 1 <= i < |mm| ==> q.matcherToVal[i] == Free) &&
      ((forall i :: 0 <= i < k + 1 ==> q.matcherToVal[i] != Free) || !HasPairing(mm, width, false))
  {
    var unmarked := Falses(width);
    assert SearchReady(mm, width, k, p, unmarked);
    TryCorrect(mm, width, k, p, unmarked);
    var r := Try(mm, width, k, p, unmarked);
    if r.outcome.Assigned? {
      assert Release(r.pairing.valToMatcher, Free) == r.pairing.valToMatcher;
      assert KeepsAssigned(p, r.pairing) && Untouched(mm, width, k, p, unmarked, r.pairing);
    } else {
      ClosedSetBlocksAssignment(mm, width, p, k, r.visited);
    }
  }

  /**
   * Solve decides the subset question: afterwards the slices are inverse and
   * pair only compatible matchers and values, and every matcher holds a value
   * exactly when an injective assignment of all matchers to accepted values
   * exists.
   */
  lemma SolveDecides(mm: Matrix, width: nat)
    requires Rectangular(mm, width)
    ensures var p := SolveCorrected(mm, width);
      Inverse(p) && Compatible(mm, width, p) &&
      (AllAssigned(p.matcherToVal) <==> HasPairing(mm, width, false))
  {
    var p := SolveCorrected(mm, width);
    if |mm| == 0 {
      assert IsAssignment(mm, width, []);
    } else if width == 0 {
      assert !AllAssigned(p.matcherToVal) by {
        assert p.matcherToVal[0] == Free;
      }
      forall f ensures !IsAssignment(mm, width, f) {
        if |f| == |mm| {
          assert !(0 <= f[0] < width);
        }
      }
    } else {
      SolveFromCorrect(mm, width, 0, Initial(|mm|, width));
      if AllAssigned(p.matcherToVal) {
        CompleteIsAssignment(mm, width, p);
      }
    }
  }

  /**
   * The count Solve stores in matchersMatched: it is the number of held values
   * too, it reaches the number of matchers exactly when an injective assignment
   * exists, and it is 0 without matchers or values.
   */
  lemma SolveCounts(mm: Matrix, width: nat)
    requires Rectangular(mm, width)
    ensures var p := SolveCorrected(mm, width);
      CountAssigned(p.matcherToVal) == CountAssigned(p.valToMatcher) &&
      CountAssigned(p.matcherToVal) <= |mm| &&
      (CountAssigned(p.matcherToVal) == |mm| <==> HasPairing(mm, width, false)) &&
      (|mm| == 0 || width == 0 ==> CountAssigned(p.matcherToVal) == 0)
  {
    var p := SolveCorrected(mm, width);
    SolveDecides(mm, width);
    InverseCountsAgree(mm, width, p);
    CountAllAssigned(p.matcherToVal);
    if width == 0 {
      CountIsCardinality(p.valToMatcher);
      assert p.valToMatcher == [];
      assert AssignedSet(p.valToMatcher) == {} by {
        forall x ensures x !in AssignedSet(p.valToMatcher) {}
      }
    }
  }

  // ---------------------------------------------------------------------------
  // The visited slice sized by matchers
  // ---------------------------------------------------------------------------

  /** v is the start of w: the shorter slice agrees with the longer one where both exist. */
  predicate PrefixOf(v: seq<bool>, w: seq<bool>) {
    |v| <= |w| && forall k :: 0 <= k < |v| ==> v[k] == w[k]
  }

  /** A search on v that stays in range ends as the search on w does, with v still the start of w. */
  predicate Mirrors(a: Attempt, b: Attempt) {
    !a.outcome.OutOfRange? ==> a.outcome == b.outcome && a.pairing == b.pairing && PrefixOf(a.visited, b.visited)
  }

  /**
   * A search that never indexes past the end of its visited slice never
   * looks at the entries a longer slice has beyond it, so it runs the same.
   */
  lemma {:induction false} TryPrefix(mm: Matrix, width: nat, m: nat, p: Pairing, v: seq<bool>, w: seq<bool>)
    requires Shaped(mm, width, p) && m < |mm| && PrefixOf(v, w)
    decreases Unvisited(v), 1
    ensures Mirrors(Try(mm, width, m, p, v), Try(mm, width, m, p, w))
  {
    if FirstFree(mm[m], p.valToMatcher, 0).None? {
      RestPrefix(mm, width, m, 0, p, v, w);
    }
  }

  /** The second pass on v and on w agree while the pass on v stays in range. */
  lemma {:induction false} RestPrefix(mm: Matrix, width: nat, m: nat, j: nat, p: Pairing, v: seq<bool>, w: seq<bool>)
    requires Shaped(mm, width, p) && m < |mm| && j <= width
    requires forall k :: j <= k < width && mm[m][k] ==> p.valToMatcher[k] != Free
    requires PrefixOf(v, w)
    decreases Unvisited(v), 0, width - j
    ensures Mirrors(Rest(mm, width, m, j, p, v), Rest(mm, width, m, j, p, w))
  {
    if j == width || (mm[m][j] && j >= |v|) {
    } else if !mm[m][j] || v[j] {
      RestPrefix(mm, width, m, j + 1, p, v, w);
    } else {
      RestVisitPrefix(mm, width, m, j, p, v, w);
    }
  }

  /** Visiting value j on both slices: the holder's searches agree, and so do the passes after them. */
  lemma {:induction false} RestVisitPrefix(mm: Matrix, width: nat, m: nat, j: nat, p: Pairing, v: seq<bool>, w: seq<bool>)
    requires Shaped(mm, width, p) && m < |mm| && j < width && j < |v|
    requires forall k :: j <= k < width && mm[m][k] ==> p.valToMatcher[k] != Free
    requires PrefixOf(v, w) && mm[m][j] && !v[j]
    decreases Unvisited(v), 0, width - j, 0
    ensures Mirrors(Rest(mm, width, m, j, p, v), Rest(mm, width, m, j, p, w))
  {
    var mv, mw := v[j := true], w[j := true];
    UnvisitedMark(v, j);
    assert PrefixOf(mv, mw);
    var h := p.valToMatcher[j];
    TryPrefix(mm, width, h, p, mv, mw);
    var rv := Try(mm, width, h, p, mv);
    var rw := Try(mm, width, h, p, mw);
    if rv.outcome.Unassigned? {
      RestPrefix(mm, width, m, j + 1, p, rv.visited, rw.visited);
    }
  }

  /** With more entries in visited, a Solve that does not panic computes the same. */
  lemma {:induction false} SolveFromPrefix(mm: Matrix, width: nat, a: nat, b: nat, k: nat, p: Pairing)
    requires Shaped(mm, width, p) && k <= |mm| && a <= b
    requires SolveFrom(mm, width, a, k, p).Solved?
    decreases |mm| - k
    ensures SolveFrom(mm, width, b, k, p) == SolveFrom(mm, width, a, k, p)
  {
    if k < |mm| {
      TryPrefix(mm, width, k, p, Falses(a), Falses(b));
      SolveFromPrefix(mm, width, a, b, k + 1, Try(mm, width, k, p, Falses(a)).pairing);
    }
  }

  /**
   * Whatever the length of visited, a Solve that does not panic ends in the
   * pairing of the corrected search; so where the code as written does not
   * panic, it decides what the corrected code decides.
   */
  lemma AsWrittenAgrees(mm: Matrix, width: nat, vlen: nat)
    requires Rectangular(mm, width) && SolveWith(mm, width, vlen).Solved?
    ensures SolveWith(mm, width, vlen) == Solved(SolveCorrected(mm, width))
  {
    if |mm| > 0 && width > 0 {
      if vlen <= width {
        SolveFromPrefix(mm, width, vlen, width, 0, Initial(|mm|, width));
      } else {
        SolveFromPrefix(mm, width, width, vlen, 0, Initial(|mm|, width));
      }
    }
  }

  /**
   * Four matchers, five values: matcher 0 accepts value 4, matcher 1 values 0
   * and 4, matcher 2 values 0, 1 and 2, matcher 3 values 0 and 1.
   */
  function Example(): (mm: Matrix)
    ensures Rectangular(mm, 5) && |mm| == 4
  {
    [[false, false, false, false, true],
     [true, false, false, false, true],
     [true, true, true, false, false],
     [true, true, false, false, false]]
  }

  /** The slices after matchers 0, 1 and 2 took the free values 4, 0 and 1. */
  function ExampleAfterThree(): (p: Pairing)
    ensures Shaped(Example(), 5, p)
  {
    Pairing([4, 0, 1, -1], [1, 2, -1, -1, 0])
  }

  /** In the example, matcher 0 takes the free value 4. */
  lemma ExampleTake0(vlen: nat)
    ensures Try(Example(), 5, 0, Initial(4, 5), Falses(vlen)) ==
      Attempt(Assigned, Pairing([4, -1, -1, -1], [-1, -1, -1, -1, 0]), Falses(vlen))
  {
    var p := Initial(4, 5);
    assert p == Pairing([-1, -1, -1, -1], [-1, -1, -1, -1, -1]);
    assert FirstFree(Example()[0], p.valToMatcher, 0) == Some(4);
  }

  /** Then matcher 1 takes the free value 0. */
  lemma ExampleTake1(vlen: nat)
    ensures Try(Example(), 5, 1, Pairing([4, -1, -1, -1], [-1, -1, -1, -1, 0]), Falses(vlen)) ==
      Attempt(Assigned, Pairing([4, 0, -1, -1], [1, -1, -1, -1, 0]), Falses(vlen))
  {
    assert FirstFree(Example()[1], [-1, -1, -1, -1, 0], 0) == Some(0);
  }

  /** Then matcher 2 takes the free value 1. */
  lemma ExampleTake2(vlen: nat)
    ensures Try(Example(), 5, 2, Pairing([4, 0, -1, -1], [1, -1, -1, -1, 0]), Falses(vlen)) ==
      Attempt(Assigned, ExampleAfterThree(), Falses(vlen))
  {
    assert FirstFree(Example()[2], [1, -1, -1, -1, 0], 0) == Some(1);
  }

  /** The first three searches of the example each take a free value, whatever the length of visited. */
  lemma ExampleFirstThree(vlen: nat)
    ensures SolveWith(Example(), 5, vlen) == SolveFrom(Example(), 5, vlen, 3, ExampleAfterThree())
  {
    var mm := Example();
    var p1 := Pairing([4, -1, -1, -1], [-1, -1, -1, -1, 0]);
    var p2 := Pairing([4, 0, -1, -1], [1, -1, -1, -1, 0]);
    ExampleTake0(vlen);
    ExampleTake1(vlen);
    ExampleTake2(vlen);
    assert SolveFrom(mm, 5, vlen, 2, p2) == SolveFrom(mm, 5, vlen, 3, ExampleAfterThree());
    assert SolveFrom(mm, 5, vlen, 1, p1) == SolveFrom(mm, 5, vlen, 3, ExampleAfterThree());
  }

  /** Matcher 3 finds no free value; its search reaches matcher 1, which reads visited[4]. */
  lemma ExampleAsWrittenStuck()
    ensures Try(Example(), 5, 3, ExampleAfterThree(), Falses(4)).outcome == OutOfRange(4)
  {
    var mm := Example();
    var p3 := ExampleAfterThree();
    var marked := [true, false, false, false];
    assert Falses(4)[0 := true] == marked;
    assert FirstFree(mm[3], p3.valToMatcher, 0) == None;
    assert FirstFree(mm[1], p3.valToMatcher, 0) == None;
    assert Rest(mm, 5, 1, 4, p3, marked).outcome == OutOfRange(4);
    assert Rest(mm, 5, 1, 0, p3, marked).outcome == OutOfRange(4);
    assert Rest(mm, 5, 3, 0, p3, Falses(4)).outcome == OutOfRange(4);
  }

  /**
   * With visited sized by the 4 matchers, the search for matcher 3 reaches
   * matcher 1, whose second pass reads visited[4] and panics, although the
   * assignment 0->4, 1->0, 2->2, 3->1 exists.
   */
  lemma AsWrittenPanics()
    ensures HasPairing(Example(), 5, false)
    ensures SolveAsWritten(Example(), 5) == Panicked(4)
  {
    assert IsAssignment(Example(), 5, [4, 0, 2, 1]);
    ExampleFirstThree(4);
    ExampleAsWrittenStuck();
  }

  /** Matcher 0 cannot move: it accepts only value 4, already visited. */
  lemma ExampleFirstStuck(v: seq<bool>)
    requires |v| == 5 && v[4]
    ensures Try(Example(), 5, 0, ExampleAfterThree(), v) == Attempt(Unassigned, ExampleAfterThree(), v)
  {
    var mm := Example();
    var p3 := ExampleAfterThree();
    assert FirstFree(mm[0], p3.valToMatcher, 0) == None;
    RestSkip(mm, 5, 0, 0, p3, v);
    RestSkip(mm, 5, 0, 1, p3, v);
    RestSkip(mm, 5, 0, 2, p3, v);
    RestSkip(mm, 5, 0, 3, p3, v);
    RestSkip(mm, 5, 0, 4, p3, v);
  }

  /**
   * Matcher 1 cannot move once value 0 is visited: value 4 is held by
   * matcher 0, which accepts nothing else.
   */
  lemma ExampleHolderStuck(v: seq<bool>)
    requires |v| == 5 && v[0] && !v[4]
    ensures Try(Example(), 5, 1, ExampleAfterThree(), v) ==
      Attempt(Unassigned, ExampleAfterThree(), v[4 := true])
  {
    var mm := Example();
    var p3 := ExampleAfterThree();
    assert FirstFree(mm[1], p3.valToMatcher, 0) == None;
    RestSkip(mm, 5, 1, 0, p3, v);
    RestSkip(mm, 5, 1, 1, p3, v);
    RestSkip(mm, 5, 1, 2, p3, v);
    RestSkip(mm, 5, 1, 3, p3, v);
    ExampleFirstStuck(v[4 := true]);
    RestTakeOver(mm, 5, 1, 4, p3, v);
  }

  /** Matcher 2 moves to the free value 2, whatever has been visited. */
  lemma ExampleSecondMoves(v: seq<bool>)
    ensures Try(Example(), 5, 2, ExampleAfterThree(), v) ==
      Attempt(Assigned, Pairing([4, 0, 2, -1], [1, 2, 2, -1, 0]), v)
  {
    assert FirstFree(Example()[2], ExampleAfterThree().valToMatcher, 0) == Some(2);
  }

  /** Matcher 3 tries value 0 first: its holder, matcher 1, cannot move. */
  lemma ExampleLastStep0(v: seq<bool>)
    requires |v| == 5 && !v[0] && !v[4]
    ensures Rest(Example(), 5, 3, 0, ExampleAfterThree(), v) ==
      Rest(Example(), 5, 3, 1, ExampleAfterThree(), v[0 := true][4 := true])
  {
    ExampleHolderStuck(v[0 := true]);
    RestTakeOver(Example(), 5, 3, 0, ExampleAfterThree(), v);
  }

  /** Matcher 3 then takes value 1 over from matcher 2, which moves to the free value 2. */
  lemma ExampleLastStep1(v: seq<bool>)
    requires |v| == 5 && !v[1]
    ensures Rest(Example(), 5, 3, 1, ExampleAfterThree(), v).pairing == Pairing([4, 0, 2, 1], [1, 3, 2, -1, 0])
  {
    ExampleSecondMoves(v[1 := true]);
    RestTakeOver(Example(), 5, 3, 1, ExampleAfterThree(), v);
    ExampleLastUpdates();
  }

  /** The slices after matcher 3 takes value 1 from matcher 2. */
  lemma ExampleLastUpdates()
    ensures [4, 0, 2, -1][3 := 1] == [4, 0, 2, 1]
    ensures [1, 2, 2, -1, 0][1 := 3] == [1, 3, 2, -1, 0]
  {
  }

  /** Matcher 3 takes value 1 over from matcher 2, which moves to the free value 2. */
  lemma ExampleCorrectedLast()
    ensures Try(Example(), 5, 3, ExampleAfterThree(), Falses(5)).pairing ==
      Pairing([4, 0, 2, 1], [1, 3, 2, -1, 0])
  {
    var v0 := Falses(5);
    assert FirstFree(Example()[3], ExampleAfterThree().valToMatcher, 0) == None;
    ExampleLastStep0(v0);
    ExampleLastStep1(v0[0 := true][4 := true]);
  }

  /** With visited sized by the values, the same input is fully paired. */
  lemma CorrectedPairsExample()
    ensures SolveCorrected(Example(), 5).matcherToVal == [4, 0, 2, 1]
  {
    ExampleFirstThree(5);
    ExampleCorrectedLast();
  }
}

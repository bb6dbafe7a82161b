/**
 * matcherFlowGraph (container_matchers.go:572-659): the compatibility matrix,
 * the two assignment slices updated in place, and the count of matched
 * matchers.  Every method is proved to do what the functions of KuhnSearch
 * describe, so the correctness lemmas proved there carry over.
 */
module FlowGraph {
  import opened Wrappers
  import opened Bipartite
  import opened KuhnSearch

  class MatcherFlowGraph {
    /** matchMatrix[i][j] is true iff matcher i accepts value j. */
    const matchMatrix: Matrix
    /** The number of values: the length of row 0, or 0 without matchers. */
    const width: nat
    const matcherToVal: array<int>
    const valToMatcher: array<int>
    var matchersMatched: int

    /** The assignment slices as values. */
    function Current(): Pairing
      reads this, matcherToVal, valToMatcher
    {
      Pairing(matcherToVal[..], valToMatcher[..])
    }

    /** The matrix is rectangular and the slices have its dimensions and hold indices or Free. */
    predicate Valid()
      reads this, matcherToVal, valToMatcher
    {
      width == Width(matchMatrix) && Rectangular(matchMatrix, width) &&
      matcherToVal != valToMatcher &&
      Shaped(matchMatrix, width, Current())
    }

    /** newMatcherFlowGraph: nothing assigned, nothing counted. */
    constructor (mm: Matrix)
      requires Rectangular(mm, Width(mm))
      ensures Valid() && fresh(matcherToVal) && fresh(valToMatcher)
      ensures matchMatrix == mm && width == Width(mm)
      ensures Current() == Initial(|mm|, Width(mm)) && matchersMatched == 0
    {
      matchMatrix := mm;
      width := Width(mm);
      matcherToVal := new int[|mm|](_ => Free);
      valToMatcher := new int[Width(mm)](_ => Free);
      matchersMatched := 0;
    }

    /**
     * tryAssign: find a value for `matcher`, taking a free accepted value if
     * there is one, otherwise moving the holder of an accepted, unvisited value
     * elsewhere.  The result, the slices and the visited marks afterwards are
     * those of KuhnSearch.Try.
     */
    method TryAssign(matcher: nat, visited: array<bool>) returns (ok: bool)
      requires Valid() && matcher < |matchMatrix| && visited.Length == width
      modifies matcherToVal, valToMatcher, visited
      decreases Unvisited(visited[..]), 2
      ensures Valid()
      ensures var r := Try(matchMatrix, width, matcher, old(Current()), old(visited[..]));
        ok == r.outcome.Assigned? && Current() == r.pairing && visited[..] == r.visited
    {
      ghost var p0 := Current();
      var free := FirstFreeValue(matcher);
      if free.Some? {
        var j := free.value;
        matcherToVal[matcher] := j;
        valToMatcher[j] := matcher;
        assert Current() == Pairing(p0.matcherToVal[matcher := j], p0.valToMatcher[j := matcher]);
        return true;
      }
      ok := Reassign(matcher, visited);
    }

    /**
     * The second pass of tryAssign: every accepted value is held, so for each
     * accepted value not yet visited, mark it and try to move its holder; on
     * success take the value over.  The outcome is that of KuhnSearch.Rest.
     */
    method Reassign(matcher: nat, visited: array<bool>) returns (ok: bool)
      requires Valid() && matcher < |matchMatrix| && visited.Length == width
      requires forall k :: 0 <= k < width && matchMatrix[matcher][k] ==> valToMatcher[k] != Free
      modifies matcherToVal, valToMatcher, visited
      decreases Unvisited(visited[..]), 1
      ensures Valid()
      ensures var r := Rest(matchMatrix, width, matcher, 0, old(Current()), old(visited[..]));
        ok == r.outcome.Assigned? && Current() == r.pairing && visited[..] == r.visited
    {
      ghost var p0 := Current();
      ghost var v0 := visited[..];
      var j := 0;
      while j < width
        invariant j <= width && Valid() && visited.Length == width
        invariant forall k :: j <= k < width && matchMatrix[matcher][k] ==> valToMatcher[k] != Free
        invariant Unvisited(visited[..]) <= Unvisited(v0)
        invariant Rest(matchMatrix, width, matcher, j, Current(), visited[..]) == Rest(matchMatrix, width, matcher, 0, p0, v0)
      {
        ok := ReassignStep(matcher, j, visited);
        if ok {
          return;
        }
        j := j + 1;
      }
      return false;
    }

    /**
     * One value j of the second pass: pass over it when the matcher rejects it
     * or it is visited; otherwise mark it, try to move its holder elsewhere,
     * and on success take j over.
     */
    method ReassignStep(matcher: nat, j: nat, visited: array<bool>) returns (ok: bool)
      requires Valid() && matcher < |matchMatrix| && visited.Length == width && j < width
      requires forall k :: j <= k < width && matchMatrix[matcher][k] ==> valToMatcher[k] != Free
      modifies matcherToVal, valToMatcher, visited
      decreases Unvisited(visited[..]), 0
      ensures Valid() && Unvisited(visited[..]) <= Unvisited(old(visited[..]))
      ensures ok ==>
        Rest(matchMatrix, width, matcher, j, old(Current()), old(visited[..])) ==
        Attempt(Assigned, Current(), visited[..])
      ensures !ok ==>
        Current() == old(Current()) &&
        Rest(matchMatrix, width, matcher, j, old(Current()), old(visited[..])) ==
        Rest(matchMatrix, width, matcher, j + 1, Current(), visited[..])
    {
      if !matchMatrix[matcher][j] || visited[j] {
        RestSkip(matchMatrix, width, matcher, j, Current(), visited[..]);
        return false;
      }
      ghost var p := Current();
      ghost var v := visited[..];
      RestTakeOver(matchMatrix, width, matcher, j, p, v);
      UnvisitedMark(v, j);
      visited[j] := true;
      assert visited[..] == v[j := true];
      ghost var r := Try(matchMatrix, width, p.valToMatcher[j], p, v[j := true]);
      ok := TryAssign(valToMatcher[j], visited);
      assert Current() == r.pairing && visited[..] == r.visited;
      if ok {
        valToMatcher[j] := matcher;
        matcherToVal[matcher] := j;
        assert Current() == Pairing(r.pairing.matcherToVal[matcher := j], r.pairing.valToMatcher[j := matcher]);
      }
    }

    /** The first pass of tryAssign: the first value the matcher accepts that no matcher holds. */
    method FirstFreeValue(matcher: nat) returns (r: Option<nat>)
      requires Valid() && matcher < |matchMatrix|
      ensures r == FirstFree(matchMatrix[matcher], valToMatcher[..], 0)
    {
      var row := matchMatrix[matcher];
      var j := 0;
      while j < |row|
        invariant 0 <= j <= |row| == width
        invariant FirstFree(row, valToMatcher[..], j) == FirstFree(row, valToMatcher[..], 0)
      {
        if row[j] && valToMatcher[j] == Free {
          return Some(j);
        }
        j := j + 1;
      }
      return None;
    }

    /**
     * Solve: one search per matcher, each with a fresh visited slice, then
     * count the assigned matchers.  Without matchers or values it returns at
     * once and leaves everything as it was.
     *
     * Go allocates visited with len(g.matchMatrix) entries (one per matcher)
     * although tryAssign indexes it by value; here it has one entry per value,
     * which is what the search needs (KuhnSearch.AsWrittenPanics shows the
     * difference).
     */
    method Solve()
      requires Valid()
      modifies this, matcherToVal, valToMatcher
      ensures Valid()
      ensures |matchMatrix| == 0 || width == 0 ==>
        Current() == old(Current()) && matchersMatched == old(matchersMatched)
      ensures |matchMatrix| > 0 && width > 0 ==>
        Current() == SolveFrom(matchMatrix, width, width, 0, old(Current())).pairing &&
        matchersMatched == CountAssigned(matcherToVal[..])
    {
      if |matchMatrix| == 0 || |matchMatrix[0]| == 0 {
        return;
      }
      ghost var p0 := Current();
      var matcher := 0;
      while matcher < |matchMatrix|
        invariant 0 <= matcher <= |matchMatrix|
        invariant Valid()
        invariant SolveFrom(matchMatrix, width, width, matcher, Current()) ==
          SolveFrom(matchMatrix, width, width, 0, p0)
      {
        var visited := new bool[width](_ => false);
        assert visited[..] == Falses(width);
        var _ := TryAssign(matcher, visited);
        matcher := matcher + 1;
      }

      CountMatched();
    }

    /** The counting loop at the end of Solve: matchersMatched is the number of assigned matchers. */
    method CountMatched()
      requires Valid()
      modifies this
      ensures Valid() && Current() == old(Current())
      ensures matchersMatched == CountAssigned(matcherToVal[..])
    {
      matchersMatched := 0;
      var i := 0;
      while i < matcherToVal.Length
        invariant 0 <= i <= matcherToVal.Length
        invariant matchersMatched == CountAssigned(matcherToVal[..i])
      {
        assert matcherToVal[..i + 1][..i] == matcherToVal[..i];
        if matcherToVal[i] != Free {
          matchersMatched := matchersMatched + 1;
        }
        i := i + 1;
      }
      assert matcherToVal[..i] == matcherToVal[..];
    }
  }

  /**
   * newMatcherFlowGraph followed by Solve: the count of matched matchers and
   * the slices afterwards are those of KuhnSearch.SolveCorrected, so
   * SolveDecides and SolveCounts apply to them.
   */
  method NewSolved(mm: Matrix) returns (g: MatcherFlowGraph)
    requires Rectangular(mm, Width(mm))
    ensures g.Valid() && g.matchMatrix == mm && g.width == Width(mm)
    ensures g.Current() == SolveCorrected(mm, Width(mm))
    ensures g.matchersMatched == CountAssigned(g.matcherToVal[..])
  {
    g := new MatcherFlowGraph(mm);
    g.Solve();
    if |mm| == 0 || Width(mm) == 0 {
      CountNoneAssigned(g.matcherToVal[..]);
    }
  }
}

/**
  What the search loop keeps true from one turn to the next, and what follows
  from it when the loop stops: the discovery order has no repeats, every
  reported path is a wall-avoiding walk from start to end, the search is
  complete, and breadth-first search reports a shortest walk.
*/
module SearchProofs {
  import opened Wrappers
  import opened GridModel
  import opened Walks
  import opened SearchEngine

  /** `v` is the last cell of some partial path still waiting in the frontier. */
  ghost predicate Open(frontier: seq<seq<Pos>>, v: Pos) {
    exists q :: q in frontier && |q| > 0 && Last(q) == v
  }

  /** `v` was expanded: it is not the end, and each of its passable neighbours is visited. */
  ghost predicate Closed(g: Grid, visited: set<Pos>, end: Pos, v: Pos)
    requires WellFormed(g)
  {
    v != end && forall n :: n in Neighbours(v) && Passable(g, n) ==> n in visited
  }

  /** Every partial path is a walk from the start without repeated cells, all of them visited. */
  ghost predicate PathsInv(g: Grid, start: Pos, s: SearchState)
    requires WellFormed(g)
  {
    forall q :: q in s.frontier ==>
      IsWalk(g, start, q) && Distinct(q) && forall i :: 0 <= i < |q| ==> q[i] in s.visited
  }

  /** The visited set is the start plus the discovered cells, each discovered once, each reachable. */
  ghost predicate DiscoveryInv(g: Grid, start: Pos, s: SearchState)
    requires WellFormed(g)
  {
    && start in s.visited
    && start !in s.discovered
    && Distinct(s.discovered)
    && (forall x :: x in s.visited <==> x == start || x in s.discovered)
    && (forall x :: x in s.discovered ==> Passable(g, x))
    && (forall x :: x in s.visited ==> Reaches(g, start, x))
  }

  /** Each visited cell is still waiting in the frontier or has been expanded. */
  ghost predicate CoverInv(g: Grid, end: Pos, s: SearchState)
    requires WellFormed(g)
  {
    forall v :: v in s.visited ==> Open(s.frontier, v) || Closed(g, s.visited, end, v)
  }

  ghost predicate Inv(g: Grid, start: Pos, end: Pos, s: SearchState)
    requires WellFormed(g)
  {
    PathsInv(g, start, s) && DiscoveryInv(g, start, s) && CoverInv(g, end, s)
  }

  // ---------------------------------------------------------------------------
  // Small facts about sequences, kept apart so that they are proved in a small context

  lemma DistinctConcat(a: seq<Pos>, b: seq<Pos>)
    requires Distinct(a) && Distinct(b)
    requires forall x :: x in b ==> x !in a
    ensures Distinct(a + b)
  {
    var c := a + b;
    forall i, j | 0 <= i < j < |c|
      ensures c[i] != c[j]
    {
      if j >= |a| && i < |a| {
        assert c[j] == b[j - |a|] && c[j] in b;
      }
    }
  }

  lemma ExtensionLast(path: seq<Pos>, found: seq<Pos>, k: int)
    requires 0 <= k < |found|
    ensures Last(Extensions(path, found)[k]) == found[k]
  {
  }

  lemma InConcatRight<T>(a: seq<T>, b: seq<T>, k: int)
    requires 0 <= k < |b|
    ensures b[k] in a + b
  {
    assert (a + b)[|a| + k] == b[k];
  }

  /**
    The breadth-first frontier keeps its shape when the head, of length `d`,
    is replaced by paths of length `d + 1` at the back: lengths stay sorted and
    span at most one.
  */
  lemma BfsFrontierShape(f: seq<seq<Pos>>, ext: seq<seq<Pos>>, d: int)
    requires |f| > 0 && |f[0]| == d
    requires forall i, j :: 0 <= i <= j < |f| ==> |f[i]| <= |f[j]|
    requires forall i :: 0 <= i < |f| ==> |f[i]| <= d + 1
    requires forall q :: q in ext ==> |q| == d + 1
    ensures var f' := f[1..] + ext;
      && (forall i, j :: 0 <= i <= j < |f'| ==> |f'[i]| <= |f'[j]|)
      && (forall i :: 0 <= i < |f'| ==> |f'[i]| <= |f'[0]| + 1)
  {
    var f' := f[1..] + ext;
    var n := |f| - 1;
    forall i | 0 <= i < |f'|
      ensures |f'[i]| == if i < n then |f[i + 1]| else d + 1
      ensures d <= |f'[i]| <= d + 1
    {
      if i >= n {
        assert f'[i] == ext[i - n] && ext[i - n] in ext;
      }
    }
  }

  // ---------------------------------------------------------------------------
  // The invariant holds at the start and is kept by every turn

  lemma InitialInv(g: Grid, start: Pos, end: Pos)
    requires WellFormed(g)
    ensures Inv(g, start, end, InitialState(start))
  {
    var s := InitialState(start);
    assert IsWalk(g, start, [start]) && Last([start]) == start;
    assert Open(s.frontier, start);
  }

  /** Extending a repetition-free walk whose cells are all visited by an eligible neighbour of its last cell. */
  lemma ExtendWalk(g: Grid, start: Pos, path: seq<Pos>, visited: set<Pos>, x: Pos)
    requires WellFormed(g) && IsWalk(g, start, path) && Distinct(path)
    requires forall i :: 0 <= i < |path| ==> path[i] in visited
    requires Eligible(g, visited, x) && x in Neighbours(Last(path))
    ensures IsWalk(g, start, path + [x]) && Distinct(path + [x]) && Last(path + [x]) == x
  {
    var w := path + [x];
    forall i | 0 < i < |w|
      ensures Passable(g, w[i]) && Adjacent(w[i - 1], w[i])
    {
      if i == |w| - 1 {
        assert w[i - 1] == Last(path);
      } else {
        assert w[i] == path[i] && w[i - 1] == path[i - 1];
      }
    }
    forall i, j | 0 <= i < j < |w|
      ensures w[i] != w[j]
    {
      if j == |w| - 1 {
        assert w[i] == path[i];
      } else {
        assert w[i] == path[i] && w[j] == path[j];
      }
    }
  }

  /** The facts about one turn that every invariant argument needs. */
  lemma StepFacts(g: Grid, algo: Algorithm, s: SearchState)
    returns (path: seq<Pos>, rest: seq<seq<Pos>>, found: seq<Pos>)
    requires WellFormed(g) && |s.frontier| > 0
    requires forall q :: q in s.frontier ==> |q| > 0
    ensures (path, rest) == Pop(algo, s.frontier) && |path| > 0
    ensures found == Discoverable(g, s.visited, Neighbours(Last(path)))
    ensures Distinct(found)
    ensures Step(g, algo, s).discovered == s.discovered + found
    ensures forall x :: x in Step(g, algo, s).visited <==> x in s.visited || x in found
    ensures Step(g, algo, s).frontier == rest + Extensions(path, found)
    ensures forall x :: x in found ==> x in Neighbours(Last(path)) && Eligible(g, s.visited, x)
  {
    path := Pop(algo, s.frontier).0;
    rest := Pop(algo, s.frontier).1;
    var cands := Neighbours(Last(path));
    assert cands[0..] == cands;
    found := Discoverable(g, s.visited, cands);
    NeighboursDistinct(Last(path));
  }

  lemma AppendedVisited(path: seq<Pos>, x: Pos, visited: set<Pos>)
    requires forall i :: 0 <= i < |path| ==> path[i] in visited
    requires x in visited
    ensures forall i :: 0 <= i < |path + [x]| ==> (path + [x])[i] in visited
  {
  }

  /** Only the frontier after a breadth-first turn: the tail of the old one, then the extensions of its head. */
  lemma StepFrontier(g: Grid, s: SearchState) returns (path: seq<Pos>, found: seq<Pos>)
    requires WellFormed(g) && |s.frontier| > 0
    requires forall q :: q in s.frontier ==> |q| > 0
    ensures path == s.frontier[0] && |path| > 0
    ensures Step(g, BreadthFirst, s).frontier == s.frontier[1..] + Extensions(path, found)
  {
    path := s.frontier[0];
    found := Discoverable(g, s.visited, Neighbours(Last(path))[0..]);
  }

  lemma StepKeepsPaths(g: Grid, algo: Algorithm, start: Pos, end: Pos, s: SearchState)
    requires WellFormed(g) && Inv(g, start, end, s) && |s.frontier| > 0
    ensures PathsInv(g, start, Step(g, algo, s))
  {
    var path, rest, found := StepFacts(g, algo, s);
    var s' := Step(g, algo, s);
    forall q | q in s'.frontier
      ensures IsWalk(g, start, q) && Distinct(q) && forall i :: 0 <= i < |q| ==> q[i] in s'.visited
    {
      if q in rest {
        assert q in s.frontier;
        forall i | 0 <= i < |q|
          ensures q[i] in s'.visited
        {
          assert q[i] in s.visited;
        }
      } else {
        var ext := Extensions(path, found);
        assert q in ext;
        var k :| 0 <= k < |ext| && ext[k] == q;
        assert found[k] in found;
        ExtendWalk(g, start, path, s.visited, found[k]);
        AppendedVisited(path, found[k], s'.visited);
      }
    }
  }

  lemma StepKeepsDiscovery(g: Grid, algo: Algorithm, start: Pos, end: Pos, s: SearchState)
    requires WellFormed(g) && Inv(g, start, end, s) && |s.frontier| > 0
    ensures DiscoveryInv(g, start, Step(g, algo, s))
  {
    var path, rest, found := StepFacts(g, algo, s);
    var s' := Step(g, algo, s);
    DistinctConcat(s.discovered, found);
    forall x | x in found
      ensures Reaches(g, start, x)
    {
      ExtendWalk(g, start, path, s.visited, x);
    }
  }

  lemma StepKeepsCover(g: Grid, algo: Algorithm, start: Pos, end: Pos, s: SearchState)
    requires WellFormed(g) && Inv(g, start, end, s) && |s.frontier| > 0
    requires Last(Pop(algo, s.frontier).0) != end
    ensures CoverInv(g, end, Step(g, algo, s))
  {
    var path, rest, found := StepFacts(g, algo, s);
    var s' := Step(g, algo, s);
    var ext := Extensions(path, found);
    forall v | v in s'.visited
      ensures Open(s'.frontier, v) || Closed(g, s'.visited, end, v)
    {
      if v in found {
        var k :| 0 <= k < |found| && found[k] == v;
        InConcatRight(rest, ext, k);
        assert Last(ext[k]) == v;
      } else if Closed(g, s.visited, end, v) {
      } else {
        var q :| q in s.frontier && |q| > 0 && Last(q) == v;
        if q in rest {
          assert q in s'.frontier;
        } else {
          assert q == path;
          forall n | n in Neighbours(v) && Passable(g, n)
            ensures n in s'.visited
          {
            if n !in s.visited {
              assert Eligible(g, s.visited, n);
              assert n in found;
            }
          }
        }
      }
    }
  }

  lemma StepInv(g: Grid, algo: Algorithm, start: Pos, end: Pos, s: SearchState)
    requires WellFormed(g) && Inv(g, start, end, s) && |s.frontier| > 0
    requires Last(Pop(algo, s.frontier).0) != end
    ensures Inv(g, start, end, Step(g, algo, s))
  {
    StepKeepsPaths(g, algo, start, end, s);
    StepKeepsDiscovery(g, algo, start, end, s);
    StepKeepsCover(g, algo, start, end, s);
  }

  // ---------------------------------------------------------------------------
  // When the loop stops

  /** A set that holds the start and the passable neighbours of each of its cells holds every walk's last cell. */
  lemma {:induction false} ClosedSetHoldsWalk(g: Grid, start: Pos, w: seq<Pos>, closed: set<Pos>)
    requires WellFormed(g) && IsWalk(g, start, w) && start in closed
    requires forall v :: v in closed ==> forall n :: n in Neighbours(v) && Passable(g, n) ==> n in closed
    ensures Last(w) in closed
    decreases |w|
  {
    if |w| > 1 {
      var w' := w[..|w| - 1];
      WalkPrefix(g, start, w, |w| - 1);
      ClosedSetHoldsWalk(g, start, w', closed);
      assert Last(w') == w[|w| - 2];
      assert w[|w| - 1] in Neighbours(w[|w| - 2]);
    }
  }

  /** What a run from an invariant-satisfying state returns. */
  ghost predicate SoundResult(g: Grid, start: Pos, end: Pos, r: SearchResult)
    requires WellFormed(g)
  {
    && Distinct(r.discovered)
    && start !in r.discovered
    && (forall x :: x in r.discovered ==> Passable(g, x))
    && (r.path.Some? ==>
          && IsWalk(g, start, r.path.value)
          && Distinct(r.path.value)
          && Last(r.path.value) == end
          && forall x :: x in r.path.value ==> x == start || x in r.discovered)
    && (r.path.None? ==> forall x :: Reaches(g, start, x) <==> x == start || x in r.discovered)
    && (r.path.Some? <==> Reaches(g, start, end))
  }

  lemma {:induction false} RunSound(g: Grid, algo: Algorithm, start: Pos, end: Pos, s: SearchState)
    requires WellFormed(g) && Inv(g, start, end, s)
    ensures SoundResult(g, start, end, Run(g, algo, end, s))
    decreases AllPositions() - s.visited, |s.frontier|
  {
    var r := Run(g, algo, end, s);
    if |s.frontier| == 0 {
      assert forall v :: v in s.visited ==> Closed(g, s.visited, end, v);
      forall x | Reaches(g, start, x)
        ensures x in s.visited
      {
        var w :| IsWalk(g, start, w) && Last(w) == x;
        ClosedSetHoldsWalk(g, start, w, s.visited);
      }
      assert end !in s.visited;
    } else {
      var path := Pop(algo, s.frontier).0;
      if Last(path) == end {
        assert path in s.frontier;
        assert r.path == Some(path);
        assert forall i :: 0 <= i < |path| ==> path[i] in s.visited;
        assert Reaches(g, start, end);
      } else {
        StepInv(g, algo, start, end, s);
        RunSound(g, algo, start, end, Step(g, algo, s));
      }
    }
  }

  /** Both searches, run from the start: sound and complete. */
  lemma SearchSound(g: Grid, algo: Algorithm, start: Pos, end: Pos)
    requires WellFormed(g)
    ensures SoundResult(g, start, end, Search(g, algo, start, end))
  {
    InitialInv(g, start, end);
    RunSound(g, algo, start, end, InitialState(start));
  }

  // ---------------------------------------------------------------------------
  // Breadth-first search finds a shortest walk

  /**
    The extra breadth-first invariant, over a ghost map `depth` that gives
    every visited cell the length of the partial path that discovered it:
    frontier lengths are sorted and span at most one, each waiting path has
    the depth of its last cell, and no walk reaches a visited cell in fewer
    cells than its depth.
  */
  ghost predicate BfsInv(g: Grid, start: Pos, end: Pos, s: SearchState, depth: map<Pos, int>)
    requires WellFormed(g)
  {
    Inv(g, start, end, s) && DepthInv(s, depth) && ShapeInv(s) && ShortestInv(g, start, depth)
  }

  ghost predicate DepthInv(s: SearchState, depth: map<Pos, int>) {
    && depth.Keys == s.visited
    && (forall q :: q in s.frontier && |q| > 0 ==> Last(q) in depth && depth[Last(q)] == |q|)
  }

  ghost predicate ShapeInv(s: SearchState) {
    && (forall i, j :: 0 <= i <= j < |s.frontier| ==> |s.frontier[i]| <= |s.frontier[j]|)
    && (forall i :: 0 <= i < |s.frontier| ==> |s.frontier[i]| <= |s.frontier[0]| + 1)
  }

  ghost predicate ShortestInv(g: Grid, start: Pos, depth: map<Pos, int>)
    requires WellFormed(g)
  {
    forall w :: IsWalk(g, start, w) && Last(w) in depth ==> depth[Last(w)] <= |w|
  }

  /** The depths after a breadth-first turn: newly visited cells are one deeper than the popped path. */
  ghost function NextDepth(depth: map<Pos, int>, visited: set<Pos>, d: int): (r: map<Pos, int>)
    ensures r.Keys == visited
    ensures forall x :: x in r ==> r[x] == if x in depth then depth[x] else d
  {
    map x | x in visited :: if x in depth then depth[x] else d
  }

  /** A walk from inside a set to outside it leaves it at some step. */
  lemma FirstExit(w: seq<Pos>, inside: set<Pos>) returns (j: int)
    requires |w| > 0 && w[0] in inside && Last(w) !in inside
    ensures 0 < j < |w| && w[j - 1] in inside && w[j] !in inside
  {
    j := 1;
    while w[j] in inside
      invariant 0 < j < |w| && w[j - 1] in inside
      decreases |w| - j
    {
      j := j + 1;
    }
  }

  /** A cell not yet visited is at least one cell farther than the head of the frontier. */
  lemma UnvisitedIsFar(g: Grid, start: Pos, end: Pos, s: SearchState, depth: map<Pos, int>, w: seq<Pos>)
    requires WellFormed(g) && BfsInv(g, start, end, s, depth) && |s.frontier| > 0
    requires IsWalk(g, start, w) && Last(w) !in s.visited
    ensures |w| >= |s.frontier[0]| + 1
  {
    var j := FirstExit(w, s.visited);
    var v := w[j - 1];
    assert w[j] in Neighbours(v) && Passable(g, w[j]);
    assert !Closed(g, s.visited, end, v);
    var q :| q in s.frontier && |q| > 0 && Last(q) == v;
    var i :| 0 <= i < |s.frontier| && s.frontier[i] == q;
    WalkPrefix(g, start, w, j);
    assert Last(w[..j]) == v;
    assert depth[v] <= j;
    assert |s.frontier[0]| <= |q|;
  }

  lemma BfsStepDepth(g: Grid, s: SearchState, depth: map<Pos, int>)
    requires WellFormed(g) && |s.frontier| > 0 && (forall q :: q in s.frontier ==> |q| > 0)
    requires DepthInv(s, depth)
    ensures var s' := Step(g, BreadthFirst, s);
      DepthInv(s', NextDepth(depth, s'.visited, |s.frontier[0]| + 1))
  {
    var path, rest, found := StepFacts(g, BreadthFirst, s);
    var s' := Step(g, BreadthFirst, s);
    var ext := Extensions(path, found);
    var depth' := NextDepth(depth, s'.visited, |path| + 1);
    forall q | q in s'.frontier && |q| > 0
      ensures Last(q) in depth' && depth'[Last(q)] == |q|
    {
      if q in rest {
        assert q in s.frontier;
      } else {
        assert q in ext;
        var k :| 0 <= k < |ext| && ext[k] == q;
        ExtensionLast(path, found, k);
        assert found[k] in found;
      }
    }
  }

  lemma ShapeOf(s: SearchState, f: seq<seq<Pos>>)
    requires s.frontier == f
    requires forall i, j :: 0 <= i <= j < |f| ==> |f[i]| <= |f[j]|
    requires forall i :: 0 <= i < |f| ==> |f[i]| <= |f[0]| + 1
    ensures ShapeInv(s)
  {
  }

  lemma BfsStepShape(g: Grid, s: SearchState)
    requires WellFormed(g) && |s.frontier| > 0 && (forall q :: q in s.frontier ==> |q| > 0)
    requires ShapeInv(s)
    ensures ShapeInv(Step(g, BreadthFirst, s))
  {
    var path, found := StepFrontier(g, s);
    var ext := Extensions(path, found);
    BfsFrontierShape(s.frontier, ext, |path|);
    ShapeOf(Step(g, BreadthFirst, s), s.frontier[1..] + ext);
  }

  lemma BfsStepShortest(g: Grid, start: Pos, end: Pos, s: SearchState, depth: map<Pos, int>)
    requires WellFormed(g) && BfsInv(g, start, end, s, depth) && |s.frontier| > 0
    ensures var s' := Step(g, BreadthFirst, s);
      ShortestInv(g, start, NextDepth(depth, s'.visited, |s.frontier[0]| + 1))
  {
    var s' := Step(g, BreadthFirst, s);
    var depth' := NextDepth(depth, s'.visited, |s.frontier[0]| + 1);
    forall w | IsWalk(g, start, w) && Last(w) in depth'
      ensures depth'[Last(w)] <= |w|
    {
      if Last(w) !in depth {
        UnvisitedIsFar(g, start, end, s, depth, w);
      }
    }
  }

  /** The result ensured by breadth-first search: no walk to the end is shorter than the reported path. */
  ghost predicate Shortest(g: Grid, start: Pos, end: Pos, r: SearchResult)
    requires WellFormed(g)
  {
    r.path.Some? ==> forall w :: IsWalk(g, start, w) && Last(w) == end ==> |r.path.value| <= |w|
  }

  lemma {:induction false} BfsRunShortest(g: Grid, start: Pos, end: Pos, s: SearchState, depth: map<Pos, int>)
    requires WellFormed(g) && BfsInv(g, start, end, s, depth)
    ensures Shortest(g, start, end, Run(g, BreadthFirst, end, s))
    decreases AllPositions() - s.visited, |s.frontier|
  {
    if |s.frontier| > 0 {
      var path := s.frontier[0];
      if Last(path) == end {
        assert path in s.frontier;
      } else {
        var s' := Step(g, BreadthFirst, s);
        var depth' := NextDepth(depth, s'.visited, |path| + 1);
        StepInv(g, BreadthFirst, start, end, s);
        BfsStepDepth(g, s, depth);
        BfsStepShape(g, s);
        BfsStepShortest(g, start, end, s, depth);
        BfsRunShortest(g, start, end, s', depth');
      }
    }
  }

  lemma BfsSearchShortest(g: Grid, start: Pos, end: Pos)
    requires WellFormed(g)
    ensures Shortest(g, start, end, Search(g, BreadthFirst, start, end))
  {
    var s := InitialState(start);
    InitialInv(g, start, end);
    var depth := map[start := 1];
    forall w | IsWalk(g, start, w) && Last(w) in depth
      ensures depth[Last(w)] <= |w|
    {
    }
    assert BfsInv(g, start, end, s, depth);
    BfsRunShortest(g, start, end, s, depth);
  }
}

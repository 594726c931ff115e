/**
  The two searches of the pathfinding page and what a run paints onto the
  grid. Breadth-first search pops the oldest partial path, depth-first search
  the newest; both report the cells in discovery order and, when the end is
  reached, the path that reached it.
*/
module Pathfinding {
  import opened Wrappers
  import opened GridModel
  import opened Walks
  import opened SearchEngine
  import SearchProofs

  // ---------------------------------------------------------------------------
  // Counting what a run can discover

  lemma {:induction false} DistinctCardinality(d: seq<Pos>)
    requires Distinct(d)
    ensures |set x | x in d| == |d|
  {
    if d != [] {
      var tail := d[1..];
      DistinctCardinality(tail);
      assert (set x | x in d) == {d[0]} + (set x | x in tail);
      assert d[0] !in tail;
    }
  }

  lemma {:induction false} SubsetCardinality(a: set<Pos>, b: set<Pos>)
    requires a <= b
    ensures |a| <= |b|
    decreases |a|
  {
    if a != {} {
      var x :| x in a;
      SubsetCardinality(a - {x}, b - {x});
    }
  }

  /** A repetition-free sequence of board cells that avoids the start has fewer entries than the board has cells. */
  lemma DiscoveryBound(d: seq<Pos>, start: Pos)
    requires Distinct(d) && start !in d && InBounds(start)
    requires forall x :: x in d ==> InBounds(x)
    ensures |d| < NumRows * NumCols
  {
    DistinctCardinality(d);
    PositionCount();
    SubsetCardinality((set x | x in d), AllPositions() - {start});
  }

  // ---------------------------------------------------------------------------
  // The searches

  /**
    Breadth-first search. No cell is discovered twice and the start is never
    discovered; every discovered cell is passable; a reported path is a
    repetition-free wall-avoiding walk from start to end, no longer than any
    other; a path is reported exactly when the end is reachable, and when it is
    not, the discovered cells are exactly the other cells reachable from the start.
  */
  function Bfs(g: Grid, start: Pos, end: Pos): (r: SearchResult)
    requires WellFormed(g)
    ensures Distinct(r.discovered) && start !in r.discovered
    ensures forall x :: x in r.discovered ==> Passable(g, x)
    ensures InBounds(start) ==> |r.discovered| < NumRows * NumCols
    ensures r.path.Some? ==> IsWalk(g, start, r.path.value) && Distinct(r.path.value) && Last(r.path.value) == end
    ensures r.path.Some? ==> forall x :: x in r.path.value ==> x == start || x in r.discovered
    ensures r.path.Some? <==> Reaches(g, start, end)
    ensures r.path.None? ==> forall x :: Reaches(g, start, x) <==> x == start || x in r.discovered
    ensures r.path.Some? ==> forall w :: IsWalk(g, start, w) && Last(w) == end ==> |r.path.value| <= |w|
  {
    var r := Search(g, BreadthFirst, start, end);
    SearchProofs.SearchSound(g, BreadthFirst, start, end);
    SearchProofs.BfsSearchShortest(g, start, end);
    if InBounds(start) then DiscoveryBound(r.discovered, start); r else r
  }

  /**
    Depth-first search: the same guarantees as breadth-first search except
    that the reported path need not be a shortest one.
  */
  function Dfs(g: Grid, start: Pos, end: Pos): (r: SearchResult)
    requires WellFormed(g)
    ensures Distinct(r.discovered) && start !in r.discovered
    ensures forall x :: x in r.discovered ==> Passable(g, x)
    ensures InBounds(start) ==> |r.discovered| < NumRows * NumCols
    ensures r.path.Some? ==> IsWalk(g, start, r.path.value) && Distinct(r.path.value) && Last(r.path.value) == end
    ensures r.path.Some? ==> forall x :: x in r.path.value ==> x == start || x in r.discovered
    ensures r.path.Some? <==> Reaches(g, start, end)
    ensures r.path.None? ==> forall x :: Reaches(g, start, x) <==> x == start || x in r.discovered
  {
    var r := Search(g, DepthFirst, start, end);
    SearchProofs.SearchSound(g, DepthFirst, start, end);
    if InBounds(start) then DiscoveryBound(r.discovered, start); r else r
  }

  /** The search the page's algorithm selector chooses. */
  function RunSearch(g: Grid, algo: Algorithm, start: Pos, end: Pos): (r: SearchResult)
    requires WellFormed(g)
    ensures start !in r.discovered
    ensures r.path.Some? ==> forall x :: x in r.path.value ==> x == start || x in r.discovered
  {
    match algo
    case BreadthFirst => Bfs(g, start, end)
    case DepthFirst => Dfs(g, start, end)
  }

  /** When start and end coincide, the first popped path is the one-cell path and nothing is discovered. */
  lemma StartIsEnd(g: Grid, algo: Algorithm, p: Pos)
    requires WellFormed(g)
    ensures RunSearch(g, algo, p, p) == SearchResult([], Some([p]))
  {
  }

  /** An end that is a wall or off the board, and not the start, is never reached. */
  lemma BlockedEndUnreachable(g: Grid, algo: Algorithm, start: Pos, end: Pos)
    requires WellFormed(g) && start != end && !Passable(g, end)
    ensures RunSearch(g, algo, start, end).path == None
  {
    forall w | IsWalk(g, start, w)
      ensures Last(w) != end
    {
      if |w| > 1 {
        assert Passable(g, w[|w| - 1]);
      }
    }
  }

  /** On a board without walls, breadth-first search finds a path whose number of steps is the Manhattan distance. */
  lemma OpenGridBfsIsManhattan(g: Grid, start: Pos, end: Pos)
    requires WellFormed(g) && NoWalls(g) && InBounds(start) && InBounds(end)
    ensures Bfs(g, start, end).path.Some?
    ensures |Bfs(g, start, end).path.value| - 1 == Manhattan(start, end)
  {
    var stairs := Staircase(start, end);
    StaircaseIsWalk(g, start, end);
    assert Reaches(g, start, end);
    var p := Bfs(g, start, end).path.value;
    assert |p| <= |stairs|;
    WalkAtLeastManhattan(g, start, p);
  }

  /** Whenever both searches find a path, the breadth-first one has no more steps. */
  lemma BfsNoLongerThanDfs(g: Grid, start: Pos, end: Pos)
    requires WellFormed(g)
    ensures Bfs(g, start, end).path.Some? <==> Dfs(g, start, end).path.Some?
    ensures Bfs(g, start, end).path.Some? ==> |Bfs(g, start, end).path.value| <= |Dfs(g, start, end).path.value|
  {
  }

  // ---------------------------------------------------------------------------
  // What a run paints

  /** The discovery events in order, then the path event if there is one. */
  function ApplyResult(g: Grid, r: SearchResult): (painted: Grid)
    ensures SameShape(painted, g)
    ensures forall i, j :: 0 <= i < |g| && 0 <= j < |g[i]| ==>
      && SameLayout(painted[i][j], g[i][j])
      && (painted[i][j].isVisited <==> g[i][j].isVisited || Pos(i, j) in r.discovered)
      && (painted[i][j].isPath <==> if r.path.Some? then Pos(i, j) in r.path.value else g[i][j].isPath)
  {
    var visited := MarkAllVisited(g, r.discovered);
    if r.path.Some? then MarkPath(visited, r.path.value) else visited
  }

  /**
    The grid after a run: the flags are cleared, then the run's events are
    applied. Only the two search flags change; a cell is visited exactly when
    it was discovered and on the path exactly when it lies on the reported
    path, and every path cell is the start or a discovered cell.
  */
  function HandleRun(g: Grid, algo: Algorithm, start: Pos, end: Pos): (r: Grid)
    requires WellFormed(g)
    ensures WellFormed(r)
    ensures forall i, j :: 0 <= i < NumRows && 0 <= j < NumCols ==>
      && SameLayout(r[i][j], g[i][j])
      && (r[i][j].isVisited <==> Pos(i, j) in RunSearch(g, algo, start, end).discovered)
      && (r[i][j].isPath <==> RunSearch(g, algo, start, end).path.Some? && Pos(i, j) in RunSearch(g, algo, start, end).path.value)
    ensures forall i, j :: 0 <= i < NumRows && 0 <= j < NumCols && r[i][j].isPath ==>
      r[i][j].isVisited || Pos(i, j) == start
  {
    ApplyResult(ClearFlags(g), RunSearch(g, algo, start, end))
  }
}

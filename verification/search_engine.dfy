/**
  The search loop shared by breadth-first and depth-first search. The frontier
  holds whole partial paths from the start; the visited set is seeded with
  the start; a cell is marked visited (and recorded as discovered) the moment
  it is pushed; the search stops at the first popped path that ends at the
  end cell. The two searches differ only in which end of the frontier is
  popped.
*/
module SearchEngine {
  import opened Wrappers
  import opened GridModel
  import opened Walks

  datatype Algorithm = BreadthFirst | DepthFirst

  datatype SearchState = SearchState(frontier: seq<seq<Pos>>, visited: set<Pos>, discovered: seq<Pos>)

  /**
    What one run produces: the cells in the order they were discovered (one
    visited-flag update each) and, when the end was popped, the path that
    reached it (the path-flag update).
  */
  datatype SearchResult = SearchResult(discovered: seq<Pos>, path: Option<seq<Pos>>)

  /** The three conditions a neighbour must meet to be pushed. */
  predicate Eligible(g: Grid, visited: set<Pos>, p: Pos)
    requires WellFormed(g)
  {
    InBounds(p) && p !in visited && !g[p.row][p.col].isWall
  }

  /** Reference: the candidates eligible against one fixed visited set, in candidate order. */
  function Discoverable(g: Grid, visited: set<Pos>, cands: seq<Pos>): (r: seq<Pos>)
    requires WellFormed(g)
    ensures forall x :: x in r <==> x in cands && Eligible(g, visited, x)
    ensures Distinct(cands) ==> Distinct(r)
    ensures |r| <= |cands|
  {
    if cands == [] then []
    else (if Eligible(g, visited, cands[0]) then [cands[0]] else []) + Discoverable(g, visited, cands[1..])
  }

  /** Adding a cell that is not a candidate to the visited set does not change which candidates are eligible. */
  lemma {:induction false} DiscoverableIgnores(g: Grid, visited: set<Pos>, x: Pos, cands: seq<Pos>)
    requires WellFormed(g) && x !in cands
    ensures Discoverable(g, visited + {x}, cands) == Discoverable(g, visited, cands)
  {
    if cands != [] {
      DiscoverableIgnores(g, visited, x, cands[1..]);
    }
  }

  /** The partial paths pushed for the cells in `found`, in order. */
  function Extensions(path: seq<Pos>, found: seq<Pos>): (r: seq<seq<Pos>>)
    ensures |r| == |found|
    ensures forall i :: 0 <= i < |r| ==> r[i] == path + [found[i]]
    ensures forall q :: q in r ==> |q| == |path| + 1
  {
    seq(|found|, i requires 0 <= i < |found| => path + [found[i]])
  }

  /**
    Expansion of the last cell of `path`, trying its neighbours from index `k`
    on: every eligible neighbour is marked visited, recorded as discovered and
    pushed as `path` extended by it; the closed form says the run over the
    candidates discovers exactly the eligible ones, in neighbour order.
  */
  function Expand(g: Grid, path: seq<Pos>, k: nat, s: SearchState): (r: SearchState)
    requires WellFormed(g) && |path| > 0 && k <= 4
    ensures var found := Discoverable(g, s.visited, Neighbours(Last(path))[k..]);
      && r.discovered == s.discovered + found
      && r.visited == s.visited + (set x | x in found)
      && r.frontier == s.frontier + Extensions(path, found)
    decreases 4 - k
  {
    if k == 4 then s
    else
      var cands := Neighbours(Last(path));
      var n := cands[k];
      var s' := if Eligible(g, s.visited, n)
        then SearchState(s.frontier + [path + [n]], s.visited + {n}, s.discovered + [n])
        else s;
      var r := Expand(g, path, k + 1, s');
      NeighboursDistinct(Last(path));
      assert cands[k..] == [n] + cands[k + 1..];
      ExpandStep(g, path, n, cands[k + 1..], s, s', r);
      r
  }

  lemma ConcatAssoc<T>(a: seq<T>, b: seq<T>, c: seq<T>)
    ensures a + (b + c) == (a + b) + c
  {
  }

  lemma ExtensionsCons(path: seq<Pos>, n: Pos, later: seq<Pos>)
    ensures Extensions(path, [n] + later) == [path + [n]] + Extensions(path, later)
  {
  }

  /** The induction step behind the closed form of Expand: candidate `n` is tried first, then `later`. */
  lemma ExpandStep(g: Grid, path: seq<Pos>, n: Pos, tail: seq<Pos>, s: SearchState, s': SearchState, r: SearchState)
    requires WellFormed(g) && n !in tail
    requires s' == if Eligible(g, s.visited, n)
        then SearchState(s.frontier + [path + [n]], s.visited + {n}, s.discovered + [n])
        else s
    requires var later := Discoverable(g, s'.visited, tail);
      && r.discovered == s'.discovered + later
      && r.visited == s'.visited + (set x | x in later)
      && r.frontier == s'.frontier + Extensions(path, later)
    ensures var found := Discoverable(g, s.visited, [n] + tail);
      && r.discovered == s.discovered + found
      && r.visited == s.visited + (set x | x in found)
      && r.frontier == s.frontier + Extensions(path, found)
  {
    DiscoverableIgnores(g, s.visited, n, tail);
    var later := Discoverable(g, s.visited, tail);
    var found := Discoverable(g, s.visited, [n] + tail);
    assert ([n] + tail)[1..] == tail;
    if Eligible(g, s.visited, n) {
      assert found == [n] + later;
      assert r.discovered == s.discovered + found by {
        ConcatAssoc(s.discovered, [n], later);
      }
      assert r.visited == s.visited + (set x | x in found) by {
        assert (set x | x in found) == {n} + (set x | x in later);
      }
      assert r.frontier == s.frontier + Extensions(path, found) by {
        ExtensionsCons(path, n, later);
        ConcatAssoc(s.frontier, [path + [n]], Extensions(path, later));
      }
    } else {
      assert found == later;
    }
  }

  /** Removes the path to expand next: the oldest for breadth-first, the newest for depth-first. */
  function Pop(algo: Algorithm, frontier: seq<seq<Pos>>): (r: (seq<Pos>, seq<seq<Pos>>))
    requires |frontier| > 0
    ensures |r.1| + 1 == |frontier|
    ensures r.0 in frontier
    ensures forall q :: q in r.1 ==> q in frontier
    ensures forall q :: q in frontier ==> q == r.0 || q in r.1
    ensures algo == BreadthFirst ==> r.0 == frontier[0] && r.1 == frontier[1..]
    ensures algo == DepthFirst ==> r.0 == Last(frontier) && r.1 == frontier[..|frontier| - 1]
  {
    match algo
    case BreadthFirst => (frontier[0], frontier[1..])
    case DepthFirst => (Last(frontier), frontier[..|frontier| - 1])
  }

  /**
    One turn of the loop when the popped path does not end at the end cell:
    expansion of its last cell over the remaining frontier. Either some cell
    of the board becomes visited, or the frontier shrinks by one.
  */
  function Step(g: Grid, algo: Algorithm, s: SearchState): (r: SearchState)
    requires WellFormed(g) && |s.frontier| > 0
    requires forall q :: q in s.frontier ==> |q| > 0
    ensures forall q :: q in r.frontier ==> |q| > 0
    ensures s.visited <= r.visited
    ensures (AllPositions() - r.visited < AllPositions() - s.visited)
         || (r.visited == s.visited && |r.frontier| < |s.frontier|)
  {
    var (path, rest) := Pop(algo, s.frontier);
    var r := Expand(g, path, 0, SearchState(rest, s.visited, s.discovered));
    StepProgress(g, s, path, rest, r);
    r
  }

  lemma StepProgress(g: Grid, s: SearchState, path: seq<Pos>, rest: seq<seq<Pos>>, r: SearchState)
    requires WellFormed(g) && |path| > 0 && |rest| + 1 == |s.frontier|
    requires forall q :: q in rest ==> |q| > 0
    requires r == Expand(g, path, 0, SearchState(rest, s.visited, s.discovered))
    ensures forall q :: q in r.frontier ==> |q| > 0
    ensures s.visited <= r.visited
    ensures (AllPositions() - r.visited < AllPositions() - s.visited)
         || (r.visited == s.visited && |r.frontier| < |s.frontier|)
  {
    var found := Discoverable(g, s.visited, Neighbours(Last(path))[0..]);
    PushedPathsNonempty(path, rest, Extensions(path, found), r.frontier);
    VisitedProgress(g, s.visited, found, r.visited, |rest|, |r.frontier|, |s.frontier|);
  }

  lemma PushedPathsNonempty(path: seq<Pos>, rest: seq<seq<Pos>>, ext: seq<seq<Pos>>, frontier: seq<seq<Pos>>)
    requires |path| > 0 && frontier == rest + ext
    requires forall q :: q in rest ==> |q| > 0
    requires forall q :: q in ext ==> |q| == |path| + 1
    ensures forall q :: q in frontier ==> |q| > 0
  {
    forall q | q in frontier
      ensures |q| > 0
    {
      if q !in rest {
        assert q in ext;
      }
    }
  }

  lemma VisitedProgress(g: Grid, visited: set<Pos>, found: seq<Pos>, visited': set<Pos>, restLen: nat, newLen: nat, oldLen: nat)
    requires WellFormed(g)
    requires forall x :: x in found ==> Eligible(g, visited, x)
    requires visited' == visited + (set x | x in found)
    requires newLen == restLen + |found| && restLen + 1 == oldLen
    ensures visited <= visited'
    ensures (AllPositions() - visited' < AllPositions() - visited) || (visited' == visited && newLen < oldLen)
  {
    if found == [] {
      assert (set x | x in found) == {};
    } else {
      var x := found[0];
      assert x in found;
      assert x in AllPositions() - visited;
      assert x !in AllPositions() - visited';
    }
  }

  /** The loop of both searches, from a given state. */
  function Run(g: Grid, algo: Algorithm, end: Pos, s: SearchState): SearchResult
    requires WellFormed(g)
    requires forall q :: q in s.frontier ==> |q| > 0
    decreases AllPositions() - s.visited, |s.frontier|
  {
    if |s.frontier| == 0 then SearchResult(s.discovered, None)
    else
      var path := Pop(algo, s.frontier).0;
      if Last(path) == end then SearchResult(s.discovered, Some(path))
      else Run(g, algo, end, Step(g, algo, s))
  }

  /** The state before the loop: one partial path holding the start, which is already visited. */
  function InitialState(start: Pos): SearchState {
    SearchState([[start]], {start}, [])
  }

  function Search(g: Grid, algo: Algorithm, start: Pos, end: Pos): SearchResult
    requires WellFormed(g)
  {
    Run(g, algo, end, InitialState(start))
  }
}

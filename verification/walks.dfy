/**
  Movement on the board: the four neighbours of a cell in the order the
  search tries them, walks that avoid walls, reachability, and the Manhattan
  distance that bounds the length of every walk.
*/
module Walks {
  import opened GridModel

  function Last<T>(s: seq<T>): T
    requires |s| > 0
  {
    s[|s| - 1]
  }

  /** The neighbours of `p` in the order the search expands them: right, down, left, up. */
  function Neighbours(p: Pos): seq<Pos> {
    [Pos(p.row, p.col + 1), Pos(p.row + 1, p.col), Pos(p.row, p.col - 1), Pos(p.row - 1, p.col)]
  }

  predicate Adjacent(a: Pos, b: Pos) {
    b in Neighbours(a)
  }

  function Abs(x: int): nat {
    if x < 0 then -x else x
  }

  function Manhattan(a: Pos, b: Pos): nat {
    Abs(a.row - b.row) + Abs(a.col - b.col)
  }

  /** The four neighbours are exactly the cells one unit step away. */
  lemma AdjacentIsUnitStep(a: Pos, b: Pos)
    ensures Adjacent(a, b) <==> Manhattan(a, b) == 1
  {
  }

  lemma NeighboursDistinct(p: Pos)
    ensures Distinct(Neighbours(p))
  {
  }

  /** A cell a walk may enter: on the board and not a wall. */
  predicate Passable(g: Grid, p: Pos)
    requires WellFormed(g)
  {
    InBounds(p) && !g[p.row][p.col].isWall
  }

  /** In a grid built from a layout, a cell can be stepped on exactly when it is on the board and not listed as a wall. */
  lemma CreatedPassable(start: Pos, end: Pos, walls: seq<Pos>, p: Pos)
    ensures Passable(CreateGrid(start, end, walls), p) <==> InBounds(p) && p !in walls
  {
  }

  /**
    A wall-avoiding 4-neighbour walk from `start`: it begins at `start`, every
    later cell is passable, and consecutive cells are neighbours. The start
    cell itself is not checked, as the search never checks it either.
  */
  ghost predicate IsWalk(g: Grid, start: Pos, w: seq<Pos>)
    requires WellFormed(g)
  {
    && |w| > 0
    && w[0] == start
    && forall i :: 0 < i < |w| ==> Passable(g, w[i]) && Adjacent(w[i - 1], w[i])
  }

  ghost predicate Reaches(g: Grid, start: Pos, x: Pos)
    requires WellFormed(g)
  {
    exists w :: IsWalk(g, start, w) && Last(w) == x
  }

  /** A prefix of a walk is a walk. */
  lemma WalkPrefix(g: Grid, start: Pos, w: seq<Pos>, n: int)
    requires WellFormed(g) && IsWalk(g, start, w) && 0 < n <= |w|
    ensures IsWalk(g, start, w[..n])
  {
  }

  /** Every step of a walk changes the Manhattan distance to its start by at most one. */
  lemma {:induction false} WalkAtLeastManhattan(g: Grid, start: Pos, w: seq<Pos>)
    requires WellFormed(g) && IsWalk(g, start, w)
    ensures |w| - 1 >= Manhattan(start, Last(w))
    decreases |w|
  {
    if |w| > 1 {
      var w' := w[..|w| - 1];
      WalkPrefix(g, start, w, |w| - 1);
      WalkAtLeastManhattan(g, start, w');
      assert Adjacent(Last(w'), Last(w));
      AdjacentIsUnitStep(Last(w'), Last(w));
    }
  }

  predicate NoWalls(g: Grid)
    requires WellFormed(g)
  {
    forall r, c :: 0 <= r < NumRows && 0 <= c < NumCols ==> !g[r][c].isWall
  }

  predicate Between(x: int, a: int, b: int) {
    (a <= x <= b) || (b <= x <= a)
  }

  /** One step from `a` toward `b`, along the row first. */
  function Toward(a: Pos, b: Pos): (t: Pos)
    requires a != b
    ensures Adjacent(a, t)
    ensures Manhattan(t, b) + 1 == Manhattan(a, b)
    ensures Between(t.row, a.row, b.row) && Between(t.col, a.col, b.col)
  {
    if a.col < b.col then Pos(a.row, a.col + 1)
    else if a.col > b.col then Pos(a.row, a.col - 1)
    else if a.row < b.row then Pos(a.row + 1, a.col)
    else Pos(a.row - 1, a.col)
  }

  /** A shortest walk from `a` to `b` on an open board: first along the row, then along the column. */
  function Staircase(a: Pos, b: Pos): (w: seq<Pos>)
    ensures |w| == Manhattan(a, b) + 1
    ensures w[0] == a && Last(w) == b
    ensures forall i :: 0 < i < |w| ==> Adjacent(w[i - 1], w[i])
    ensures forall i :: 0 <= i < |w| ==> Between(w[i].row, a.row, b.row) && Between(w[i].col, a.col, b.col)
    decreases Manhattan(a, b)
  {
    if a == b then [a] else [a] + Staircase(Toward(a, b), b)
  }

  /** On a board without walls, the staircase between two cells of the board is a walk. */
  lemma StaircaseIsWalk(g: Grid, a: Pos, b: Pos)
    requires WellFormed(g) && NoWalls(g) && InBounds(a) && InBounds(b)
    ensures IsWalk(g, a, Staircase(a, b))
  {
    var w := Staircase(a, b);
    forall i | 0 < i < |w|
      ensures Passable(g, w[i])
    {
      assert InBounds(w[i]);
    }
  }
}

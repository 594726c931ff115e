/**
  The edits the pathfinding page accepts: a click on a cell toggles a wall,
  moves the start or moves the end, depending on the selected mode; reset
  drops every wall. The layout (start, end, wall list) is the state; the grid
  shown is rebuilt from it with CreateGrid after every change.
*/
module GridEditor {
  import opened GridModel

  datatype Mode = WallMode | StartMode | EndMode

  /** The page state the grid is built from. */
  datatype Layout = Layout(start: Pos, end: Pos, walls: seq<Pos>)

  /**
    The layout the page opens with: start (2, 2) and end (9, 20), two distinct
    cells of the board, and no walls; the grid first shown has neither a wall
    nor a search flag.
  */
  function InitialLayout(): (l: Layout)
    ensures InBounds(l.start) && InBounds(l.end) && l.start != l.end && l.walls == []
    ensures l.start == Pos(2, 2) && l.end == Pos(9, 20)
  {
    Layout(Pos(2, 2), Pos(9, 20), [])
  }

  /** The grid shown for the opening layout: the start and end cells are marked, no cell is a wall or carries a search flag. */
  lemma InitialGrid()
    ensures var l := InitialLayout();
      var g := CreateGrid(l.start, l.end, l.walls);
      && WellFormed(g)
      && g[2][2].isStart && g[9][20].isEnd
      && forall r, c :: 0 <= r < NumRows && 0 <= c < NumCols ==> !g[r][c].isWall && !g[r][c].isVisited && !g[r][c].isPath
  {
  }

  /** The wall list without any entry at `p`, order kept. */
  function RemoveWall(walls: seq<Pos>, p: Pos): (r: seq<Pos>)
    ensures forall q :: q in r <==> q in walls && q != p
    ensures p !in walls ==> r == walls
    ensures Distinct(walls) ==> Distinct(r)
  {
    if walls == [] then []
    else
      var rest := RemoveWall(walls[1..], p);
      assert Distinct(walls) ==> Distinct(walls[1..]) && walls[0] !in walls[1..];
      if walls[0] == p then rest
      else
        assert forall j :: 0 < j < |rest| + 1 ==> ([walls[0]] + rest)[j] == rest[j - 1];
        [walls[0]] + rest
  }

  /** A wall-mode click: a listed position is removed, any other one is appended. */
  function ToggleWall(walls: seq<Pos>, p: Pos): (r: seq<Pos>)
    ensures p in r <==> p !in walls
    ensures forall q :: q != p ==> (q in r <==> q in walls)
    ensures Distinct(walls) ==> Distinct(r)
  {
    if p in walls then RemoveWall(walls, p) else walls + [p]
  }

  /** Toggling the same cell twice gives back the same set of walls, and the very same list when the cell was not a wall. */
  lemma ToggleTwice(walls: seq<Pos>, p: Pos)
    ensures forall q :: q in ToggleWall(ToggleWall(walls, p), p) <==> q in walls
    ensures p !in walls ==> ToggleWall(ToggleWall(walls, p), p) == walls
  {
    if p !in walls {
      assert RemoveWall(walls + [p], p) == walls by {
        RemoveAppended(walls, p);
      }
    }
  }

  lemma {:induction false} RemoveAppended(walls: seq<Pos>, p: Pos)
    requires p !in walls
    ensures RemoveWall(walls + [p], p) == walls
  {
    if walls == [] {
      assert RemoveWall([p], p) == RemoveWall([], p);
    } else {
      assert (walls + [p])[1..] == walls[1..] + [p];
      RemoveAppended(walls[1..], p);
    }
  }

  /**
    A click on cell (row, col). In wall mode only the wall set changes, and
    only at that cell; in start or end mode only that position moves and the
    wall list is left as it is, even when the new position holds a wall.
  */
  function HandleCellClick(l: Layout, mode: Mode, row: int, col: int): (r: Layout)
    ensures mode == WallMode ==>
      && r.start == l.start && r.end == l.end
      && (Pos(row, col) in r.walls <==> Pos(row, col) !in l.walls)
      && (forall q :: q != Pos(row, col) ==> (q in r.walls <==> q in l.walls))
    ensures mode == StartMode ==> r.start == Pos(row, col) && r.end == l.end && r.walls == l.walls
    ensures mode == EndMode ==> r.end == Pos(row, col) && r.start == l.start && r.walls == l.walls
  {
    match mode
    case WallMode => l.(walls := ToggleWall(l.walls, Pos(row, col)))
    case StartMode => l.(start := Pos(row, col))
    case EndMode => l.(end := Pos(row, col))
  }

  /** Two wall-mode clicks on the same cell leave the start, the end and the set of walls as they were. */
  lemma WallClickTwice(l: Layout, row: int, col: int)
    ensures var r := HandleCellClick(HandleCellClick(l, WallMode, row, col), WallMode, row, col);
      r.start == l.start && r.end == l.end && (forall q :: q in r.walls <==> q in l.walls)
  {
    ToggleTwice(l.walls, Pos(row, col));
  }

  /**
    A wall-mode click on the start cell is not refused: in the rebuilt grid
    value that cell has both the start flag and the wall flag set.
  */
  lemma WallOnStartIsAccepted(l: Layout)
    requires InBounds(l.start) && l.start !in l.walls
    ensures var r := HandleCellClick(l, WallMode, l.start.row, l.start.col);
      var g := CreateGrid(r.start, r.end, r.walls);
      g[l.start.row][l.start.col].isStart && g[l.start.row][l.start.col].isWall
  {
  }

  /**
    Reset: the walls are dropped and the grid is rebuilt from the kept start
    and end; the rebuilt grid has no wall and no search flag, and resetting
    twice is resetting once.
  */
  function HandleReset(l: Layout): (r: (Layout, Grid))
    ensures r.0.walls == [] && r.0.start == l.start && r.0.end == l.end
    ensures WellFormed(r.1)
    ensures forall i, j :: 0 <= i < NumRows && 0 <= j < NumCols ==>
      && !r.1[i][j].isWall && !r.1[i][j].isVisited && !r.1[i][j].isPath
      && (r.1[i][j].isStart <==> Pos(i, j) == l.start)
      && (r.1[i][j].isEnd <==> Pos(i, j) == l.end)
    ensures r.1 == CreateGrid(r.0.start, r.0.end, r.0.walls)
  {
    var l' := l.(walls := []);
    (l', CreateGrid(l.start, l.end, []))
  }

  lemma ResetIdempotent(l: Layout)
    ensures HandleReset(HandleReset(l).0) == HandleReset(l)
  {
  }
}

/**
  The grid of the pathfinding page: a fixed 12 x 24 board of cells, each cell
  carrying its coordinates, its role flags (start, end, wall) and the two
  search flags (visited, on the path) that a run paints onto it.
*/
module GridModel {

  const NumRows: int := 12
  const NumCols: int := 24

  /** A board coordinate; compared structurally, like the `{ row, col }` objects of the page. */
  datatype Pos = Pos(row: int, col: int)

  datatype Cell = Cell(
    row: int,
    col: int,
    isStart: bool,
    isEnd: bool,
    isWall: bool,
    isPath: bool,
    isVisited: bool)

  type Grid = seq<seq<Cell>>

  /** No entry occurs twice. */
  predicate Distinct<T(==)>(s: seq<T>) {
    forall i, j :: 0 <= i < j < |s| ==> s[i] != s[j]
  }

  predicate InBounds(p: Pos) {
    0 <= p.row < NumRows && 0 <= p.col < NumCols
  }

  /** The shape every grid of the page has: NumRows rows of NumCols cells. */
  predicate WellFormed(g: Grid) {
    |g| == NumRows && forall r :: 0 <= r < |g| ==> |g[r]| == NumCols
  }

  predicate SameShape(a: Grid, b: Grid) {
    |a| == |b| && forall i :: 0 <= i < |a| ==> |a[i]| == |b[i]|
  }

  /** Two cells agree on everything except the two search flags. */
  predicate SameLayout(a: Cell, b: Cell) {
    a.row == b.row && a.col == b.col && a.isStart == b.isStart && a.isEnd == b.isEnd && a.isWall == b.isWall
  }

  /** Every position of the board. */
  function AllPositions(): (s: set<Pos>)
    ensures forall p :: p in s <==> InBounds(p)
  {
    set r, c | 0 <= r < NumRows && 0 <= c < NumCols :: Pos(r, c)
  }

  // ---------------------------------------------------------------------------
  // Counting the board

  function RowPrefix(r: int, c: nat): set<Pos> {
    set j | 0 <= j < c :: Pos(r, j)
  }

  function Block(k: nat): set<Pos> {
    set r, c | 0 <= r < k && 0 <= c < NumCols :: Pos(r, c)
  }

  lemma {:induction false} RowPrefixSize(r: int, c: nat)
    ensures |RowPrefix(r, c)| == c
  {
    if c > 0 {
      RowPrefixSize(r, c - 1);
      assert RowPrefix(r, c) == RowPrefix(r, c - 1) + {Pos(r, c - 1)};
    }
  }

  lemma {:induction false} BlockSize(k: nat)
    ensures |Block(k)| == k * NumCols
  {
    if k > 0 {
      BlockSize(k - 1);
      RowPrefixSize(k - 1, NumCols);
      assert Block(k) == Block(k - 1) + RowPrefix(k - 1, NumCols);
      assert Block(k - 1) !! RowPrefix(k - 1, NumCols);
    }
  }

  /** The board has exactly NumRows * NumCols positions. */
  lemma PositionCount()
    ensures |AllPositions()| == NumRows * NumCols
  {
    BlockSize(NumRows);
    assert AllPositions() == Block(NumRows);
  }

  // ---------------------------------------------------------------------------
  // Building and repainting grids

  /**
    The grid the page shows for a layout: cell (r, c) knows its own
    coordinates, is the start or the end exactly when its position is that
    one, is a wall exactly when its position is listed among the walls, and
    carries no search flag.
  */
  function CreateGrid(start: Pos, end: Pos, walls: seq<Pos>): (g: Grid)
    ensures WellFormed(g)
    ensures forall r, c :: 0 <= r < NumRows && 0 <= c < NumCols ==>
      && g[r][c].row == r && g[r][c].col == c
      && (g[r][c].isStart <==> Pos(r, c) == start)
      && (g[r][c].isEnd <==> Pos(r, c) == end)
      && (g[r][c].isWall <==> Pos(r, c) in walls)
      && !g[r][c].isPath && !g[r][c].isVisited
  {
    seq(NumRows, r => seq(NumCols, c =>
      Cell(r, c, r == start.row && c == start.col, r == end.row && c == end.col, Pos(r, c) in walls, false, false)))
  }

  /** The pre-step of a run: every cell loses both search flags and keeps its layout. */
  function ClearFlags(g: Grid): (r: Grid)
    ensures SameShape(r, g)
    ensures forall i, j :: 0 <= i < |g| && 0 <= j < |g[i]| ==>
      SameLayout(r[i][j], g[i][j]) && !r[i][j].isVisited && !r[i][j].isPath
  {
    seq(|g|, i requires 0 <= i < |g| => seq(|g[i]|, j requires 0 <= j < |g[i]| => g[i][j].(isVisited := false, isPath := false)))
  }

  /** Clearing the flags twice is clearing them once. */
  lemma ClearFlagsIdempotent(g: Grid)
    ensures ClearFlags(ClearFlags(g)) == ClearFlags(g)
  {
    var once := ClearFlags(g);
    var twice := ClearFlags(once);
    assert |twice| == |once|;
    forall i | 0 <= i < |once|
      ensures twice[i] == once[i]
    {
      assert |twice[i]| == |once[i]|;
      forall j | 0 <= j < |once[i]|
        ensures twice[i][j] == once[i][j]
      {
      }
    }
  }

  /** One discovery event: the cell at `p` gains the visited flag, nothing else changes. */
  function MarkVisited(g: Grid, p: Pos): (r: Grid)
    ensures SameShape(r, g)
    ensures forall i, j :: 0 <= i < |g| && 0 <= j < |g[i]| ==>
      && SameLayout(r[i][j], g[i][j])
      && r[i][j].isPath == g[i][j].isPath
      && (r[i][j].isVisited <==> g[i][j].isVisited || Pos(i, j) == p)
  {
    seq(|g|, i requires 0 <= i < |g| => seq(|g[i]|, j requires 0 <= j < |g[i]| =>
      if i == p.row && j == p.col then g[i][j].(isVisited := true) else g[i][j]))
  }

  /** The discovery events of a run, applied in order. */
  function MarkAllVisited(g: Grid, ps: seq<Pos>): (r: Grid)
    ensures SameShape(r, g)
    ensures forall i, j :: 0 <= i < |g| && 0 <= j < |g[i]| ==>
      && SameLayout(r[i][j], g[i][j])
      && r[i][j].isPath == g[i][j].isPath
      && (r[i][j].isVisited <==> g[i][j].isVisited || Pos(i, j) in ps)
    decreases |ps|
  {
    if ps == [] then g else MarkAllVisited(MarkVisited(g, ps[0]), ps[1..])
  }

  /** The path event of a run: a cell is on the path exactly when its position occurs in `path`. */
  function MarkPath(g: Grid, path: seq<Pos>): (r: Grid)
    ensures SameShape(r, g)
    ensures forall i, j :: 0 <= i < |g| && 0 <= j < |g[i]| ==>
      && SameLayout(r[i][j], g[i][j])
      && r[i][j].isVisited == g[i][j].isVisited
      && (r[i][j].isPath <==> Pos(i, j) in path)
  {
    seq(|g|, i requires 0 <= i < |g| => seq(|g[i]|, j requires 0 <= j < |g[i]| =>
      g[i][j].(isPath := exists k :: 0 <= k < |path| && path[k].row == i && path[k].col == j)))
  }
}

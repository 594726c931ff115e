# Pathfinding and combinatorics pages, modelled in Dafny

This project models the logic of three pages of a small React front end.

- **Pathfinding visualizer.**
  - A fixed 12 x 24 grid of cells, each with a start, end and wall flag plus two search flags (visited, on the path).
  - Breadth-first and depth-first search over partial paths. Neighbours are tried right, down, left, up. A cell is marked visited when it is pushed. The search stops at the first popped path that ends at the end cell.
  - The editor: a click toggles a wall or moves the start or end, depending on the mode. Reset drops every wall. A run first clears the search flags.
- **Combinatorial analyzer.**
  - Factorial, permutations P(n), arrangements A(n, k) and combinations C(n, k).
  - The table of one of them for i = 0 .. n.
  - The guards on the n and k input fields.
- **Binomial calculator.**
  - The binomial coefficient and Pascal's triangle down to row n.
  - The bar chart of row n.
  - The same input guards.

Modules, one per file:

- `Wrappers`: the `Option` type. It represents an absent path and an input that did not parse.
- `GridModel`: cells, grids, `CreateGrid`, and the three flag updates a run makes.
- `Walks`: neighbours, wall-avoiding walks, reachability and Manhattan distance.
- `SearchEngine`: the loop shared by the two searches.
  - The state is a frontier of partial paths, a visited set and the discovery order.
  - Termination is by the pair (unvisited cells, frontier length).
- `SearchProofs`: the loop invariants, and the theorems they give.
  - Soundness and completeness for both searches.
  - Optimality for breadth-first search.
- `Pathfinding`: `Bfs`, `Dfs` and what a run paints onto the grid.
- `GridEditor`: cell clicks and reset.
- `Combinatorics`: the analyzer's formulas and its table.
- `InputGuards`: the n/k guards. Both pages share them.
- `Binomial`: the coefficient, the triangle and the chart.

Each search returns a pair: the cells in discovery order, one per `isVisited` update, and an optional path, the `isPath` update.

Three reference definitions serve as independent partners for the page formulas:

- `Falling`: the falling factorial.
- `Choose`: binomial coefficients by Pascal's rule.
- `Reaches`: an existential over walks.

The page divides JavaScript numbers. Here the quotients are exact rationals (`real`), and lemmas show that each quotient is the integer the reference counts.

`factorial` appears twice in the source, at CombinatorialAnalyzer.jsx:15-22 and BinomialCalculator.jsx:14-21. The two are textually identical, so `Combinatorics.Factorial` models both. Likewise, the input handlers at BinomialCalculator.jsx:71-88 are identical to CombinatorialAnalyzer.jsx:79-96, and `InputGuards` models both. `binomialCoefficient` has the same body as `combinations`, so `Binomial.BinomialCoefficient` is defined through `Combinatorics.Combinations`.

Behaviour of the page worth knowing:

- **Walls on start or end.** A wall-mode click on the start or end cell is accepted. In the rebuilt grid value that cell has both flags set, start (or end) and wall; see `GridEditor.WallOnStartIsAccepted`. The page still draws and titles it as Start or End, because it tests isStart and isEnd before isWall (PathfindingVisualizer.jsx:156-163). The search still starts from a walled start cell, but a walled end cell can never be reached (`Pathfinding.BlockedEndUnreachable`).
- **Moving onto a wall.** Moving the start or the end onto a wall leaves the wall list unchanged.
- **Start equal to end.** Neither `createGrid` nor the searches reject `start == end`. Each search then reports the one-cell path `[start]` and discovers nothing (`Pathfinding.StartIsEnd`).
- **An end off the board** is never reached. The search ends with no path (`Pathfinding.BlockedEndUnreachable`).
- **Runs.** A run applies its updates directly after clearing the flags.

## Model

| member | source | states |
|---|---|---|
| GridModel.CreateGrid | frontend/src/components/PathfindingVisualizer.jsx:8-26 | The grid has 12 rows of 24 cells; cell (r, c) carries its own coordinates, is start / end exactly at the start / end position, is a wall exactly when (r, c) is in the wall list, and has both search flags off |
| Walks.CreatedPassable | frontend/src/components/PathfindingVisualizer.jsx:8-26 | In a grid built from a layout, the searches may step on a cell exactly when it is on the board and not in the wall list |
| GridModel.PositionCount | frontend/src/components/PathfindingVisualizer.jsx:4-5 | The board has exactly numRows * numCols = 288 positions |
| GridModel.ClearFlags | frontend/src/components/PathfindingVisualizer.jsx:117 | The run pre-step turns off isVisited and isPath on every cell and keeps every other field |
| GridModel.ClearFlagsIdempotent | frontend/src/components/PathfindingVisualizer.jsx:117 | Clearing the flags twice gives the same grid as clearing them once |
| GridModel.MarkVisited | frontend/src/components/PathfindingVisualizer.jsx:50 | One discovery update sets isVisited on exactly the discovered cell and changes nothing else |
| GridModel.MarkAllVisited | frontend/src/components/PathfindingVisualizer.jsx:47-51 | After all discovery updates, a cell is visited iff it was visited before or occurs in the discovery sequence; other fields are unchanged |
| GridModel.MarkPath | frontend/src/components/PathfindingVisualizer.jsx:40 | The path update sets isPath true exactly on cells that occur in the path, false elsewhere, and keeps all other fields |
| SearchEngine.Discoverable | frontend/src/components/PathfindingVisualizer.jsx:44-48 | A candidate neighbour is discovered iff it is in bounds, not yet visited and not a wall; the discovered list has no repeats when the candidates have none |
| SearchEngine.Expand | frontend/src/components/PathfindingVisualizer.jsx:44-52 | Expanding a path appends exactly the eligible neighbours, in the order right, down, left, up, to the discovery sequence, adds them to the visited set, and pushes the path extended by each of them onto the frontier |
| SearchEngine.Pop | frontend/src/components/PathfindingVisualizer.jsx:29-81 | Breadth-first search (queue.shift, line 36) takes the oldest path and keeps the rest in order; depth-first search (stack.pop, line 64) takes the newest and keeps the rest in order; both remove exactly one element of the frontier |
| SearchEngine.Step | frontend/src/components/PathfindingVisualizer.jsx:35-53 | One turn keeps every partial path nonempty and either marks a new cell visited or shrinks the frontier, so the loop terminates |
| SearchProofs.InitialInv | frontend/src/components/PathfindingVisualizer.jsx:31-34 | The seeded state (frontier [[start]], start visited, nothing discovered) satisfies the search invariant |
| SearchProofs.StepInv | frontend/src/components/PathfindingVisualizer.jsx:35-53 | A turn that does not stop keeps the invariant: frontier paths are repetition-free walks from start over visited cells, visited = start plus discovered, every discovered cell is passable and reachable, every visited cell is waiting or fully expanded |
| SearchProofs.RunSound | frontend/src/components/PathfindingVisualizer.jsx:35-53 | From any invariant state the loop returns distinct passable discoveries; a path iff the end is reachable, and that path is a walk to the end; with no path, the discoveries plus the start are exactly the reachable cells |
| SearchProofs.BfsSearchShortest | frontend/src/components/PathfindingVisualizer.jsx:29-54 | A path reported by the FIFO search is no longer than any wall-avoiding walk from start to end |
| SearchProofs.UnvisitedIsFar | frontend/src/components/PathfindingVisualizer.jsx:35-49 | In breadth-first order, every walk to a cell not yet visited is longer than the path at the head of the queue |
| Pathfinding.Bfs | frontend/src/components/PathfindingVisualizer.jsx:29-54 | Breadth-first search: no repeated discovery, start never discovered, fewer than 288 discoveries; the reported path is a repetition-free wall-avoiding walk from start to end through discovered cells, exists iff the end is reachable, and is a shortest one; with no path the discoveries are exactly the other reachable cells |
| Pathfinding.Dfs | frontend/src/components/PathfindingVisualizer.jsx:57-81 | Depth-first search: the same guarantees except shortness; in particular it finds a path whenever one exists |
| Pathfinding.DiscoveryBound | frontend/src/components/PathfindingVisualizer.jsx:33-34 | A repetition-free list of board cells that omits the start has fewer than rows * cols entries |
| Pathfinding.StartIsEnd | frontend/src/components/PathfindingVisualizer.jsx:36-41 | When start equals end, either search discovers nothing and reports the path [start] |
| Pathfinding.BlockedEndUnreachable | frontend/src/components/PathfindingVisualizer.jsx:35-53 | An end cell that is a wall or off the board, and differs from the start, is never reached: the search ends with no path and no error |
| Pathfinding.OpenGridBfsIsManhattan | frontend/src/components/PathfindingVisualizer.jsx:44-49 | On a board without walls, breadth-first search always finds a path, and its number of steps is the Manhattan distance |
| Pathfinding.BfsNoLongerThanDfs | frontend/src/components/PathfindingVisualizer.jsx:29-81 | Both searches agree on whether a path exists, and the breadth-first path is never longer than the depth-first one |
| Pathfinding.RunSearch | frontend/src/components/PathfindingVisualizer.jsx:119-120 | The algorithm selector runs one of the two searches; whichever runs, the start is never among the discoveries and every path cell is the start or a discovered cell |
| Pathfinding.ApplyResult | frontend/src/components/PathfindingVisualizer.jsx:40-50 | Applying a result sets isVisited on the discovered cells, and isPath exactly on the path cells if there is a path; the layout is unchanged |
| Pathfinding.HandleRun | frontend/src/components/PathfindingVisualizer.jsx:115-122 | After a run only the search flags differ: a cell is visited iff discovered and on the path iff on the reported path; every path cell is visited or is the start |
| GridEditor.RemoveWall | frontend/src/components/PathfindingVisualizer.jsx:101 | Filtering drops every entry at the clicked position, keeps all others, and keeps a repetition-free list repetition-free |
| GridEditor.ToggleWall | frontend/src/components/PathfindingVisualizer.jsx:100-104 | The clicked position becomes a wall iff it was not one; no other position changes |
| GridEditor.ToggleTwice | frontend/src/components/PathfindingVisualizer.jsx:100-104 | Toggling twice restores the wall set, and the exact list when the cell was not a wall |
| GridEditor.InitialLayout | frontend/src/components/PathfindingVisualizer.jsx:84-86 | The page opens with start (2, 2) and end (9, 20), two distinct on-board cells, and no walls |
| GridEditor.InitialGrid | frontend/src/components/PathfindingVisualizer.jsx:84-87 | The first grid shown marks start and end and has no wall and no search flag |
| GridEditor.HandleCellClick | frontend/src/components/PathfindingVisualizer.jsx:97-112 | Wall mode toggles only the clicked cell and keeps start and end; start / end mode moves only that position and leaves the walls as they are |
| GridEditor.WallClickTwice | frontend/src/components/PathfindingVisualizer.jsx:98-104 | Two wall clicks on the same cell restore start, end and the wall set |
| GridEditor.WallOnStartIsAccepted | frontend/src/components/PathfindingVisualizer.jsx:98-104 | A wall click on the start cell is accepted; in the rebuilt grid value that cell has both the start flag and the wall flag set |
| GridEditor.HandleReset | frontend/src/components/PathfindingVisualizer.jsx:125-128 | Reset empties the walls, keeps start and end, and shows a grid with no walls and no search flags |
| GridEditor.ResetIdempotent | frontend/src/components/PathfindingVisualizer.jsx:125-128 | Resetting twice is the same as resetting once |
| Combinatorics.Factorial | frontend/src/components/CombinatorialAnalyzer.jsx:15-22 | The factorial is 0 for negative n, at least 1 for every n >= 0, and at least n for n >= 1 |
| Combinatorics.FactorialIsFalling | frontend/src/components/CombinatorialAnalyzer.jsx:15-22 | n! equals the falling factorial of length n, the count of orderings of n elements |
| Combinatorics.Permutations | frontend/src/components/CombinatorialAnalyzer.jsx:25 | P(n) is the number of orderings of n elements (the falling factorial of length n) for n >= 0, and 0 for negative n |
| Combinatorics.Arrangements | frontend/src/components/CombinatorialAnalyzer.jsx:28-32 | A(n, k) is 0 for k > n; for 0 <= k <= n the quotient is exactly the integer n (n-1) ... (n-k+1); for negative k it is a value in [0, 1] |
| Combinatorics.FallingTimesFactorial | frontend/src/components/CombinatorialAnalyzer.jsx:31 | (n-k)! times the falling factorial equals n!, so (n-k)! divides n! |
| Combinatorics.Combinations | frontend/src/components/CombinatorialAnalyzer.jsx:35-39 | C(n, k) is 0 outside 0 <= k <= n; inside it the quotient is exactly the Pascal-rule binomial coefficient |
| Combinatorics.ChooseTimesFactorials | frontend/src/components/CombinatorialAnalyzer.jsx:38 | The Pascal-rule coefficient times k! (n-k)! equals n!, so the division is exact |
| Combinatorics.CombinationsSymmetric | frontend/src/components/CombinatorialAnalyzer.jsx:35-39 | C(n, k) = C(n, n - k) for all integers n and k |
| Combinatorics.ArrangeAllIsPermute | frontend/src/components/CombinatorialAnalyzer.jsx:25-32 | A(n, n) = P(n) |
| Combinatorics.FallingIsOrdersTimesChoose | frontend/src/components/CombinatorialAnalyzer.jsx:28-39 | The integer A(n, k) is k! times the integer C(n, k) |
| Combinatorics.ComputeResults | frontend/src/components/CombinatorialAnalyzer.jsx:47-76 | The table has n + 1 rows (none for negative n); row i holds i and i! / the falling factorial / the binomial coefficient; for arrangements with a negative k, row i holds the page's quotient A(i, k), a value in [0, 1]; with k >= 0 an arrangement or combination row is 0 exactly when i < k |
| InputGuards.Initial | frontend/src/components/CombinatorialAnalyzer.jsx:42-43 | The initial inputs (5, 2) satisfy 0 <= k <= n |
| InputGuards.HandleNChange | frontend/src/components/CombinatorialAnalyzer.jsx:79-87 | An unparsable or negative n is ignored; otherwise n is set and k becomes min(k, n), never growing; 0 <= k <= n is kept |
| InputGuards.HandleKChange | frontend/src/components/CombinatorialAnalyzer.jsx:90-96 | A k outside 0 .. n or unparsable is ignored; otherwise only k changes and the result is valid |
| InputGuards.ReplayKeepsValid | frontend/src/components/CombinatorialAnalyzer.jsx:79-96 | Any sequence of field edits from a valid state keeps 0 <= k <= n |
| InputGuards.NChangeIdempotent | frontend/src/components/CombinatorialAnalyzer.jsx:79-87 | Entering the same n twice has the effect of entering it once |
| InputGuards.KDoesNotSpringBack | frontend/src/components/CombinatorialAnalyzer.jsx:79-87 | Lowering n below k and raising it again leaves k at the lowered value |
| InputGuards.ReachableIsValid | frontend/src/components/BinomialCalculator.jsx:71-88 | Every state the binomial page can reach from (5, 2) has 0 <= k <= n, so row n of the triangle always exists |
| Binomial.BinomialCoefficient | frontend/src/components/BinomialCalculator.jsx:24-29 | The coefficient is the Pascal-rule binomial coefficient (0 outside the triangle) and at least 1 inside it |
| Binomial.Row | frontend/src/components/BinomialCalculator.jsx:36-45 | Row n has n + 1 entries; entry k carries n, k and C(n, k) |
| Binomial.GeneratePascalTriangle | frontend/src/components/BinomialCalculator.jsx:32-49 | rows + 1 rows (none for negative rows), row n of length n + 1 with entry (n, k, C(n, k)); each row starts and ends with 1, is symmetric, and inner entries are the sum of the two above |
| Binomial.ChartData | frontend/src/components/BinomialCalculator.jsx:61-68 | The chart has one bar per entry of row n, in the same order, with the entry's column and value |
| Binomial.PageChart | frontend/src/components/BinomialCalculator.jsx:56-68 | For n >= 0 the chart of row n has bars C(n, 0) .. C(n, n) in order, adding up to 2^n; the printed coefficient equals the bar at k and is at least 1 when 0 <= k <= n |
| Binomial.RowTotal | frontend/src/components/BinomialCalculator.jsx:63 | The entries of row n add up to 2^n |

## Left out

- React state, `useEffect` and `useMemo`, and the batching of `setGrid` updaters. State is passed explicitly. A run's updates are applied in call order to the cleared grid, which is how React applies queued updater functions.
- The 50 ms `setTimeout` in `handleRun`. Its timing has no effect on the result. The search reads the grid as it was when Run was pressed; the model passes that grid.
- Rendering: JSX, CSS classes, recharts, label strings and the mode/algorithm buttons. The chart's `C(n,k)` label is represented by the pair (n, k).
- JavaScript `Number` semantics. Factorials are unbounded integers and quotients are exact rationals. The page itself loses precision above 2^53 and returns `Infinity` for factorials above 170!. None of this is modelled.
- `parseInt` and `isNaN`: a field edit is an `Option<int>`, where `None` stands for NaN. The truncation of input such as "3.7" to 3 is part of parsing.
- The `default` branch of the analysis-type switch, which yields 0. The selector only offers the three analysis types, so it is unreachable.
- The grid dimensions are fixed at 12 x 24, as in the source. Small concrete boards are not modelled separately.
- Clicks outside the board and an off-board start row. The source's searches throw a TypeError for a start row outside 0 .. 11: `visited[start.row]` is undefined at PathfindingVisualizer.jsx:34 and :62. `SearchEngine.Search` returns normally instead. This cannot happen on the page, because the start is set only by clicks on cells.
- `SideBar.jsx` and `App.jsx`: navigation and layout only.
- Binomial.ChartData: the contract says the chart copies row n of the triangle it is given. `Binomial.PageChart` states the values C(n, k), for the triangle the page actually builds.

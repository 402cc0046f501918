# Maze: Eller generation, BFS solving and the maze file format, in Dafny

This project models the algorithmic core of a C++ maze program.

- **The maze** (`Maze`). A `rows x cols` grid of wall cells with row-major vertex numbers. From the walls it builds an adjacency list, and it answers shortest-path queries between two cells with a breadth-first search.
- **The generator** (`MazeBuilder`). Eller's algorithm builds a perfect maze row by row. It tracks a set id per cell of the current row, and every random choice is a fair coin.
- **The serializer** (`MazeSerializer`). It writes a maze as a `rows cols` header and two 0/1 planes: the right walls, a blank line, then the down walls. It reads such a file back.

Modules, in dependency order:

- `Walls` (walls.dfy): the per-cell wall flags.
  - A cell is the program's `int`. The model splits it into `Flags(right, down, high)`.
  - `ToInt` and `FromInt` are inverse on every integer, so no information is lost.
  - Each bitwise update the program makes is proved equal to a field update: `| RIGHT`, `| DOWN`, `| BOTH`, `& ~RIGHT` and `& ~DOWN`.
  - Each bitwise test is proved equal to reading a flag: `& RIGHT`, `& DOWN` and `(& DOWN) >> 1`. So the tests `(x & RIGHT) != RIGHT` (src/maze.cpp:44, 50) and `(x & DOWN) != DOWN` (src/maze.cpp:56, 62; src/maze_builder.cpp:87) read as "no right wall" and "no down wall", and `(x & DOWN) == DOWN` (src/maze_builder.cpp:98) reads as "down wall".
- `Grid` (grid.dfy): the reference meaning of a grid as a graph on cells.
  - `Adjacent`: one step through an open wall.
  - `IsWalk` and `Connected`.
  - `Passages`: the number of open walls.
- `Bfs` (bfs.dfy): the breadth-first search `getSolution` runs over an adjacency list.
  - A FIFO queue, visited flags and parent links.
  - The search stops when the finish leaves the queue.
  - The path is rebuilt from the parent links.
- `MazeCore` (maze.dfy):
  - the `Maze` record (rows, cols, grid, vertices, memoised graph);
  - its constructor, `isEmpty` and `isValidPoints`;
  - `indexVertices` and `generateGraph`;
  - `getSolution`, whose result is related to the `Grid` meaning.
- `MazeBuilder` (builder.dfy): each helper of the generator, written as a pure function on a row of flags and its line of set ids.
- `Eller` (eller.dfy): `createMaze`, the row loop. It carries the invariant that gives the main theorem. For every coin sequence and every `rows, cols >= 1`, the generated maze:
  - is connected;
  - has exactly `rows * cols - 1` open passages, so it is a spanning tree of the grid.
- `Serializer` (serializer.dfy): `saveToFile` and `readFromFile`.
  - The file is a sequence of lines of integers.
  - Reading works on a stream of tokens.

Abstractions:

- **Randomness.** `rand() % 2` is the coin sequence `coins`, with draw `k` being `coins[k]`.
  - Draws follow the program's order. Row `i` draws `cols - 1` right-wall coins, then `cols` down-wall coins.
  - The last row also draws its down-wall coins, even though `handleLastLine` then overrides them.
  - A draw past the end of the sequence reads as 0.
- **Files.** A saved file is the sequence of its lines, each a sequence of integers.
  - `Text` turns those lines into the whitespace-separated tokens that `operator>>` reads.
  - A token is a number (`Num`) or something that is not one (`Other`). Reading an `Other` fails just as reaching the end of the input does.
- **Mutation.** The generator's in-place updates of `maze_.grid_` and `cell_sets` become values passed from step to step.
  - Vectors become sequences.
  - `getSolution`'s cached `graph_` is a field of the returned maze.

## Model

| member | source | states |
|---|---|---|
| Walls.FromInt | include/maze.h:23-28 | every integer cell value has flags whose `right` is its bit 0 (the RIGHT wall) and whose `down` is its bit 1 (the DOWN wall); converting back gives the same integer |
| Walls.FromToInt | include/maze.h:23-28 | the flags of a cell survive the round trip through its integer, so flags and integers are in one-to-one correspondence |
| Walls.WallValues | include/maze.h:23-28 | NONE, RIGHT, DOWN and BOTH are 0, 1, 2 and 3; a cell is one of these four exactly when its integer lies in 0..3 |
| Walls.SetRightIsOr | src/maze_builder.cpp:47 | OR-ing RIGHT into a cell sets its right wall and changes nothing else |
| Walls.SetDownIsOr | src/maze_builder.cpp:76 | OR-ing DOWN into a cell sets its down wall and changes nothing else |
| Walls.SetBothIsOr | src/maze_builder.cpp:133-134 | OR-ing BOTH into a cell sets both walls and changes nothing else |
| Walls.ClearRightIsAnd | src/maze_builder.cpp:96 | `cell & ~RIGHT` removes the right wall and keeps every other bit |
| Walls.ClearDownIsAnd | src/maze_builder.cpp:102 | `cell & ~DOWN` removes the down wall and keeps every other bit |
| Walls.RightBitIsAnd | src/maze.cpp:50 | `cell & RIGHT` is 1 when the cell has a right wall and 0 otherwise, on every integer |
| Walls.DownBitIsAnd | src/maze.cpp:62 | `cell & DOWN` is DOWN when the cell has a down wall and 0 otherwise, so `(cell & DOWN) != DOWN` means no down wall (also src/maze.cpp:56 and src/maze_builder.cpp:87) and `== DOWN` at src/maze_builder.cpp:98 means a down wall; `(cell & DOWN) >> 1`, written at src/maze_serializer.cpp:78, is the down-wall bit |
| Grid.AdjacentSymmetric | src/maze.cpp:42-65 | a passage joins two cells in both directions: the left/up links mirror the right/down links |
| MazeCore.NewMaze | src/maze.cpp:3-10 | `Maze(rows, cols)` has the requested sizes, every cell NONE, numbered vertices and no graph; it is empty exactly when `rows == 0` or `cols == 0` |
| MazeCore.VertexNumbering | src/maze.cpp:70-79 | every vertex number lies in `0 .. rows*cols - 1`, and dividing it by `cols` gives back the cell's row and column, as the path rebuild at src/maze.cpp:126 relies on |
| MazeCore.VertexEnds | include/maze.h:35-39 | the first vertex is `{0, 0, 0}` and the last is `{rows*cols - 1, rows - 1, cols - 1}` |
| MazeCore.IsEmpty | src/maze.cpp:134 | a maze is empty exactly when it has no cell |
| MazeCore.IsValidPoints | src/maze.cpp:136-141 | true exactly when both points are cells of the grid |
| MazeCore.CellOf | src/maze.cpp:126 | a vertex number turns back into the one cell that carries it |
| MazeCore.NeighboursExact | src/maze.cpp:40-67 | a cell's vertex number is in another cell's neighbour list exactly when an open wall joins the two cells |
| MazeCore.NeighboursOrdered | src/maze.cpp:42-65 | a neighbour list names the left, right, upper and lower neighbour in that order, each at most once |
| MazeCore.NeighboursInRange | src/maze.cpp:37-68 | every listed neighbour is a vertex number of the grid |
| MazeCore.NeighboursOf | src/maze.cpp:40-67 | the neighbour list of a vertex holds exactly the vertices whose cells are joined to its cell by an open wall |
| MazeCore.GenerateGraph | src/maze.cpp:37-68 | one list per cell, and every listed neighbour is a vertex of the graph |
| MazeCore.GraphAdjacency | src/maze.cpp:37-68 | `v` is in list `u` of the graph exactly when the cells of `u` and `v` are joined by an open wall |
| MazeCore.GraphSymmetric | src/maze.cpp:42-65 | the graph is undirected: `v` lists `u` exactly when `u` lists `v` |
| MazeCore.PathIsWalk | src/maze.cpp:125-130 | a path of the graph, turned into `(id / cols, id % cols)` pairs, is a walk through open walls, and a path without repeated vertices gives a walk without repeated cells |
| MazeCore.WalkIsPath | src/maze.cpp:37-68 | conversely, every walk through open walls is a path of the graph |
| MazeCore.NoPathNoWalk | src/maze.cpp:119-122 | when no graph path links two cells, no walk links them either |
| MazeCore.ShortestPathShortestWalk | src/maze.cpp:88-116 | a bound on the length of every graph path between two cells bounds every walk between them |
| MazeCore.GetSolution | src/maze.cpp:81-132 | `[]` and the maze unchanged for an empty maze or points off the grid. Otherwise: the graph is built once, or the existing one is kept; the path is non-empty exactly when the two cells are connected; a non-empty path runs from start to finish through open walls, visits no cell twice and is no longer than any other walk; `[start]` when start equals finish; the single step when the two cells are neighbours with no wall between them |
| MazeCore.Route | src/maze.cpp:88-130 | for two cells of the grid: the search result turned into cells is empty exactly when they are not connected, and otherwise a shortest simple walk from one to the other |
| Bfs.Search | src/maze.cpp:88-130 | a non-empty result is a path from start to finish without repeats; it is non-empty exactly when such a path exists; it is no longer than any other such path; it is `[start]` when start equals finish |
| Bfs.Explore | src/maze.cpp:88-116 | after the queue loop: parent links lead back to the start; if the finish was visited, its distance is at most the length of any path to it; if it was not, no path reaches it |
| Bfs.Advance | src/maze.cpp:100-116 | one turn of the loop keeps the search invariant, keeps the queue ordered by distance, and either visits a new vertex or shortens the queue |
| Bfs.Expand | src/maze.cpp:109-115 | scanning a vertex's neighbours appends to the queue exactly its not-yet-visited neighbours, each once, in list order (`Discovered`); afterwards a vertex is visited exactly when it was before or is a neighbour; each newly visited one has the expanded vertex as parent, one level deeper; vertices visited earlier keep their parent and depth; the search invariant holds with the head moved on |
| Bfs.Discovered | src/maze.cpp:109-115 | the vertices the neighbour loop enqueues are exactly the listed neighbours not yet visited, with no repeats |
| Bfs.ScanNeighbour | src/maze.cpp:110-114 | one neighbour: if unvisited it is marked, linked to the expanded vertex and enqueued, otherwise nothing changes; the loop invariant moves one neighbour on |
| Bfs.Rebuild | src/maze.cpp:125-130 | following parent links from a visited finish gives a path from the start to it, with no repeats and one more vertex than its distance |
| Bfs.FoundIsShortest | src/maze.cpp:104-106 | when the finish is dequeued at distance `d`, no path reaches it in fewer than `d` steps, so stopping there is correct |
| Bfs.Exhausted | src/maze.cpp:100-122 | once the queue is empty, an unvisited finish cannot be reached from the start |
| Bfs.ExhaustedReachesAll | src/maze.cpp:109-115 | with every queued vertex expanded, each vertex at the end of a path from the start is visited, at a distance at most the path's length |
| MazeBuilder.AssignUniqueSet | src/maze_builder.cpp:30-38 | the line keeps its length, and the counter advances by the number of cells that had no set |
| MazeBuilder.AssignIds | src/maze_builder.cpp:30-38 | cells with a set keep it; the `n`-th cell without one (counting from 0) gets `counter + n + 1`, the value `++set_counter_` yields |
| MazeBuilder.AssignFresh | src/maze_builder.cpp:30-38 | afterwards every id lies in `1 .. counter'`; the new ids exceed every id issued before and no two cells share one |
| MazeBuilder.AssignCount | src/maze_builder.cpp:30-38 | the number of distinct sets becomes the old number of non-empty sets plus the number of cells that had none |
| MazeBuilder.MergeSets | src/maze_builder.cpp:61-67 | every entry equal to `set2` becomes `set1`, and every other entry is unchanged |
| MazeBuilder.MergeClasses | src/maze_builder.cpp:61-67 | `set2` disappears, and two cells share a set afterwards exactly when they shared one before or both were in `set1` or `set2` |
| MazeBuilder.MergeCount | src/maze_builder.cpp:61-67 | merging two distinct sets that both occur removes `set2` from the ids present and lowers the number of sets by one |
| MazeBuilder.CountAvailableCells | src/maze_builder.cpp:81-91 | the count is the number of cells of the given set that have no down wall |
| MazeBuilder.CreateRightWalls | src/maze_builder.cpp:39-59 | only right walls are added, never removed; down walls are untouched; the last cell always gets a right wall |
| MazeBuilder.RightWallsWhere | src/maze_builder.cpp:42-53 | a right wall stands wherever the coin said wall, and wherever the two cells were already in one set |
| MazeBuilder.RightWallsMerge | src/maze_builder.cpp:43-50 | where the coin said no wall, and wherever no right wall stands, the two neighbours end up in one set |
| MazeBuilder.RightWallsCoarsen | src/maze_builder.cpp:39-59 | cells that shared a set still share one, and no new set id appears |
| MazeBuilder.RightWallsCount | src/maze_builder.cpp:39-59 | each opened right wall merges two sets: the number of sets after plus the number of openings equals the number of sets before |
| MazeBuilder.CreateDownWalls | src/maze_builder.cpp:69-79 | only down walls are added; a new one stands only where the coin said wall; if every set had a cell open downward before, it still has one |
| MazeBuilder.DownStep | src/maze_builder.cpp:71-76 | one column's step changes at most that cell; the cell ends with a down wall exactly when it had one, or when the coin is 1 and its set has more than one cell still open downward; no set loses its last downward opening |
| MazeBuilder.OpeningSurvives | src/maze_builder.cpp:73-76 | when the set has more than one open cell, walling one of them still leaves an opening for every set |
| MazeBuilder.DeleteWalls | src/maze_builder.cpp:93-105 | the next row starts with no right or down walls; a cell's set id becomes 0 exactly when the cell above has a down wall, and is carried over otherwise |
| MazeBuilder.NextValues | src/maze_builder.cpp:93-105 | when every set keeps a downward opening, every set id of the row reaches the next row, and the cells left without a set are exactly the walled ones |
| MazeBuilder.ResetMaze | src/maze_builder.cpp:107-118 | sizes below 1 give the empty `0 x 0` maze, other sizes are kept, and every cell starts with no wall |
| MazeBuilder.HandleLastLine | src/maze_builder.cpp:120-135 | every cell gets a down wall and the last cell gets a right wall; a right wall is removed exactly when the cell right of it is in a set not yet seen to its left; afterwards all cells share one set |
| MazeBuilder.LastLineMergeKeepsFirstSeen | src/maze_builder.cpp:125-129 | one merge step of the last row puts the prefix into one set without changing which later cells have their set already seen to their left |
| MazeBuilder.LastLineCount | src/maze_builder.cpp:120-135 | every right wall the last row removes merges two sets: sets after plus openings equals sets before plus openings before |
| Eller.CreateMaze | src/maze_builder.cpp:8-29 | for every coin sequence: sizes below 1 give the empty `0 x 0` maze, other sizes are kept; every cell is a wall value 0..3; every two cells are connected; there are exactly `rows*cols - 1` open passages |
| Eller.Pass | src/maze_builder.cpp:14-27 | one row of the loop keeps the invariant for the next row, and after the last row the maze is connected with `rows*cols - 1` passages |
| Eller.InnerPass | src/maze_builder.cpp:21-26 | a row other than the last ends with every set reaching the next row, set ids meaning connectivity through the rows above, and passages counting cells minus sets |
| Eller.LastPass | src/maze_builder.cpp:18-20 | the last row joins all sets, leaving the whole grid connected with `rows*cols - 1` passages |
| Eller.InnerRow | src/maze_builder.cpp:15-25 | after a middle row, cells of the next row with a set are reached from above, cells in one set are connected, and every finished cell reaches the next row |
| Eller.LastRow | src/maze_builder.cpp:15-20 | after the last row every pair of cells is connected |
| Eller.RightWallsJoin | src/maze_builder.cpp:39-59 | after the right-wall pass, cells sharing a set are connected through the row and the rows above |
| Eller.MergeJoined | src/maze_builder.cpp:45-50 | merging the sets of two neighbours with no wall between them keeps the set ids meaning connectivity |
| Eller.GenerateAndSolve | tests/maze_solve_test.cpp:63-90 | on a generated maze, a path exists exactly when both points are on the grid; it is a shortest simple walk between them; for a `1 x 2` maze, `(0,0)` to `(0,1)` is the two-cell path |
| Eller.OnePassage | tests/maze_solve_test.cpp:72-81 | a one-row, two-column grid with one passage has its two cells joined |
| Serializer.RightOut | src/maze_serializer.cpp:68 | the value written for a cell in the first plane is its right-wall bit |
| Serializer.DownOut | src/maze_serializer.cpp:78 | the value written for a cell in the second plane is its down-wall bit |
| Serializer.RightPlane | src/maze_serializer.cpp:66-71 | `rows` lines of `cols` values, value `(i, j)` being the right-wall bit of cell `(i, j)` |
| Serializer.DownPlane | src/maze_serializer.cpp:76-81 | `rows` lines of `cols` values, value `(i, j)` being the down-wall bit of cell `(i, j)` |
| Serializer.Save | src/maze_serializer.cpp:55-81 | nothing for a maze with fewer than one row or column; otherwise the header `rows cols`, the right plane, one empty line and the down plane |
| Serializer.SavedBits | src/maze_serializer.cpp:63-81 | after the header, exactly the separator line is empty; every other line has `cols` values, each 0 or 1 |
| Serializer.Load | src/maze_serializer.cpp:10-45 | a maze is read exactly when the header is two positive numbers followed by `2*rows*cols` numbers; it then has the header's sizes and no graph, otherwise it is `Maze(0, 0)` |
| Serializer.LoadCell | src/maze_serializer.cpp:19-42 | cell `(i, j)` is `R` OR-ed with `D` shifted left by one, where `R` is the `(i*cols + j)`-th value of the first plane and `D` the same position of the second |
| Serializer.ReadBits | src/maze_serializer.cpp:26-40 | for 0/1 values, `R` OR-ed with `D` shifted left by one is the cell whose right wall is `R == 1` and whose down wall is `D == 1` |
| Serializer.SaveLoad | src/maze_serializer.cpp:3-84 | reading a saved maze gives back its sizes, vertices and the right and down walls of every cell, with no graph |
| Serializer.SaveLoadWalls | src/maze_serializer.cpp:3-84 | when every cell is a wall value 0..3, reading a saved maze gives back the maze exactly, minus its cached graph |
| Serializer.LoadIgnoresTail | src/maze_serializer.cpp:19-45 | tokens after the two planes do not change what is read |
| Serializer.LoadBadHeader | src/maze_serializer.cpp:10-14 | a missing, non-numeric or non-positive size gives `Maze(0, 0)` |
| Serializer.LoadTruncated | src/maze_serializer.cpp:19-42 | fewer than `2*rows*cols` tokens after the header give `Maze(0, 0)`, with no partial grid |

## Left out

- Qt rendering, the main window, file dialogs and coordinate clamping (src/maze_view.cpp, src/mainwindow.cpp): user interface, not maze logic.
- Failures to open a file and the `std::cerr` messages (src/maze_serializer.cpp:4-9, 49-53): I/O. A file that cannot be opened reads like an empty file and writes nothing.
- `operator>>` tokenisation: whitespace handling and number parsing are abstracted into a token stream. A number is `Num` and anything else is `Other`.
- `srand(time(NULL))` and `rand() % 2` (src/maze_builder.cpp:5, 42, 71): these become the `coins` parameter. The model does not say how likely any maze is, only what happens for every coin sequence.
- 32-bit `int` arithmetic: the model's integers are unbounded.
  - `set_counter_` is not modelled as wrapping around.
  - `rows * cols` is not modelled as overflowing, in `generateGraph`, in `getSolution` or in the file sizes.
  - `temp << 1` is modelled as `2 * temp`.
  - Mazes large enough to reach these limits fall outside the model.
- The commented-out `print` (src/maze.cpp:18-35): it is not compiled.
- `getCols`, `getRows` and `grid()`: plain accessors. They are the record fields `rows`, `cols` and `grid`.
- `MazeBuilder`'s constructor: it only resets fields and seeds the random generator.
- MazeBuilder.CreateDownWalls: the per-column checks run in the program's order, each being a `DownStep`, whose contract gives the exact rule. The whole-row contract says only that a wall is added only on a coin of 1 and that every set keeps an opening. It does not name which coin-selected walls are skipped, because that depends on the walls placed earlier in the row.
- Serializer.Save: the output is a list of lines of integers, not characters. The single spaces between values and the line breaks are not modelled.
- `getSolution` on a maze whose cached graph does not match its walls: such a maze is never built by the program, and `Valid` excludes it.

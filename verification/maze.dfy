/**
  The maze itself (`Maze` in maze.h / maze.cpp): its size, the wall-flag
  grid, the vertex numbering, the adjacency list derived from the walls
  (built on first use and kept), and the shortest-path query.
 */
module MazeCore {
  import opened Walls
  import opened Grid
  import Bfs

  /** One vertex per cell: its number in the graph and its coordinates. */
  datatype Vertex = Vertex(id: int, row: int, col: int)

  /**
    `graph` is the memoised adjacency list; `[]` means "not built yet",
    which is how the program tests for it (`graph_.empty()`).
   */
  datatype Maze = Maze(rows: int, cols: int, grid: seq<seq<Flags>>, vertices: seq<seq<Vertex>>, graph: seq<seq<int>>)

  /** `(n + 1) * c` unfolds by one row of `c`. */
  lemma MulSucc(n: int, c: int)
    ensures (n + 1) * c == n * c + c
  {
  }

  lemma MulAtLeast(a: int, b: int)
    requires a >= 1 && b >= 0
    ensures a * b >= b
  {
    assert a * b == (a - 1) * b + b;
  }

  /** `i * cols + j`, when `0 <= j < cols`, divides back into `i` and `j`. */
  lemma DivModId(i: int, j: int, cols: int)
    requires 0 <= j < cols
    ensures (i * cols + j) / cols == i
    ensures (i * cols + j) % cols == j
  {
    var v := i * cols + j;
    var q, r := v / cols, v % cols;
    assert q * cols + r == v;
    assert (q - i) * cols == j - r;
    if q > i {
      MulAtLeast(q - i, cols);
    } else if q < i {
      MulAtLeast(i - q, cols);
    }
  }

  /** Vertex numbers of an `rows x cols` grid lie in `0..rows * cols` and split back into a cell. */
  lemma IdRange(rows: int, cols: int, v: int)
    requires 0 < cols && 0 <= v < rows * cols
    ensures 0 <= v / cols < rows && 0 <= v % cols < cols
  {
  }

  lemma IdOfCell(rows: int, cols: int, i: int, j: int)
    requires 0 <= i < rows && 0 <= j < cols
    ensures 0 <= i * cols + j < rows * cols
  {
    assert i * cols <= (rows - 1) * cols;
  }

  /**
    `indexVertices`: numbers the cells in row-major order, so that cell
    `(i, j)` gets `i * cols + j`, the value the program's running counter
    has when it reaches the cell.
   */
  function IndexVertices(rows: nat, cols: nat): (vs: seq<seq<Vertex>>)
    ensures |vs| == rows
    ensures forall i :: 0 <= i < rows ==> |vs[i]| == cols
    ensures forall i, j :: 0 <= i < rows && 0 <= j < cols ==>
      vs[i][j].row == i && vs[i][j].col == j && vs[i][j].id == i * cols + j
  {
    seq(rows, i => seq(cols, j => Vertex(i * cols + j, i, j)))
  }

  /** Every vertex number lies in `0..rows * cols` and names exactly its own cell: `(id / cols, id % cols)`. */
  lemma VertexNumbering(rows: nat, cols: nat, i: int, j: int)
    requires 0 <= i < rows && 0 <= j < cols
    ensures 0 <= IndexVertices(rows, cols)[i][j].id < rows * cols
    ensures IndexVertices(rows, cols)[i][j].id / cols == i
    ensures IndexVertices(rows, cols)[i][j].id % cols == j
  {
    IdOfCell(rows, cols, i, j);
    DivModId(i, j, cols);
  }

  /** The first vertex is `(0, 0, 0)` and the last `(rows * cols - 1, rows - 1, cols - 1)`. */
  lemma VertexEnds(rows: nat, cols: nat)
    requires rows >= 1 && cols >= 1
    ensures IndexVertices(rows, cols)[0][0] == Vertex(0, 0, 0)
    ensures IndexVertices(rows, cols)[rows - 1][cols - 1] == Vertex(rows * cols - 1, rows - 1, cols - 1)
  {
    assert (rows - 1) * cols + (cols - 1) == rows * cols - 1;
  }

  /** A maze whose grid and vertex matrix have the stated size. */
  predicate Shaped(m: Maze) {
    && m.rows >= 0 && m.cols >= 0
    && |m.grid| == m.rows
    && WellFormed(m.grid, m.cols)
    && m.vertices == IndexVertices(m.rows, m.cols)
  }

  /** A shaped maze whose cached graph, if built, is the one its walls determine. */
  predicate Valid(m: Maze) {
    Shaped(m) && (m.graph == [] || m.graph == GenerateGraph(m))
  }

  /**
    `Maze(rows, cols)`: a `rows x cols` grid with no walls, numbered
    vertices and no graph. (The program's vectors reject negative sizes,
    hence `nat`.)
   */
  function NewMaze(rows: nat, cols: nat): (m: Maze)
    ensures Valid(m)
    ensures m.rows == rows && m.cols == cols && m.graph == []
    ensures forall i, j :: 0 <= i < rows && 0 <= j < cols ==> m.grid[i][j] == NONE
    ensures IsEmpty(m) <==> rows == 0 || cols == 0
  {
    Maze(rows, cols, seq(rows, _ => seq(cols, _ => NONE)), IndexVertices(rows, cols), [])
  }

  /** `isEmpty`: for a shaped maze, true exactly when the maze has no cell. */
  predicate IsEmpty(m: Maze)
    ensures Shaped(m) ==> (IsEmpty(m) <==> forall c :: !InBounds(m.grid, m.cols, c))
  {
    assert Shaped(m) && !(m.rows == 0 || m.cols == 0) ==> InBounds(m.grid, m.cols, (0, 0));
    m.rows == 0 || m.cols == 0
  }

  /** `isValidPoints`: both points are cells of the grid. */
  function IsValidPoints(m: Maze, x1: int, y1: int, x2: int, y2: int): (r: bool)
    requires Shaped(m)
    ensures r <==> InBounds(m.grid, m.cols, (x1, y1)) && InBounds(m.grid, m.cols, (x2, y2))
  {
    var rowsOk := !(x1 < 0 || x1 >= m.rows || x2 < 0 || x2 >= m.rows);
    var colsOk := !(y1 < 0 || y1 >= m.cols || y2 < 0 || y2 >= m.cols);
    rowsOk && colsOk
  }

  /** The cell a vertex number stands for: `(v / cols, v % cols)`. */
  function CellOf(m: Maze, v: int): (c: Cell)
    requires Shaped(m) && 0 <= v < m.rows * m.cols
    ensures InBounds(m.grid, m.cols, c)
    ensures m.vertices[c.0][c.1].id == v
    ensures c.0 * m.cols + c.1 == v
  {
    IdRange(m.rows, m.cols, v);
    var c := (v / m.cols, v % m.cols);
    DivModId(c.0, c.1, m.cols);
    c
  }

  /** The vertex number of a cell: `row * cols + col`. */
  function IdOf(m: Maze, c: Cell): (v: int)
    requires Shaped(m) && InBounds(m.grid, m.cols, c)
    ensures 0 <= v < m.rows * m.cols
    ensures CellOf(m, v) == c
  {
    IdOfCell(m.rows, m.cols, c.0, c.1);
    DivModId(c.0, c.1, m.cols);
    c.0 * m.cols + c.1
  }

  /**
    The adjacency list of cell `(i, j)` as `generateGraph` builds it: the
    left, right, upper and lower neighbour, in that order, each present
    when no wall separates it from the cell.
   */
  function Neighbours(m: Maze, i: int, j: int): (ns: seq<int>)
    requires Shaped(m) && InBounds(m.grid, m.cols, (i, j))
    ensures |ns| <= 4
  {
    Link(m, LeftOpen(m, i, j), (i, j - 1))
      + Link(m, RightOpen(m, i, j), (i, j + 1))
      + Link(m, UpOpen(m, i, j), (i - 1, j))
      + Link(m, DownOpen(m, i, j), (i + 1, j))
  }

  /** No wall between cell `(i, j)` and its left neighbour. */
  predicate LeftOpen(m: Maze, i: int, j: int)
    requires Shaped(m) && InBounds(m.grid, m.cols, (i, j))
  {
    j != 0 && !m.grid[i][j - 1].right
  }

  predicate RightOpen(m: Maze, i: int, j: int)
    requires Shaped(m) && InBounds(m.grid, m.cols, (i, j))
  {
    j != m.cols - 1 && !m.grid[i][j].right
  }

  predicate UpOpen(m: Maze, i: int, j: int)
    requires Shaped(m) && InBounds(m.grid, m.cols, (i, j))
  {
    i != 0 && !m.grid[i - 1][j].down
  }

  predicate DownOpen(m: Maze, i: int, j: int)
    requires Shaped(m) && InBounds(m.grid, m.cols, (i, j))
  {
    i != m.rows - 1 && !m.grid[i][j].down
  }

  /** The vertex number of cell `e` when `present`, as a list of at most one entry. */
  function Link(m: Maze, present: bool, e: Cell): seq<int>
    requires Shaped(m) && (present ==> InBounds(m.grid, m.cols, e))
  {
    if present then [m.vertices[e.0][e.1].id] else []
  }

  /** Every entry of a cell's adjacency list is a vertex number. */
  lemma NeighboursInRange(m: Maze, i: int, j: int)
    requires Shaped(m) && InBounds(m.grid, m.cols, (i, j))
    ensures forall k :: 0 <= k < |Neighbours(m, i, j)| ==> 0 <= Neighbours(m, i, j)[k] < m.rows * m.cols
  {
    var l, r, u, w := LeftOpen(m, i, j), RightOpen(m, i, j), UpOpen(m, i, j), DownOpen(m, i, j);
    if l { VertexNumbering(m.rows, m.cols, i, j - 1); }
    if r { VertexNumbering(m.rows, m.cols, i, j + 1); }
    if u { VertexNumbering(m.rows, m.cols, i - 1, j); }
    if w { VertexNumbering(m.rows, m.cols, i + 1, j); }
    LinksInRange(m, l, (i, j - 1), r, (i, j + 1), u, (i - 1, j), w, (i + 1, j));
  }

  lemma LinksInRange(m: Maze, p1: bool, e1: Cell, p2: bool, e2: Cell, p3: bool, e3: Cell, p4: bool, e4: Cell)
    requires Shaped(m)
    requires p1 ==> InBounds(m.grid, m.cols, e1) && 0 <= m.vertices[e1.0][e1.1].id < m.rows * m.cols
    requires p2 ==> InBounds(m.grid, m.cols, e2) && 0 <= m.vertices[e2.0][e2.1].id < m.rows * m.cols
    requires p3 ==> InBounds(m.grid, m.cols, e3) && 0 <= m.vertices[e3.0][e3.1].id < m.rows * m.cols
    requires p4 ==> InBounds(m.grid, m.cols, e4) && 0 <= m.vertices[e4.0][e4.1].id < m.rows * m.cols
    ensures var ns := Link(m, p1, e1) + Link(m, p2, e2) + Link(m, p3, e3) + Link(m, p4, e4);
      forall k :: 0 <= k < |ns| ==> 0 <= ns[k] < m.rows * m.cols
  {
    var ns := Link(m, p1, e1) + Link(m, p2, e2) + Link(m, p3, e3) + Link(m, p4, e4);
    forall k | 0 <= k < |ns|
      ensures 0 <= ns[k] < m.rows * m.cols
    {
      assert ns[k] in ns;
      InLinks(m, p1, e1, p2, e2, p3, e3, p4, e4, ns[k]);
    }
  }

  /** Which side of cell `(i, j)` vertex `v` lies on: 0 left, 1 right, 2 above, 3 below, 4 none of them. */
  function Side(m: Maze, i: int, j: int, v: int): int
    requires Shaped(m) && InBounds(m.grid, m.cols, (i, j))
  {
    if j > 0 && v == m.vertices[i][j - 1].id then 0
    else if j < m.cols - 1 && v == m.vertices[i][j + 1].id then 1
    else if i > 0 && v == m.vertices[i - 1][j].id then 2
    else if i < m.rows - 1 && v == m.vertices[i + 1][j].id then 3
    else 4
  }

  /** The cell on side `side` of `(i, j)`. */
  function Beside(i: int, j: int, side: int): Cell {
    if side == 0 then (i, j - 1) else if side == 1 then (i, j + 1) else if side == 2 then (i - 1, j) else (i + 1, j)
  }

  /** A present link names the cell on its side, and no earlier side. */
  lemma LinkSide(m: Maze, i: int, j: int, present: bool, side: int)
    requires Shaped(m) && InBounds(m.grid, m.cols, (i, j)) && 0 <= side < 4
    requires present ==> InBounds(m.grid, m.cols, Beside(i, j, side))
    ensures forall k :: 0 <= k < |Link(m, present, Beside(i, j, side))| ==>
      Side(m, i, j, Link(m, present, Beside(i, j, side))[k]) == side
  {
    if present {
      var e := Beside(i, j, side);
      if j > 0 { VertexIdInjective(m, e, (i, j - 1)); }
      if j < m.cols - 1 { VertexIdInjective(m, e, (i, j + 1)); }
      if i > 0 { VertexIdInjective(m, e, (i - 1, j)); }
    }
  }

  /** The vertices of `ns` lie on sides of `(i, j)` below `c`, each on a later side than the one before. */
  predicate Ordered(m: Maze, i: int, j: int, ns: seq<int>, c: int)
    requires Shaped(m) && InBounds(m.grid, m.cols, (i, j))
  {
    && (forall k :: 0 <= k < |ns| ==> Side(m, i, j, ns[k]) < c)
    && (forall a, b :: 0 <= a < b < |ns| ==> Side(m, i, j, ns[a]) < Side(m, i, j, ns[b]))
  }

  lemma OrderedStep(m: Maze, i: int, j: int, ns: seq<int>, c: int, present: bool)
    requires Shaped(m) && InBounds(m.grid, m.cols, (i, j)) && 0 <= c < 4
    requires present ==> InBounds(m.grid, m.cols, Beside(i, j, c))
    requires Ordered(m, i, j, ns, c)
    ensures Ordered(m, i, j, ns + Link(m, present, Beside(i, j, c)), c + 1)
  {
    LinkSide(m, i, j, present, c);
  }

  /** Four links, one per side in side order, list their vertices in side order. */
  lemma OrderedLinks(m: Maze, i: int, j: int, p0: bool, p1: bool, p2: bool, p3: bool)
    requires Shaped(m) && InBounds(m.grid, m.cols, (i, j))
    requires p0 ==> InBounds(m.grid, m.cols, Beside(i, j, 0))
    requires p1 ==> InBounds(m.grid, m.cols, Beside(i, j, 1))
    requires p2 ==> InBounds(m.grid, m.cols, Beside(i, j, 2))
    requires p3 ==> InBounds(m.grid, m.cols, Beside(i, j, 3))
    ensures Ordered(m, i, j, Link(m, p0, Beside(i, j, 0)) + Link(m, p1, Beside(i, j, 1))
      + Link(m, p2, Beside(i, j, 2)) + Link(m, p3, Beside(i, j, 3)), 4)
  {
    var l0 := Link(m, p0, Beside(i, j, 0));
    var l1 := Link(m, p1, Beside(i, j, 1));
    var l2 := Link(m, p2, Beside(i, j, 2));
    OrderedStep(m, i, j, [], 0, p0);
    assert [] + l0 == l0;
    OrderedStep(m, i, j, l0, 1, p1);
    OrderedStep(m, i, j, l0 + l1, 2, p2);
    OrderedStep(m, i, j, l0 + l1 + l2, 3, p3);
  }

  /**
    The adjacency list of a cell holds only neighbours of it, in the order
    `generateGraph` pushes them: left, right, above, below.
   */
  lemma NeighboursOrdered(m: Maze, i: int, j: int)
    requires Shaped(m) && InBounds(m.grid, m.cols, (i, j))
    ensures var ns := Neighbours(m, i, j);
      forall a, b :: 0 <= a < b < |ns| ==> Side(m, i, j, ns[a]) < Side(m, i, j, ns[b]) < 4
  {
    OrderedLinks(m, i, j, LeftOpen(m, i, j), RightOpen(m, i, j), UpOpen(m, i, j), DownOpen(m, i, j));
  }

  /** The adjacency list of a cell lists exactly the vertices of the cells adjacent to it. */
  lemma NeighboursExact(m: Maze, i: int, j: int, d: Cell)
    requires Shaped(m) && InBounds(m.grid, m.cols, (i, j)) && InBounds(m.grid, m.cols, d)
    ensures m.vertices[d.0][d.1].id in Neighbours(m, i, j) <==> Adjacent(m.grid, m.cols, (i, j), d)
  {
    var x := m.vertices[d.0][d.1].id;
    InLinks(m, LeftOpen(m, i, j), (i, j - 1), RightOpen(m, i, j), (i, j + 1), UpOpen(m, i, j), (i - 1, j), DownOpen(m, i, j), (i + 1, j), x);
    OneNeighbour(m, d, (i, j - 1), LeftOpen(m, i, j));
    OneNeighbour(m, d, (i, j + 1), RightOpen(m, i, j));
    OneNeighbour(m, d, (i - 1, j), UpOpen(m, i, j));
    OneNeighbour(m, d, (i + 1, j), DownOpen(m, i, j));
  }

  lemma InLinks(m: Maze, p1: bool, e1: Cell, p2: bool, e2: Cell, p3: bool, e3: Cell, p4: bool, e4: Cell, v: int)
    requires Shaped(m)
    requires (p1 ==> InBounds(m.grid, m.cols, e1)) && (p2 ==> InBounds(m.grid, m.cols, e2))
    requires (p3 ==> InBounds(m.grid, m.cols, e3)) && (p4 ==> InBounds(m.grid, m.cols, e4))
    ensures v in Link(m, p1, e1) + Link(m, p2, e2) + Link(m, p3, e3) + Link(m, p4, e4) <==>
      || v in Link(m, p1, e1) || v in Link(m, p2, e2) || v in Link(m, p3, e3) || v in Link(m, p4, e4)
  {
  }

  /** A cell's vertex number is in a link exactly when the link is present and names that cell. */
  lemma OneNeighbour(m: Maze, d: Cell, e: Cell, present: bool)
    requires Shaped(m) && InBounds(m.grid, m.cols, d)
    requires present ==> InBounds(m.grid, m.cols, e)
    ensures m.vertices[d.0][d.1].id in Link(m, present, e) <==> present && d.0 == e.0 && d.1 == e.1
  {
    if present {
      VertexIdInjective(m, d, e);
    }
  }

  /** Distinct cells have distinct vertex numbers. */
  lemma VertexIdInjective(m: Maze, c: Cell, d: Cell)
    requires Shaped(m) && InBounds(m.grid, m.cols, c) && InBounds(m.grid, m.cols, d)
    ensures m.vertices[c.0][c.1].id == m.vertices[d.0][d.1].id <==> c == d
  {
    if m.vertices[c.0][c.1].id == m.vertices[d.0][d.1].id {
      DivModId(c.0, c.1, m.cols);
      DivModId(d.0, d.1, m.cols);
    }
  }

  /** The adjacency list of vertex `v`: the neighbours of the cell it numbers. */
  function NeighboursOf(m: Maze, v: int): (ns: seq<int>)
    requires Shaped(m) && 0 <= v < m.rows * m.cols
    ensures forall k :: 0 <= k < |ns| ==> 0 <= ns[k] < m.rows * m.cols
    ensures forall w :: w in ns <==> 0 <= w < m.rows * m.cols && Adjacent(m.grid, m.cols, CellOf(m, v), CellOf(m, w))
  {
    var c := CellOf(m, v);
    NeighboursInRange(m, c.0, c.1);
    assert forall w :: w in Neighbours(m, c.0, c.1) <==> 0 <= w < m.rows * m.cols && Adjacent(m.grid, m.cols, c, CellOf(m, w)) by {
      forall w
        ensures w in Neighbours(m, c.0, c.1) <==> 0 <= w < m.rows * m.cols && Adjacent(m.grid, m.cols, c, CellOf(m, w))
      {
        if 0 <= w < m.rows * m.cols {
          NeighboursExact(m, c.0, c.1, CellOf(m, w));
        }
      }
    }
    Neighbours(m, c.0, c.1)
  }

  /**
    `generateGraph`: the adjacency list, indexed by vertex number. Every
    neighbour it lists is a vertex.
   */
  function GenerateGraph(m: Maze): (g: seq<seq<int>>)
    requires Shaped(m)
    ensures |g| == m.rows * m.cols
    ensures forall v :: 0 <= v < |g| ==> g[v] == NeighboursOf(m, v)
    ensures Bfs.GraphOk(g)
  {
    seq(m.rows * m.cols, v requires Shaped(m) && 0 <= v < m.rows * m.cols => NeighboursOf(m, v))
  }

  /** The adjacency list depends on the walls only, not on what the cache holds. */
  lemma GraphIgnoresCache(m: Maze, cache: seq<seq<int>>)
    requires Shaped(m)
    ensures GenerateGraph(m.(graph := cache)) == GenerateGraph(m)
  {
    var g, g2 := GenerateGraph(m), GenerateGraph(m.(graph := cache));
    forall v | 0 <= v < |g|
      ensures g2[v] == g[v]
    {
      NeighboursIgnoreCache(m, cache, v);
    }
  }

  lemma NeighboursIgnoreCache(m: Maze, cache: seq<seq<int>>, v: int)
    requires Shaped(m) && 0 <= v < m.rows * m.cols
    ensures NeighboursOf(m.(graph := cache), v) == NeighboursOf(m, v)
  {
    var m2 := m.(graph := cache);
    var c := CellOf(m, v);
    assert CellOf(m2, v) == c;
    assert Neighbours(m2, c.0, c.1) == Neighbours(m, c.0, c.1);
  }

  /** Two vertices are joined in the generated graph exactly when their cells are adjacent. */
  lemma GraphAdjacency(m: Maze, u: int, v: int)
    requires Shaped(m) && 0 <= u < m.rows * m.cols && 0 <= v < m.rows * m.cols
    ensures v in GenerateGraph(m)[u] <==> Adjacent(m.grid, m.cols, CellOf(m, u), CellOf(m, v))
  {
  }

  /** The generated graph is undirected. */
  lemma GraphSymmetric(m: Maze, u: int, v: int)
    requires Shaped(m) && 0 <= u < m.rows * m.cols && 0 <= v < m.rows * m.cols
    ensures v in GenerateGraph(m)[u] <==> u in GenerateGraph(m)[v]
  {
    GraphAdjacency(m, u, v);
    GraphAdjacency(m, v, u);
    AdjacentSymmetric(m.grid, m.cols, CellOf(m, u), CellOf(m, v));
  }

  /** The cells a vertex path passes through: `(id / cols, id % cols)` for each id. */
  function CellsOf(m: Maze, p: seq<int>): (cs: seq<Cell>)
    requires Shaped(m) && forall k :: 0 <= k < |p| ==> 0 <= p[k] < m.rows * m.cols
    ensures |cs| == |p|
    ensures forall k :: 0 <= k < |p| ==> cs[k] == CellOf(m, p[k])
  {
    seq(|p|, k requires 0 <= k < |p| => CellOf(m, p[k]))
  }

  /** The vertex numbers of the cells of a walk. */
  function IdsOf(m: Maze, w: seq<Cell>): (p: seq<int>)
    requires Shaped(m) && forall k :: 0 <= k < |w| ==> InBounds(m.grid, m.cols, w[k])
    ensures |p| == |w|
    ensures forall k :: 0 <= k < |w| ==> p[k] == IdOf(m, w[k])
  {
    seq(|w|, k requires 0 <= k < |w| => IdOf(m, w[k]))
  }

  /** A path through the generated graph is a walk through the maze, and repeats no cell if it repeats no vertex. */
  lemma PathIsWalk(m: Maze, p: seq<int>)
    requires Shaped(m) && Bfs.IsPath(GenerateGraph(m), p)
    ensures IsWalk(m.grid, m.cols, CellsOf(m, p))
    ensures Bfs.NoRepeats(p) ==> forall a, b :: 0 <= a < b < |p| ==> CellsOf(m, p)[a] != CellsOf(m, p)[b]
  {
    var cs := CellsOf(m, p);
    forall k | 0 <= k < |p| - 1
      ensures Adjacent(m.grid, m.cols, cs[k], cs[k + 1])
    {
      GraphAdjacency(m, p[k], p[k + 1]);
    }
  }

  /** A walk through the maze is a path through the generated graph of the same length. */
  lemma WalkIsPath(m: Maze, w: seq<Cell>)
    requires Shaped(m) && IsWalk(m.grid, m.cols, w)
    ensures Bfs.IsPath(GenerateGraph(m), IdsOf(m, w))
  {
    var p := IdsOf(m, w);
    forall k | 0 <= k < |p| - 1
      ensures p[k + 1] in GenerateGraph(m)[p[k]]
    {
      GraphAdjacency(m, p[k], p[k + 1]);
    }
  }

  /** No cell occurs twice. */
  predicate Simple(w: seq<Cell>) {
    forall a, b :: 0 <= a < b < |w| ==> w[a] != w[b]
  }

  /** With no path between the vertices of two cells, no walk joins the cells. */
  lemma NoPathNoWalk(m: Maze, a: Cell, b: Cell)
    requires Shaped(m) && InBounds(m.grid, m.cols, a) && InBounds(m.grid, m.cols, b)
    requires !exists p :: Bfs.PathFromTo(GenerateGraph(m), p, IdOf(m, a), IdOf(m, b))
    ensures !Connected(m.grid, m.cols, a, b)
  {
    if Connected(m.grid, m.cols, a, b) {
      var w :| IsWalk(m.grid, m.cols, w) && w[0] == a && w[|w| - 1] == b;
      WalkIsPath(m, w);
      assert Bfs.PathFromTo(GenerateGraph(m), IdsOf(m, w), IdOf(m, a), IdOf(m, b));
    }
  }

  /** The cells of a vertex path between the vertices of two cells form a simple walk between the cells. */
  lemma PathBetweenCells(m: Maze, a: Cell, b: Cell, ids: seq<int>)
    requires Shaped(m) && InBounds(m.grid, m.cols, a) && InBounds(m.grid, m.cols, b)
    requires Bfs.PathFromTo(GenerateGraph(m), ids, IdOf(m, a), IdOf(m, b)) && Bfs.NoRepeats(ids)
    ensures IsWalk(m.grid, m.cols, CellsOf(m, ids)) && Simple(CellsOf(m, ids))
    ensures CellsOf(m, ids)[0] == a && CellsOf(m, ids)[|ids| - 1] == b
    ensures Connected(m.grid, m.cols, a, b)
  {
    PathIsWalk(m, ids);
    var cs := CellsOf(m, ids);
    assert cs[|ids| - 1] == b;
  }

  /** A vertex path no longer than any other is no longer than any walk between the cells. */
  lemma ShortestPathShortestWalk(m: Maze, a: Cell, b: Cell, n: nat)
    requires Shaped(m) && InBounds(m.grid, m.cols, a) && InBounds(m.grid, m.cols, b)
    requires forall p :: Bfs.PathFromTo(GenerateGraph(m), p, IdOf(m, a), IdOf(m, b)) ==> n <= |p|
    ensures forall w :: IsWalk(m.grid, m.cols, w) && w[0] == a && w[|w| - 1] == b ==> n <= |w|
  {
    forall w | IsWalk(m.grid, m.cols, w) && w[0] == a && w[|w| - 1] == b
      ensures n <= |w|
    {
      WalkIsPath(m, w);
      assert Bfs.PathFromTo(GenerateGraph(m), IdsOf(m, w), IdOf(m, a), IdOf(m, b));
    }
  }

  /**
    `getSolution`: the shortest route between two cells, or `[]` when the
    maze is empty, a point lies outside it, or no route exists. The first
    query builds the adjacency list and keeps it in the returned maze;
    nothing else about the maze changes.
   */
  method GetSolution(m: Maze, row1: int, col1: int, row2: int, col2: int) returns (m': Maze, path: seq<Cell>)
    requires Valid(m)
    ensures Valid(m')
    ensures m'.rows == m.rows && m'.cols == m.cols && m'.grid == m.grid && m'.vertices == m.vertices
    ensures IsEmpty(m) || !IsValidPoints(m, row1, col1, row2, col2) ==> m' == m && path == []
    ensures !IsEmpty(m) && IsValidPoints(m, row1, col1, row2, col2) ==> m'.graph == GenerateGraph(m)
    ensures m.graph != [] ==> m' == m
    ensures path != [] ==>
      && IsWalk(m.grid, m.cols, path) && Simple(path)
      && path[0] == (row1, col1) && path[|path| - 1] == (row2, col2)
    ensures path != [] <==>
      && InBounds(m.grid, m.cols, (row1, col1)) && InBounds(m.grid, m.cols, (row2, col2))
      && Connected(m.grid, m.cols, (row1, col1), (row2, col2))
    ensures path != [] ==> forall w :: IsWalk(m.grid, m.cols, w) && w[0] == (row1, col1) && w[|w| - 1] == (row2, col2) ==> |path| <= |w|
    ensures InBounds(m.grid, m.cols, (row1, col1)) && (row1, col1) == (row2, col2) ==> path == [(row1, col1)]
    ensures (row1, col1) != (row2, col2) && Adjacent(m.grid, m.cols, (row1, col1), (row2, col2)) ==>
      path == [(row1, col1), (row2, col2)]
  {
    var a, b := (row1, col1), (row2, col2);
    if IsEmpty(m) || !IsValidPoints(m, row1, col1, row2, col2) {
      return m, [];
    }
    m' := m;
    if m.graph == [] {
      m' := m.(graph := GenerateGraph(m));
      GraphIgnoresCache(m, GenerateGraph(m));
    }
    path := Route(m, m'.graph, a, b);
  }

  /**
    The search part of `getSolution`, on the maze's generated graph: a
    breadth-first search between the two cells' vertices, whose vertex
    path is turned back into cells.
   */
  method Route(m: Maze, g: seq<seq<int>>, a: Cell, b: Cell) returns (path: seq<Cell>)
    requires Shaped(m) && g == GenerateGraph(m)
    requires InBounds(m.grid, m.cols, a) && InBounds(m.grid, m.cols, b)
    ensures path != [] ==> IsWalk(m.grid, m.cols, path) && Simple(path) && path[0] == a && path[|path| - 1] == b
    ensures path != [] <==> Connected(m.grid, m.cols, a, b)
    ensures path != [] ==> forall w :: IsWalk(m.grid, m.cols, w) && w[0] == a && w[|w| - 1] == b ==> |path| <= |w|
    ensures a == b ==> path == [a]
    ensures a != b && Adjacent(m.grid, m.cols, a, b) ==> path == [a, b]
  {
    var ids := Bfs.Search(g, IdOf(m, a), IdOf(m, b));
    AdjacentConnected(m.grid, m.cols, a, b);
    if ids == [] {
      NoPathNoWalk(m, a, b);
      return [];
    }
    PathBetweenCells(m, a, b, ids);
    ShortestPathShortestWalk(m, a, b, |ids|);
    path := CellsOf(m, ids);
    if a != b && Adjacent(m.grid, m.cols, a, b) {
      ShortestStep(m.grid, m.cols, path, a, b);
    }
  }
}

/**
  `MazeSerializer`: the maze file format.

  A file is a header line `rows cols`, then `rows` lines of right-wall
  bits, an empty line, and `rows` lines of down-wall bits, the values of a
  line separated by single spaces. `Save` models what `saveToFile` writes
  as that sequence of lines, each a sequence of integers; `Text` is the
  whitespace-separated token stream `operator>>` reads back from it.
  `Load` models `readFromFile` on a token stream: a token is an integer,
  or anything `operator>>` cannot read as one.
 */
module Serializer {
  import opened Walls
  import opened Grid
  import MazeCore
  import opened MazeBuilder

  datatype Token = Num(value: int) | Other

  /** `cell & RIGHT`, the value written for a cell in the first plane: its right-wall bit. */
  function RightOut(c: Flags): (b: int)
    ensures b == Bit(c.right)
  {
    RightBitIsAnd(c);
    BitAnd(ToInt(c), ToInt(RIGHT))
  }

  /** `(cell & DOWN) >> 1`, the value written for a cell in the second plane: its down-wall bit. */
  function DownOut(c: Flags): (b: int)
    ensures b == Bit(c.down)
  {
    DownBitIsAnd(c);
    BitAnd(ToInt(c), ToInt(DOWN)) / 2
  }

  /** The right-wall plane: one line of `cols` bits per row. */
  function RightPlane(g: seq<seq<Flags>>, cols: nat): (p: seq<seq<int>>)
    requires WellFormed(g, cols)
    ensures |p| == |g|
    ensures forall i :: 0 <= i < |p| ==> |p[i]| == cols
    ensures forall i, j :: 0 <= i < |g| && 0 <= j < cols ==> p[i][j] == Bit(g[i][j].right)
  {
    seq(|g|, i requires 0 <= i < |g| => seq(cols, j requires 0 <= j < cols => RightOut(g[i][j])))
  }

  /** The down-wall plane: one line of `cols` bits per row. */
  function DownPlane(g: seq<seq<Flags>>, cols: nat): (p: seq<seq<int>>)
    requires WellFormed(g, cols)
    ensures |p| == |g|
    ensures forall i :: 0 <= i < |p| ==> |p[i]| == cols
    ensures forall i, j :: 0 <= i < |g| && 0 <= j < cols ==> p[i][j] == Bit(g[i][j].down)
  {
    seq(|g|, i requires 0 <= i < |g| => seq(cols, j requires 0 <= j < cols => DownOut(g[i][j])))
  }

  /**
    `saveToFile`: nothing for a maze with no cells; otherwise the header,
    the right-wall plane, an empty line and the down-wall plane, one line
    per row. Every value written after the header is 0 or 1.
   */
  function Save(m: MazeCore.Maze): (lines: seq<seq<int>>)
    requires MazeCore.Shaped(m)
    ensures m.rows < 1 || m.cols < 1 ==> lines == []
    ensures m.rows >= 1 && m.cols >= 1 ==>
      && |lines| == 2 * m.rows + 2
      && lines[0] == [m.rows, m.cols]
      && lines[m.rows + 1] == []
      && lines[1..m.rows + 1] == RightPlane(m.grid, m.cols)
      && lines[m.rows + 2..] == DownPlane(m.grid, m.cols)
  {
    if m.rows < 1 || m.cols < 1 then []
    else [[m.rows, m.cols]] + RightPlane(m.grid, m.cols) + [[]] + DownPlane(m.grid, m.cols)
  }

  /** Every line after the header holds `cols` values, each 0 or 1, except the empty separator line. */
  lemma SavedBits(m: MazeCore.Maze)
    requires MazeCore.Shaped(m)
    ensures var lines := Save(m);
      forall i :: 1 <= i < |lines| ==>
        && (i == m.rows + 1 <==> lines[i] == [])
        && (i != m.rows + 1 ==> |lines[i]| == m.cols)
        && forall j :: 0 <= j < |lines[i]| ==> lines[i][j] == 0 || lines[i][j] == 1
  {
    var lines := Save(m);
    if m.rows >= 1 && m.cols >= 1 {
      var rp, dp := RightPlane(m.grid, m.cols), DownPlane(m.grid, m.cols);
      forall i | 1 <= i < |lines|
        ensures i == m.rows + 1 <==> lines[i] == []
        ensures i != m.rows + 1 ==> |lines[i]| == m.cols
        ensures forall j :: 0 <= j < |lines[i]| ==> lines[i][j] == 0 || lines[i][j] == 1
      {
        if i <= m.rows {
          assert lines[i] == rp[i - 1];
        } else if i > m.rows + 1 {
          assert lines[i] == dp[i - m.rows - 2];
        }
      }
    }
  }

  /** The values of the lines, in order. */
  function Flatten(lines: seq<seq<int>>): seq<int> {
    if |lines| == 0 then [] else lines[0] + Flatten(lines[1..])
  }

  /** What `operator>>` reads back from the text of `lines`: every value, as a token. */
  function Text(lines: seq<seq<int>>): (ts: seq<Token>)
    ensures |ts| == |Flatten(lines)|
    ensures forall k :: 0 <= k < |ts| ==> ts[k] == Num(Flatten(lines)[k])
  {
    var flat := Flatten(lines);
    seq(|flat|, k requires 0 <= k < |flat| => Num(flat[k]))
  }

  /** Tokens `lo .. hi-1` are present and are integers. */
  predicate Numeric(ts: seq<Token>, lo: int, hi: int) {
    0 <= lo <= hi <= |ts| && forall k :: lo <= k < hi ==> ts[k].Num?
  }

  /** The header is two positive integers. */
  predicate HeaderOk(ts: seq<Token>) {
    Numeric(ts, 0, 2) && ts[0].value > 0 && ts[1].value > 0
  }

  /** The integers of tokens `lo .. hi-1`. */
  function Ints(ts: seq<Token>, lo: int, hi: int): (vs: seq<int>)
    requires Numeric(ts, lo, hi)
    ensures |vs| == hi - lo
    ensures forall k :: 0 <= k < |vs| ==> Num(vs[k]) == ts[lo + k]
  {
    seq(hi - lo, k requires 0 <= k < hi - lo => ts[lo + k].value)
  }

  /** `rows` consecutive slices of `cols` values: the inverse of `Flatten` on lines of one width. */
  function Chunk(s: seq<int>, rows: nat, cols: nat): (p: seq<seq<int>>)
    requires |s| == rows * cols
    ensures |p| == rows
    ensures forall i :: 0 <= i < rows ==> |p[i]| == cols
    decreases rows
  {
    if rows == 0 then []
    else
      MazeCore.MulSucc(rows - 1, cols);
      [s[..cols]] + Chunk(s[cols..], rows - 1, cols)
  }

  /**
    The cell read from right-plane value `r` and down-plane value `d`:
    `grid[i][j] = r`, then `grid[i][j] |= d << 1`.
   */
  function ReadCell(r: int, d: int): Flags {
    FromInt(BitOr(r, 2 * d))
  }

  /** A cell read from two bits is the wall value with exactly those walls. */
  lemma ReadBits(r: int, d: int)
    requires r == 0 || r == 1
    requires d == 0 || d == 1
    ensures ReadCell(r, d) == Flags(r == 1, d == 1, 0)
  {
    OrBits(0, 0, r, d, 0);
  }

  /** The maze a well-formed stream describes: `Maze(rows, cols)` with the cells read from the two planes. */
  function Filled(rows: nat, cols: nat, rp: seq<seq<int>>, dp: seq<seq<int>>): (m: MazeCore.Maze)
    requires |rp| == rows && |dp| == rows
    requires forall i :: 0 <= i < rows ==> |rp[i]| == cols && |dp[i]| == cols
    ensures MazeCore.Valid(m) && m.graph == [] && m.rows == rows && m.cols == cols
    ensures forall i, j :: 0 <= i < rows && 0 <= j < cols ==> m.grid[i][j] == ReadCell(rp[i][j], dp[i][j])
  {
    MazeCore.NewMaze(rows, cols).(grid := seq(rows, i requires 0 <= i < rows =>
      seq(cols, j requires 0 <= j < cols => ReadCell(rp[i][j], dp[i][j]))))
  }

  /**
    `readFromFile` on a token stream: `Maze(0, 0)` when the header is
    missing, not numeric or not positive, or when fewer than
    `2 * rows * cols` integers follow it; otherwise a `rows x cols` maze
    whose cells combine the two planes, read row by row. Tokens after the
    second plane are never read.
   */
  function Load(ts: seq<Token>): (m: MazeCore.Maze)
    ensures MazeCore.Valid(m) && m.graph == []
    ensures m.rows >= 1 <==> HeaderOk(ts) && Numeric(ts, 2, 2 + 2 * (ts[0].value * ts[1].value))
    ensures m.rows < 1 ==> m == MazeCore.NewMaze(0, 0)
    ensures m.rows >= 1 ==> m.rows == ts[0].value && m.cols == ts[1].value
  {
    if !HeaderOk(ts) then MazeCore.NewMaze(0, 0)
    else
      var rows, cols := ts[0].value, ts[1].value;
      var n := rows * cols;
      if !Numeric(ts, 2, 2 + 2 * n) then MazeCore.NewMaze(0, 0)
      else
        Filled(rows, cols, Chunk(Ints(ts, 2, 2 + n), rows, cols), Chunk(Ints(ts, 2 + n, 2 + 2 * n), rows, cols))
  }

  /** Row `i` of a chunked sequence starts at `i * cols`. */
  lemma {:induction false} ChunkAt(s: seq<int>, rows: nat, cols: nat, i: int, j: int)
    requires |s| == rows * cols && 0 <= i < rows && 0 <= j < cols
    ensures 0 <= i * cols + j < |s|
    ensures Chunk(s, rows, cols)[i][j] == s[i * cols + j]
    decreases rows
  {
    MazeCore.MulSucc(rows - 1, cols);
    if i > 0 {
      ChunkAt(s[cols..], rows - 1, cols, i - 1, j);
      MazeCore.MulSucc(i - 1, cols);
    }
  }

  /** Loaded cell `(i, j)` combines value `i * cols + j` of each plane. */
  lemma LoadCell(ts: seq<Token>, i: int, j: int)
    requires Load(ts).rows >= 1
    requires 0 <= i < Load(ts).rows && 0 <= j < Load(ts).cols
    ensures var rows, cols := ts[0].value, ts[1].value; var n := rows * cols;
      && 0 <= i * cols + j < n
      && Load(ts).grid[i][j] == ReadCell(ts[2 + i * cols + j].value, ts[2 + n + i * cols + j].value)
  {
    var rows, cols := ts[0].value, ts[1].value;
    var n := rows * cols;
    ChunkAt(Ints(ts, 2, 2 + n), rows, cols, i, j);
    ChunkAt(Ints(ts, 2 + n, 2 + 2 * n), rows, cols, i, j);
  }

  lemma {:induction false} FlattenAppend(a: seq<seq<int>>, b: seq<seq<int>>)
    ensures Flatten(a + b) == Flatten(a) + Flatten(b)
    decreases |a|
  {
    if |a| == 0 {
      assert a + b == b;
    } else {
      assert (a + b)[1..] == a[1..] + b;
      FlattenAppend(a[1..], b);
    }
  }

  /** Chunking undoes flattening lines of one width. */
  lemma {:induction false} ChunkFlatten(p: seq<seq<int>>, cols: nat)
    requires forall i :: 0 <= i < |p| ==> |p[i]| == cols
    ensures |Flatten(p)| == |p| * cols
    ensures Chunk(Flatten(p), |p|, cols) == p
    decreases |p|
  {
    if |p| > 0 {
      ChunkFlatten(p[1..], cols);
      MazeCore.MulSucc(|p| - 1, cols);
      var f := Flatten(p);
      assert f[..cols] == p[0] && f[cols..] == Flatten(p[1..]);
      assert p == [p[0]] + p[1..];
    }
  }

  /** The tokens of a saved maze: the header, then the right-wall plane, then the down-wall plane, flattened. */
  lemma SavedText(m: MazeCore.Maze, rp: seq<seq<int>>, dp: seq<seq<int>>)
    requires MazeCore.Shaped(m) && m.rows >= 1 && m.cols >= 1
    requires rp == RightPlane(m.grid, m.cols) && dp == DownPlane(m.grid, m.cols)
    ensures Flatten(Save(m)) == [m.rows, m.cols] + Flatten(rp) + Flatten(dp)
  {
    var lines := Save(m);
    var head, blank := [[m.rows, m.cols]], [[]];
    assert lines == head + rp + blank + dp;
    FlattenAppend(head + rp + blank, dp);
    FlattenAppend(head + rp, blank);
    FlattenAppend(head, rp);
    assert Flatten(head) == [m.rows, m.cols] by {
      assert head[1..] == [];
    }
    assert Flatten(blank) == [] by {
      assert blank[1..] == [];
    }
  }

  /** The tokens of a saved maze form a complete file whose planes are the flattened wall planes. */
  lemma SavedTokens(m: MazeCore.Maze, ts: seq<Token>, fr: seq<int>, fd: seq<int>)
    requires MazeCore.Shaped(m) && m.rows >= 1 && m.cols >= 1
    requires ts == Text(Save(m))
    requires fr == Flatten(RightPlane(m.grid, m.cols)) && fd == Flatten(DownPlane(m.grid, m.cols))
    requires |fr| == m.rows * m.cols && |fd| == m.rows * m.cols
    ensures HeaderOk(ts) && ts[0].value == m.rows && ts[1].value == m.cols
    ensures Numeric(ts, 2, 2 + 2 * (m.rows * m.cols))
    ensures Ints(ts, 2, 2 + m.rows * m.cols) == fr
    ensures Ints(ts, 2 + m.rows * m.cols, 2 + 2 * (m.rows * m.cols)) == fd
  {
    SavedText(m, RightPlane(m.grid, m.cols), DownPlane(m.grid, m.cols));
    var flat := [m.rows, m.cols] + fr + fd;
    assert Flatten(Save(m)) == flat;
    assert forall k :: 0 <= k < |ts| ==> ts[k] == Num(flat[k]);
  }

  /** Loading a saved maze reads back exactly its two wall planes. */
  lemma LoadSaved(m: MazeCore.Maze)
    requires MazeCore.Shaped(m) && m.rows >= 1 && m.cols >= 1
    ensures Load(Text(Save(m))) == Filled(m.rows, m.cols, RightPlane(m.grid, m.cols), DownPlane(m.grid, m.cols))
  {
    var rp, dp := RightPlane(m.grid, m.cols), DownPlane(m.grid, m.cols);
    ChunkFlatten(rp, m.cols);
    ChunkFlatten(dp, m.cols);
    SavedTokens(m, Text(Save(m)), Flatten(rp), Flatten(dp));
  }

  /**
    Saving and loading keeps the size and both walls of every cell; of
    the rest of a cell's integer nothing is written, so it reads back
    as 0.
   */
  lemma SaveLoad(m: MazeCore.Maze)
    requires MazeCore.Shaped(m) && m.rows >= 1 && m.cols >= 1
    ensures var m' := Load(Text(Save(m)));
      && m'.rows == m.rows && m'.cols == m.cols && m'.vertices == m.vertices && m'.graph == []
      && forall i, j :: 0 <= i < m.rows && 0 <= j < m.cols ==>
           m'.grid[i][j] == Flags(m.grid[i][j].right, m.grid[i][j].down, 0)
  {
    var rp, dp := RightPlane(m.grid, m.cols), DownPlane(m.grid, m.cols);
    LoadSaved(m);
    var m' := Filled(m.rows, m.cols, rp, dp);
    forall i, j | 0 <= i < m.rows && 0 <= j < m.cols
      ensures m'.grid[i][j] == Flags(m.grid[i][j].right, m.grid[i][j].down, 0)
    {
      ReadBits(rp[i][j], dp[i][j]);
    }
  }

  /** For a maze of wall values, loading what was saved gives the maze back, without its graph. */
  lemma SaveLoadWalls(m: MazeCore.Maze)
    requires MazeCore.Shaped(m) && m.rows >= 1 && m.cols >= 1 && WallsOnly(m.grid)
    ensures Load(Text(Save(m))) == m.(graph := [])
  {
    var m' := Load(Text(Save(m)));
    SaveLoad(m);
    forall i | 0 <= i < m.rows
      ensures m'.grid[i] == m.grid[i]
    {
      assert Walled(m.grid[i]);
    }
  }

  /** Loading reads nothing past the second plane: tokens appended after a complete file change nothing. */
  lemma LoadIgnoresTail(ts: seq<Token>, extra: seq<Token>)
    requires Load(ts).rows >= 1
    ensures Load(ts + extra) == Load(ts)
  {
    var us := ts + extra;
    var rows, cols := ts[0].value, ts[1].value;
    var n := rows * cols;
    assert us[0] == ts[0] && us[1] == ts[1];
    assert Numeric(us, 2, 2 + 2 * n);
    assert Ints(us, 2, 2 + n) == Ints(ts, 2, 2 + n);
    assert Ints(us, 2 + n, 2 + 2 * n) == Ints(ts, 2 + n, 2 + 2 * n);
  }

  /** A stream whose header is missing, not numeric or not positive loads as the empty maze. */
  lemma LoadBadHeader(ts: seq<Token>)
    requires !HeaderOk(ts)
    ensures Load(ts) == MazeCore.NewMaze(0, 0)
  {
  }

  /** A stream with fewer than `2 * rows * cols` integers after the header loads as the empty maze, with no partial grid. */
  lemma LoadTruncated(ts: seq<Token>)
    requires HeaderOk(ts) && |ts| < 2 + 2 * ts[0].value * ts[1].value
    ensures Load(ts) == MazeCore.NewMaze(0, 0)
  {
  }
}

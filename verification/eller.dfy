/**
  `createMaze`: the row loop of Eller's algorithm, and why its result is
  a perfect maze.

  The loop finishes one row per pass. Before pass `i` the rows `0 .. i-1`
  are final (`pre`), and `line` holds the set ids row `i` starts with. The
  invariants below say what those ids mean in the finished rows:

  - `Carried`: a cell of row `i` has a set exactly when the cell above it
    has no down wall, so it is joined to that cell;
  - `Joined`: two cells of row `i` with the same set are joined through
    the finished rows;
  - `Reaches`: every finished cell is joined to a cell of the last
    finished row with no down wall, so to a cell of row `i`;
  - `Counted`: the finished cells and the cells of row `i` with a set
    form a forest with one tree per set: passages = cells - sets.

  The last row merges all sets into one, so every cell is joined to every
  other and the maze has `rows * cols - 1` passages: it is connected and
  has no cycle.
 */
module Eller {
  import opened Walls
  import opened Grid
  import opened MazeBuilder
  import MazeCore

  /** Cells of row `i` with one set id in `line` are joined by a walk of `h`. */
  ghost predicate RowJoined(h: seq<seq<Flags>>, cols: int, i: int, line: seq<int>)
    requires WellFormed(h, cols) && 0 <= i < |h| && |line| == cols
  {
    forall a, b {:trigger Connected(h, cols, (i, a), (i, b))} ::
      0 <= a < cols && 0 <= b < cols && line[a] == line[b] ==> Connected(h, cols, (i, a), (i, b))
  }

  /** A cell of the next row has a set exactly when the cell above it has no down wall. */
  predicate Carried(pre: seq<seq<Flags>>, cols: int, line: seq<int>)
    requires WellFormed(pre, cols) && |line| == cols
  {
    forall a :: 0 <= a < cols ==> (line[a] != 0 <==> |pre| > 0 && !pre[|pre| - 1][a].down)
  }

  /** Cells of the next row with one set are joined, through the cells above them, by the finished rows. */
  ghost predicate Joined(pre: seq<seq<Flags>>, cols: int, line: seq<int>)
    requires WellFormed(pre, cols) && |line| == cols
  {
    |pre| > 0 ==>
      forall a, b {:trigger Connected(pre, cols, (|pre| - 1, a), (|pre| - 1, b))} ::
        0 <= a < cols && 0 <= b < cols && line[a] != 0 && line[a] == line[b] ==>
        Connected(pre, cols, (|pre| - 1, a), (|pre| - 1, b))
  }

  /** Every finished cell is joined to a cell of the last finished row that opens downward. */
  ghost predicate Reaches(pre: seq<seq<Flags>>, cols: int)
    requires WellFormed(pre, cols)
  {
    |pre| > 0 && forall x {:trigger Leaves(pre, cols, x)} :: InBounds(pre, cols, x) ==> Leaves(pre, cols, x)
  }

  /** Cell `x` is joined to some cell of the last finished row that opens downward. */
  ghost predicate Leaves(pre: seq<seq<Flags>>, cols: int, x: Cell)
    requires WellFormed(pre, cols) && |pre| > 0
  {
    exists c :: Exit(pre, cols, x, c)
  }

  /** Column `c` of the last finished row has no down wall, and cell `x` is joined to it. */
  ghost predicate Exit(pre: seq<seq<Flags>>, cols: int, x: Cell, c: int)
    requires WellFormed(pre, cols) && |pre| > 0
  {
    0 <= c < cols && !pre[|pre| - 1][c].down && Connected(pre, cols, x, (|pre| - 1, c))
  }

  /** The passages of the finished rows, the down passages out of the last one included. */
  function Below(pre: seq<seq<Flags>>): nat {
    if |pre| == 0 then 0 else Passages(pre) + OpenDown(pre[|pre| - 1], 0)
  }

  /**
    The finished cells and the next row's cells with a set form a forest
    whose trees are the sets: passages = cells - sets.
   */
  predicate Counted(pre: seq<seq<Flags>>, cols: int, line: seq<int>)
    requires |line| == cols
  {
    Below(pre) + |NonzeroValues(line)| == |pre| * cols + cols - Zeros(line)
  }

  /** Every set id of the line lies in `0 .. counter`: none is above the last one issued. */
  predicate Issued(line: seq<int>, counter: int) {
    counter >= 0 && forall a :: 0 <= a < |line| ==> 0 <= line[a] <= counter
  }

  /** A row with no wall at all, as `Maze(rows, cols)` and `deleteWalls` leave it. */
  predicate Blank(row: seq<Flags>) {
    forall a :: 0 <= a < |row| ==> row[a] == NONE
  }

  lemma WellFormedSnoc(pre: seq<seq<Flags>>, cols: int, row: seq<Flags>)
    requires WellFormed(pre, cols) && |row| == cols
    ensures WellFormed(pre + [row], cols)
    ensures (pre + [row])[..|pre|] == pre && (pre + [row])[|pre|] == row
  {
  }

  /**
    After `assignUniqueSet` two cells of the new row share a set only if
    they are one cell, or both came down from cells of one set above.
   */
  lemma AssignJoined(pre: seq<seq<Flags>>, cols: int, row: seq<Flags>, line: seq<int>, counter: int)
    requires WellFormed(pre, cols) && |row| == cols && |line| == cols
    requires Issued(line, counter)
    requires Carried(pre, cols, line) && Joined(pre, cols, line)
    ensures WellFormed(pre + [row], cols)
    ensures RowJoined(pre + [row], cols, |pre|, AssignUniqueSet(line, counter).0)
  {
    var h, i := pre + [row], |pre|;
    WellFormedSnoc(pre, cols, row);
    var L := AssignUniqueSet(line, counter).0;
    AssignIds(line, counter);
    AssignFresh(line, counter);
    forall a, b | 0 <= a < cols && 0 <= b < cols && L[a] == L[b]
      ensures Connected(h, cols, (i, a), (i, b))
    {
      if a == b {
        ConnectedRefl(h, cols, (i, a));
      } else {
        assert line[a] != 0 && line[b] != 0 && line[a] == line[b];
        ConnectedExtend(pre, h, cols, (i - 1, a), (i - 1, b));
        DownStepJoins(h, cols, i, a);
        DownStepJoins(h, cols, i, b);
        ConnectedSym(h, cols, (i - 1, a), (i, a));
        ConnectedTrans(h, cols, (i, a), (i - 1, a), (i - 1, b));
        ConnectedTrans(h, cols, (i, a), (i - 1, b), (i, b));
      }
    }
  }

  /** A cell with no down wall is joined to the cell below it. */
  lemma DownStepJoins(h: seq<seq<Flags>>, cols: int, i: int, a: int)
    requires WellFormed(h, cols) && 1 <= i < |h| && 0 <= a < cols
    requires !h[i - 1][a].down
    ensures Connected(h, cols, (i - 1, a), (i, a))
  {
    ConnectedStep(h, cols, (i - 1, a), (i, a));
  }

  /** Merging the sets of two cells with no wall between them keeps the sets joined. */
  lemma MergeJoined(h: seq<seq<Flags>>, cols: int, i: int, line: seq<int>, j: int)
    requires WellFormed(h, cols) && 0 <= i < |h| && |line| == cols && 0 <= j < cols - 1
    requires line[j] != line[j + 1] && !h[i][j].right
    requires RowJoined(h, cols, i, line)
    ensures RowJoined(h, cols, i, MergeSets(line, line[j], line[j + 1]))
  {
    var s1, s2 := line[j], line[j + 1];
    var merged := MergeSets(line, s1, s2);
    MergeClasses(line, s1, s2);
    ConnectedStep(h, cols, (i, j), (i, j + 1));
    ConnectedSym(h, cols, (i, j), (i, j + 1));
    forall a, b | 0 <= a < cols && 0 <= b < cols && merged[a] == merged[b]
      ensures Connected(h, cols, (i, a), (i, b))
    {
      if line[a] != line[b] {
        var ea := if line[a] == s1 then j else j + 1;
        var eb := if line[b] == s1 then j else j + 1;
        assert Connected(h, cols, (i, a), (i, ea));
        assert Connected(h, cols, (i, eb), (i, b));
        if ea == eb {
          ConnectedTrans(h, cols, (i, a), (i, ea), (i, b));
        } else {
          assert Connected(h, cols, (i, ea), (i, eb));
          ConnectedTrans(h, cols, (i, a), (i, ea), (i, eb));
          ConnectedTrans(h, cols, (i, a), (i, eb), (i, b));
        }
      }
    }
  }

  /**
    `createRightWalls` on a row with no right walls yet merges two sets
    only across a passage, so cells that end in one set are joined.
   */
  lemma {:induction false} RightWallsJoin(h: seq<seq<Flags>>, cols: int, i: int, row: seq<Flags>, line: seq<int>,
                                          coins: seq<bool>, k: int, j: int)
    requires WellFormed(h, cols) && 0 <= i < |h| && |row| == cols && |line| == cols && 0 <= j < cols
    requires forall a :: j <= a < cols ==> !row[a].right
    requires forall a :: j <= a < cols - 1 && !CreateRightWalls(row, line, coins, k, j).0[a].right ==> !h[i][a].right
    requires RowJoined(h, cols, i, line)
    ensures RowJoined(h, cols, i, CreateRightWalls(row, line, coins, k, j).1)
    decreases cols - j
  {
    if j < cols - 1 {
      var r := CreateRightWalls(row, line, coins, k, j);
      if Coin(coins, k + j) || line[j] == line[j + 1] {
        var walled := row[j := row[j].(right := true)];
        assert r == CreateRightWalls(walled, line, coins, k, j + 1);
        RightWallsJoin(h, cols, i, walled, line, coins, k, j + 1);
      } else {
        var merged := MergeSets(line, line[j], line[j + 1]);
        assert r == CreateRightWalls(row, merged, coins, k, j + 1);
        assert r.0[j] == row[j];
        MergeJoined(h, cols, i, line, j);
        RightWallsJoin(h, cols, i, row, merged, coins, k, j + 1);
      }
    }
  }

  /**
    On the last row every cell is joined to the first one: a cell whose
    set occurs further left is joined to that cell, and a cell whose set
    does not is entered through the passage `handleLastLine` leaves on
    its left.
   */
  lemma {:induction false} LastRowChain(h: seq<seq<Flags>>, cols: int, i: int, line: seq<int>, b: int)
    requires WellFormed(h, cols) && 0 <= i < |h| && |line| == cols && 0 <= b < cols
    requires RowJoined(h, cols, i, line)
    requires forall a :: 0 <= a < cols - 1 && !SeenLeftOf(line, a + 1) ==> !h[i][a].right
    ensures forall p {:trigger Connected(h, cols, (i, 0), (i, p))} :: 0 <= p <= b ==> Connected(h, cols, (i, 0), (i, p))
    decreases b
  {
    if b == 0 {
      ConnectedRefl(h, cols, (i, 0));
    } else {
      LastRowChain(h, cols, i, line, b - 1);
      if SeenLeftOf(line, b) {
        var p :| 0 <= p < b && line[..b][p] == line[b];
        assert Connected(h, cols, (i, p), (i, b));
        ConnectedTrans(h, cols, (i, 0), (i, p), (i, b));
      } else {
        ConnectedStep(h, cols, (i, b - 1), (i, b));
        ConnectedTrans(h, cols, (i, 0), (i, b - 1), (i, b));
      }
    }
  }

  /**
    When every set of the new row keeps a cell with no down wall, every
    finished cell, the new row's included, reaches such a cell.
   */
  lemma NextReaches(pre: seq<seq<Flags>>, cols: int, row: seq<Flags>, line: seq<int>)
    requires WellFormed(pre, cols) && |row| == cols && |line| == cols
    requires WellFormed(pre + [row], cols)
    requires |pre| > 0 ==> Reaches(pre, cols)
    requires RowJoined(pre + [row], cols, |pre|, line)
    requires HasOpening(row, line)
    ensures Reaches(pre + [row], cols)
  {
    var h, i := pre + [row], |pre|;
    WellFormedSnoc(pre, cols, row);
    forall x | InBounds(h, cols, x)
      ensures Leaves(h, cols, x)
    {
      var a := ReachRow(pre, cols, row, x);
      var c := OtherOpenCell(line, row, line[a], cols, -1);
      assert Connected(h, cols, (i, a), (i, c));
      ConnectedTrans(h, cols, x, (i, a), (i, c));
      assert Exit(h, cols, x, c);
    }
  }

  /** A cell of the grown grid is joined to some cell of its new row. */
  lemma ReachRow(pre: seq<seq<Flags>>, cols: int, row: seq<Flags>, x: Cell) returns (a: int)
    requires WellFormed(pre, cols) && |row| == cols
    requires WellFormed(pre + [row], cols)
    requires |pre| > 0 ==> Reaches(pre, cols)
    requires InBounds(pre + [row], cols, x)
    ensures 0 <= a < cols && Connected(pre + [row], cols, x, (|pre|, a))
  {
    var h, i := pre + [row], |pre|;
    WellFormedSnoc(pre, cols, row);
    if x.0 == i {
      a := x.1;
      ConnectedRefl(h, cols, x);
    } else {
      assert InBounds(pre, cols, x);
      var c := ExitOf(pre, cols, x);
      ConnectedExtend(pre, h, cols, x, (i - 1, c));
      DownStepJoins(h, cols, i, c);
      ConnectedTrans(h, cols, x, (i - 1, c), (i, c));
      a := c;
    }
  }

  /** The column through which a finished cell leaves the finished rows. */
  lemma ExitOf(pre: seq<seq<Flags>>, cols: int, x: Cell) returns (c: int)
    requires WellFormed(pre, cols) && |pre| > 0 && Reaches(pre, cols)
    requires InBounds(pre, cols, x)
    ensures 0 <= c < cols && !pre[|pre| - 1][c].down && Connected(pre, cols, x, (|pre| - 1, c))
  {
    assert Leaves(pre, cols, x);
    c :| Exit(pre, cols, x, c);
  }

  /** `deleteWalls` hands the next row the joined sets of the finished one. */
  lemma NextJoined(pre: seq<seq<Flags>>, cols: int, row: seq<Flags>, line: seq<int>)
    requires WellFormed(pre + [row], cols) && |row| == cols && |line| == cols
    requires RowJoined(pre + [row], cols, |pre|, line)
    requires forall a :: 0 <= a < cols ==> line[a] != 0
    ensures Joined(pre + [row], cols, DeleteWalls(row, line).1)
    ensures Carried(pre + [row], cols, DeleteWalls(row, line).1)
  {
    var h := pre + [row];
    assert h[|h| - 1] == row;
  }

  /** Every cell of a grid joined to one cell: the grid is connected. */
  lemma AllJoined(h: seq<seq<Flags>>, cols: int, hub: Cell)
    requires WellFormed(h, cols)
    requires forall x :: InBounds(h, cols, x) ==> Connected(h, cols, x, hub)
    ensures AllConnected(h, cols)
  {
    forall a, b | InBounds(h, cols, a) && InBounds(h, cols, b)
      ensures Connected(h, cols, a, b)
    {
      ConnectedSym(h, cols, b, hub);
      ConnectedTrans(h, cols, a, hub, b);
    }
  }

  /**
    One pass of the loop for a row that is not the last: the row gets its
    sets, right walls and down walls, and the next row starts from the
    ids `deleteWalls` leaves. The finished rows grow by one and all four
    invariants carry over; the ids stay within the counter.
   */
  lemma InnerRow(pre: seq<seq<Flags>>, cols: int, row: seq<Flags>, line: seq<int>, counter: int,
                 coins: seq<bool>, k: int,
                 numbered: (seq<int>, int), right: (seq<Flags>, seq<int>), walled: seq<Flags>, next: (seq<Flags>, seq<int>))
    requires WellFormed(pre, cols) && cols >= 1 && |row| == cols && |line| == cols
    requires Blank(row) && Issued(line, counter)
    requires Carried(pre, cols, line) && Joined(pre, cols, line) && (|pre| > 0 ==> Reaches(pre, cols))
    requires numbered == AssignUniqueSet(line, counter)
    requires right == CreateRightWalls(row, numbered.0, coins, k, 0)
    requires walled == CreateDownWalls(right.0, right.1, coins, k + cols - 1, 0)
    requires next == DeleteWalls(walled, right.1)
    ensures WellFormed(pre + [walled], cols)
    ensures Carried(pre + [walled], cols, next.1) && Joined(pre + [walled], cols, next.1) && Reaches(pre + [walled], cols)
    ensures Issued(next.1, numbered.1) && HasOpening(walled, right.1)
    ensures forall a :: 0 <= a < cols ==> right.1[a] != 0
  {
    var h := pre + [walled];
    WellFormedSnoc(pre, cols, walled);
    AssignJoined(pre, cols, walled, line, counter);
    RightWallsJoin(h, cols, |pre|, row, numbered.0, coins, k, 0);
    OpenRowHasOpening(right.0, right.1);
    IdsAfterRightWalls(row, line, counter, coins, k, numbered, right);
    NextReaches(pre, cols, walled, right.1);
    NextJoined(pre, cols, walled, right.1);
  }

  /**
    The count for a row that is not the last: its merges and its down
    passages keep passages = cells - sets.
   */
  lemma InnerRowCount(pre: seq<seq<Flags>>, cols: int, row: seq<Flags>, line: seq<int>, counter: int,
                      coins: seq<bool>, k: int,
                      numbered: (seq<int>, int), right: (seq<Flags>, seq<int>), walled: seq<Flags>, next: (seq<Flags>, seq<int>))
    requires cols >= 1 && |row| == cols && |line| == cols
    requires Blank(row) && Issued(line, counter) && Counted(pre, cols, line)
    requires numbered == AssignUniqueSet(line, counter)
    requires right == CreateRightWalls(row, numbered.0, coins, k, 0)
    requires walled == CreateDownWalls(right.0, right.1, coins, k + cols - 1, 0)
    requires next == DeleteWalls(walled, right.1)
    requires HasOpening(walled, right.1)
    requires forall a :: 0 <= a < cols ==> right.1[a] != 0
    ensures Counted(pre + [walled], cols, next.1)
  {
    RowCountAcross(row, cols, line, counter, coins, k, numbered, right, walled);
    NextValues(walled, right.1);
    CountedSnoc(pre, cols, walled, line, next.1);
  }

  /**
    Within one row: the sets the row starts with are its carried ids and
    its fresh cells, and each passage `createRightWalls` leaves open merges
    two of them into one.
   */
  lemma RowCountAcross(row: seq<Flags>, cols: int, line: seq<int>, counter: int, coins: seq<bool>, k: int,
                       numbered: (seq<int>, int), right: (seq<Flags>, seq<int>), walled: seq<Flags>)
    requires |row| == |line| == cols >= 1 && Blank(row) && Issued(line, counter)
    requires numbered == AssignUniqueSet(line, counter)
    requires right == CreateRightWalls(row, numbered.0, coins, k, 0)
    requires walled == CreateDownWalls(right.0, right.1, coins, k + cols - 1, 0)
    ensures NumSets(right.1) + OpenRight(walled, 0) == |NonzeroValues(line)| + Zeros(line)
  {
    AssignCount(line, counter);
    RightWallsCount(row, numbered.0, coins, k, 0);
    OpenRightFrame(walled, right.0, 0);
  }

  /** A finished row adds its passages across and its passages down. */
  lemma BelowSnoc(pre: seq<seq<Flags>>, row: seq<Flags>)
    ensures Below(pre + [row]) == Below(pre) + OpenRight(row, 0) + OpenDown(row, 0)
  {
    PassagesSnoc(pre, row);
    assert (pre + [row])[|pre|] == row;
  }

  /**
    A finished row keeps the count when its merges and its cells without
    a down wall balance: every set the row loses to a merge is a passage
    across, and every cell that opens downward carries its set on.
   */
  lemma CountedSnoc(pre: seq<seq<Flags>>, cols: int, row: seq<Flags>, line: seq<int>, ids: seq<int>)
    requires |row| == cols && |line| == cols && |ids| == cols
    requires Counted(pre, cols, line)
    requires |NonzeroValues(ids)| + OpenRight(row, 0) == |NonzeroValues(line)| + Zeros(line)
    requires Zeros(ids) + OpenDown(row, 0) == cols
    ensures Counted(pre + [row], cols, ids)
  {
    BelowSnoc(pre, row);
    CountStep(|pre|, cols, Below(pre), Below(pre + [row]), |NonzeroValues(line)|, Zeros(line),
              |NonzeroValues(ids)|, OpenRight(row, 0), OpenDown(row, 0),
              |NonzeroValues(ids)|, Zeros(ids));
  }

  /** The bookkeeping of one inner row: sets lost to merges and downward cells become passages. */
  lemma CountStep(n: int, cols: int, below: int, below': int, ids: int, zeros: int,
                  sets': int, across: int, down: int, ids': int, zeros': int)
    requires below + ids == n * cols + cols - zeros
    requires sets' + across == ids + zeros
    requires ids' == sets' && zeros' + down == cols
    requires below' == below + across + down
    ensures below' + ids' == (n + 1) * cols + cols - zeros'
  {
    MazeCore.MulSucc(n, cols);
  }

  /**
    The last pass: after `handleLastLine` the finished rows are the whole
    maze, every cell is joined to every other, and there are
    `cells - 1` passages.
   */
  lemma LastRow(pre: seq<seq<Flags>>, cols: int, row: seq<Flags>, line: seq<int>, counter: int,
                coins: seq<bool>, k: int,
                numbered: (seq<int>, int), right: (seq<Flags>, seq<int>), walled: seq<Flags>, last: (seq<Flags>, seq<int>))
    requires WellFormed(pre, cols) && cols >= 1 && |row| == cols && |line| == cols
    requires Blank(row) && Issued(line, counter)
    requires Carried(pre, cols, line) && Joined(pre, cols, line) && (|pre| > 0 ==> Reaches(pre, cols))
    requires numbered == AssignUniqueSet(line, counter)
    requires right == CreateRightWalls(row, numbered.0, coins, k, 0)
    requires walled == CreateDownWalls(right.0, right.1, coins, k + cols - 1, 0)
    requires last == HandleLastLine(walled, right.1, 0)
    ensures WellFormed(pre + [last.0], cols)
    ensures AllConnected(pre + [last.0], cols)
  {
    var h, i := pre + [last.0], |pre|;
    WellFormedSnoc(pre, cols, last.0);
    AssignJoined(pre, cols, last.0, line, counter);
    RightWallsJoin(h, cols, i, row, numbered.0, coins, k, 0);
    LastRowChain(h, cols, i, right.1, cols - 1);
    forall x | InBounds(h, cols, x)
      ensures Connected(h, cols, x, (i, 0))
    {
      var a := ReachRow(pre, cols, last.0, x);
      ConnectedSym(h, cols, (i, 0), (i, a));
      ConnectedTrans(h, cols, x, (i, a), (i, 0));
    }
    AllJoined(h, cols, (i, 0));
  }

  /** The count for the last pass: `rows * cols - 1` passages in all. */
  lemma LastRowCount(pre: seq<seq<Flags>>, cols: int, row: seq<Flags>, line: seq<int>, counter: int,
                     coins: seq<bool>, k: int,
                     numbered: (seq<int>, int), right: (seq<Flags>, seq<int>), walled: seq<Flags>, last: (seq<Flags>, seq<int>))
    requires cols >= 1 && |row| == cols && |line| == cols
    requires Blank(row) && Issued(line, counter) && Counted(pre, cols, line)
    requires numbered == AssignUniqueSet(line, counter)
    requires right == CreateRightWalls(row, numbered.0, coins, k, 0)
    requires walled == CreateDownWalls(right.0, right.1, coins, k + cols - 1, 0)
    requires last == HandleLastLine(walled, right.1, 0)
    ensures Passages(pre + [last.0]) == (|pre| + 1) * cols - 1
  {
    AssignCount(line, counter);
    RightWallsCount(row, numbered.0, coins, k, 0);
    RightWallsMerge(row, numbered.0, coins, k, 0);
    OpenRightFrame(walled, right.0, 0);
    LastLineCount(walled, right.1, 0);
    OneSet(last.1);
    PassagesSnoc(pre, last.0);
    MazeCore.MulSucc(|pre|, cols);
  }

  /**
    The ids a row ends `createRightWalls` with are ids `assignUniqueSet`
    handed out: at least 1 and at most the new counter.
   */
  lemma IdsAfterRightWalls(row: seq<Flags>, line: seq<int>, counter: int, coins: seq<bool>, k: int,
                           numbered: (seq<int>, int), right: (seq<Flags>, seq<int>))
    requires |row| == |line| >= 1 && Issued(line, counter)
    requires numbered == AssignUniqueSet(line, counter)
    requires right == CreateRightWalls(row, numbered.0, coins, k, 0)
    ensures forall a :: 0 <= a < |line| ==> 1 <= right.1[a] <= numbered.1
  {
    AssignFresh(line, counter);
    RightWallsCoarsen(row, numbered.0, coins, k, 0);
    forall a | 0 <= a < |line|
      ensures 1 <= right.1[a] <= numbered.1
    {
      assert right.1[a] in Values(numbered.0);
    }
  }

  /** The line `createMaze` starts with: no cell in any set. */
  lemma {:induction false} NoSets(n: nat)
    ensures Zeros(seq(n, _ => 0)) == n && NonzeroValues(seq(n, _ => 0)) == {}
  {
    var line: seq<int> := seq(n, _ => 0);
    if n > 0 {
      NoSets(n - 1);
      assert line[1..] == seq(n - 1, _ => 0);
    }
  }

  /** The rows one pass writes hold wall values only, and the next row starts with no wall. */
  lemma PassWalled(row: seq<Flags>, cols: int, numbered: (seq<int>, int), right: (seq<Flags>, seq<int>), walled: seq<Flags>,
                   coins: seq<bool>, k: int)
    requires |row| == |numbered.0| == cols >= 1 && Blank(row)
    requires right == CreateRightWalls(row, numbered.0, coins, k, 0)
    requires walled == CreateDownWalls(right.0, right.1, coins, k + cols - 1, 0)
    ensures Walled(walled)
    ensures Walled(HandleLastLine(walled, right.1, 0).0)
    ensures Blank(DeleteWalls(walled, right.1).0) && Walled(DeleteWalls(walled, right.1).0)
  {
  }

  /** The grid after an inner pass: row `i` finished, row `i + 1` started. */
  function NextGrid(grid: seq<seq<Flags>>, cols: int, i: int, walled: seq<Flags>, next: seq<Flags>): (g: seq<seq<Flags>>)
    requires 0 <= i < |grid| - 1 && WellFormed(grid, cols) && |walled| == cols && |next| == cols
    requires WallsOnly(grid) && Walled(walled) && Walled(next)
    requires Blank(next) && forall r :: i + 1 < r < |grid| ==> Blank(grid[r])
    ensures WellFormed(g, cols) && WallsOnly(g)
    ensures |g| == |grid| && g[..i + 1] == grid[..i] + [walled]
    ensures forall r :: i + 1 <= r < |g| ==> Blank(g[r])
  {
    grid[i := walled][i + 1 := next]
  }

  /** The grid after the last pass: every row finished. */
  function LastGrid(grid: seq<seq<Flags>>, cols: int, i: int, last: seq<Flags>): (g: seq<seq<Flags>>)
    requires |grid| >= 1 && i == |grid| - 1 && WellFormed(grid, cols) && |last| == cols
    requires WallsOnly(grid) && Walled(last)
    ensures WellFormed(g, cols) && WallsOnly(g)
    ensures g == grid[..i] + [last]
  {
    grid[i := last]
  }

  /**
    The state between two passes of `createMaze`: rows `0 .. i-1` are
    finished, row `i` and those below it have no wall yet, and `line`
    holds the sets row `i` starts with, related to the finished rows by
    the invariants above.
   */
  ghost predicate Between(grid: seq<seq<Flags>>, cols: int, i: int, line: seq<int>, counter: int) {
    Layout(grid, cols, i, line, counter) && Meaning(grid, cols, i, line)
  }

  /** The shape of the state between passes: sizes, wall values, blank rows, issued ids. */
  predicate Layout(grid: seq<seq<Flags>>, cols: int, i: int, line: seq<int>, counter: int) {
    && cols >= 1 && 0 <= i < |grid| && WellFormed(grid, cols)
    && WallsOnly(grid) && (forall r :: i <= r < |grid| ==> Blank(grid[r]))
    && |line| == cols && Issued(line, counter)
  }

  /** What the ids of the next row say about the finished rows. */
  ghost predicate Meaning(grid: seq<seq<Flags>>, cols: int, i: int, line: seq<int>)
    requires WellFormed(grid, cols) && 0 <= i <= |grid| && |line| == cols
  {
    && Carried(grid[..i], cols, line) && Joined(grid[..i], cols, line)
    && (i > 0 ==> Reaches(grid[..i], cols)) && Counted(grid[..i], cols, line)
  }

  /**
    A pass on a row that is not the last keeps the loop invariant, one
    row further down: the row gets its sets, right walls and down walls,
    and is copied into the next row, which `deleteWalls` clears.
   */
  lemma InnerPass(grid: seq<seq<Flags>>, cols: int, i: int, line: seq<int>, counter: int,
                  coins: seq<bool>, k: int,
                  numbered: (seq<int>, int), right: (seq<Flags>, seq<int>), walled: seq<Flags>, next: (seq<Flags>, seq<int>))
    requires Between(grid, cols, i, line, counter) && i < |grid| - 1
    requires numbered == AssignUniqueSet(line, counter)
    requires right == CreateRightWalls(grid[i], numbered.0, coins, k, 0)
    requires walled == CreateDownWalls(right.0, right.1, coins, k + cols - 1, 0)
    requires next == DeleteWalls(walled, right.1)
    ensures Between(NextGrid(grid, cols, i, walled, next.0), cols, i + 1, next.1, numbered.1)
  {
    InnerPassLayout(grid, cols, i, line, counter, coins, k, numbered, right, walled, next);
    InnerPassMeaning(grid, NextGrid(grid, cols, i, walled, next.0), cols, i, line, counter, coins, k, numbered, right, walled, next);
  }

  lemma InnerPassLayout(grid: seq<seq<Flags>>, cols: int, i: int, line: seq<int>, counter: int,
                        coins: seq<bool>, k: int,
                        numbered: (seq<int>, int), right: (seq<Flags>, seq<int>), walled: seq<Flags>, next: (seq<Flags>, seq<int>))
    requires Layout(grid, cols, i, line, counter) && i < |grid| - 1
    requires numbered == AssignUniqueSet(line, counter)
    requires right == CreateRightWalls(grid[i], numbered.0, coins, k, 0)
    requires walled == CreateDownWalls(right.0, right.1, coins, k + cols - 1, 0)
    requires next == DeleteWalls(walled, right.1)
    ensures Layout(NextGrid(grid, cols, i, walled, next.0), cols, i + 1, next.1, numbered.1)
  {
    PassWalled(grid[i], cols, numbered, right, walled, coins, k);
    IdsAfterRightWalls(grid[i], line, counter, coins, k, numbered, right);
  }

  lemma InnerPassMeaning(grid: seq<seq<Flags>>, g: seq<seq<Flags>>, cols: int, i: int, line: seq<int>, counter: int,
                         coins: seq<bool>, k: int,
                         numbered: (seq<int>, int), right: (seq<Flags>, seq<int>), walled: seq<Flags>, next: (seq<Flags>, seq<int>))
    requires Between(grid, cols, i, line, counter) && i < |grid| - 1
    requires numbered == AssignUniqueSet(line, counter)
    requires right == CreateRightWalls(grid[i], numbered.0, coins, k, 0)
    requires walled == CreateDownWalls(right.0, right.1, coins, k + cols - 1, 0)
    requires next == DeleteWalls(walled, right.1)
    requires WellFormed(g, cols) && |g| == |grid| && g[..i + 1] == grid[..i] + [walled] && |next.1| == cols
    ensures Meaning(g, cols, i + 1, next.1)
  {
    var pre, row := grid[..i], grid[i];
    InnerRow(pre, cols, row, line, counter, coins, k, numbered, right, walled, next);
    InnerPassCount(pre, g, cols, row, line, counter, coins, k, numbered, right, walled, next);
  }

  lemma InnerPassCount(pre: seq<seq<Flags>>, g: seq<seq<Flags>>, cols: int, row: seq<Flags>, line: seq<int>, counter: int,
                       coins: seq<bool>, k: int,
                       numbered: (seq<int>, int), right: (seq<Flags>, seq<int>), walled: seq<Flags>, next: (seq<Flags>, seq<int>))
    requires cols >= 1 && |row| == cols && |line| == cols
    requires Blank(row) && Issued(line, counter) && Counted(pre, cols, line)
    requires numbered == AssignUniqueSet(line, counter)
    requires right == CreateRightWalls(row, numbered.0, coins, k, 0)
    requires walled == CreateDownWalls(right.0, right.1, coins, k + cols - 1, 0)
    requires next == DeleteWalls(walled, right.1)
    requires HasOpening(walled, right.1)
    requires forall a :: 0 <= a < cols ==> right.1[a] != 0
    requires |g| > |pre| && g[..|pre| + 1] == pre + [walled]
    ensures Counted(g[..|pre| + 1], cols, next.1)
  {
    InnerRowCount(pre, cols, row, line, counter, coins, k, numbered, right, walled, next);
  }

  /**
    The last pass finishes the maze: after `handleLastLine` every cell is
    joined to every other, and there is one passage fewer than cells.
   */
  lemma LastPass(grid: seq<seq<Flags>>, cols: int, i: int, line: seq<int>, counter: int,
                 coins: seq<bool>, k: int,
                 numbered: (seq<int>, int), right: (seq<Flags>, seq<int>), walled: seq<Flags>, last: (seq<Flags>, seq<int>))
    requires Between(grid, cols, i, line, counter) && i == |grid| - 1
    requires numbered == AssignUniqueSet(line, counter)
    requires right == CreateRightWalls(grid[i], numbered.0, coins, k, 0)
    requires walled == CreateDownWalls(right.0, right.1, coins, k + cols - 1, 0)
    requires last == HandleLastLine(walled, right.1, 0)
    ensures WellFormed(LastGrid(grid, cols, i, last.0), cols) && WallsOnly(LastGrid(grid, cols, i, last.0))
    ensures AllConnected(LastGrid(grid, cols, i, last.0), cols)
    ensures Passages(LastGrid(grid, cols, i, last.0)) == |grid| * cols - 1
  {
    var pre, row := grid[..i], grid[i];
    PassWalled(row, cols, numbered, right, walled, coins, k);
    var g := LastGrid(grid, cols, i, last.0);
    LastRow(pre, cols, row, line, counter, coins, k, numbered, right, walled, last);
    LastPassCount(grid, cols, i, line, counter, coins, k, numbered, right, walled, last);
  }

  lemma LastPassCount(grid: seq<seq<Flags>>, cols: int, i: int, line: seq<int>, counter: int,
                      coins: seq<bool>, k: int,
                      numbered: (seq<int>, int), right: (seq<Flags>, seq<int>), walled: seq<Flags>, last: (seq<Flags>, seq<int>))
    requires cols >= 1 && i == |grid| - 1 >= 0 && WellFormed(grid, cols) && |line| == cols
    requires Blank(grid[i]) && Issued(line, counter) && Counted(grid[..i], cols, line)
    requires numbered == AssignUniqueSet(line, counter)
    requires right == CreateRightWalls(grid[i], numbered.0, coins, k, 0)
    requires walled == CreateDownWalls(right.0, right.1, coins, k + cols - 1, 0)
    requires last == HandleLastLine(walled, right.1, 0)
    ensures Passages(grid[..i] + [last.0]) == |grid| * cols - 1
  {
    LastRowCount(grid[..i], cols, grid[i], line, counter, coins, k, numbered, right, walled, last);
  }

  /**
    One pass of the loop of `createMaze`, on row `i` with the draws from
    `k` on: assign sets, place the right walls and the down walls, then
    either close the last row with `handleLastLine` or copy the row and
    its sets into the next one and clear them with `deleteWalls`. The loop
    invariant moves one row down; after the last row the maze is perfect.
   */
  method Pass(grid: seq<seq<Flags>>, cols: int, i: int, line: seq<int>, counter: int, coins: seq<bool>, k: int)
    returns (grid': seq<seq<Flags>>, line': seq<int>, counter': int)
    requires Between(grid, cols, i, line, counter)
    ensures |grid'| == |grid| && WellFormed(grid', cols) && WallsOnly(grid')
    ensures i + 1 < |grid| ==> Between(grid', cols, i + 1, line', counter')
    ensures i + 1 == |grid| ==> AllConnected(grid', cols) && Passages(grid') == |grid| * cols - 1
  {
    var numbered := AssignUniqueSet(line, counter);
    var right := CreateRightWalls(grid[i], numbered.0, coins, k, 0);
    var walled := CreateDownWalls(right.0, right.1, coins, k + cols - 1, 0);
    if i == |grid| - 1 {
      var last := HandleLastLine(walled, right.1, 0);
      LastPass(grid, cols, i, line, counter, coins, k, numbered, right, walled, last);
      grid', line', counter' := LastGrid(grid, cols, i, last.0), line, counter;
    } else {
      var next := DeleteWalls(walled, right.1);
      InnerPass(grid, cols, i, line, counter, coins, k, numbered, right, walled, next);
      grid', line', counter' := NextGrid(grid, cols, i, walled, next.0), next.1, numbered.1;
    }
  }

  /**
    `createMaze`: reset the maze, then for each row assign sets, place the
    right walls and the down walls, and either close the last row with
    `handleLastLine` or copy the row and its sets into the next one and
    clear them with `deleteWalls`. The random draws are the sequence
    `coins`, consumed `2 * cols - 1` per row (see `Coin`).

    For every draw the result is a perfect maze: all cells are joined, and
    there are exactly `rows * cols - 1` passages, one fewer than cells, so
    the passages form a spanning tree of the cells.
   */
  method CreateMaze(rows: int, cols: int, coins: seq<bool>) returns (m: MazeCore.Maze)
    ensures MazeCore.Valid(m) && m.graph == []
    ensures rows >= 1 && cols >= 1 ==> m.rows == rows && m.cols == cols
    ensures !(rows >= 1 && cols >= 1) ==> m.rows == 0 && m.cols == 0
    ensures MazeCore.IsEmpty(m) <==> rows < 1 || cols < 1
    ensures WallsOnly(m.grid)
    ensures AllConnected(m.grid, m.cols)
    ensures rows >= 1 && cols >= 1 ==> Passages(m.grid) == rows * cols - 1
  {
    m := ResetMaze(rows, cols);
    var R, C := m.rows, m.cols;
    if R == 0 {
      return;
    }
    var grid := m.grid;
    var line: seq<int> := seq(C, _ => 0);
    var counter := 0;
    var k := 0;
    var i := 0;
    NoSets(C);
    while i < R
      invariant 0 <= i <= R && |grid| == R && WellFormed(grid, C) && WallsOnly(grid)
      invariant i < R ==> Between(grid, C, i, line, counter)
      invariant i == R ==> AllConnected(grid, C) && Passages(grid) == R * C - 1
    {
      grid, line, counter := Pass(grid, C, i, line, counter, coins, k);
      k, i := k + 2 * C - 1, i + 1;
    }
    m := m.(grid := grid);
  }

  /**
    Generating a maze and asking it for a route: the route exists for
    every pair of cells inside the maze, and is a shortest walk through
    open passages between them.
   */
  method GenerateAndSolve(rows: int, cols: int, coins: seq<bool>, row1: int, col1: int, row2: int, col2: int)
    returns (m: MazeCore.Maze, path: seq<Cell>)
    ensures MazeCore.Valid(m) && WallsOnly(m.grid)
    ensures path != [] <==>
      && rows >= 1 && cols >= 1
      && 0 <= row1 < rows && 0 <= col1 < cols && 0 <= row2 < rows && 0 <= col2 < cols
    ensures path != [] ==>
      && IsWalk(m.grid, m.cols, path) && MazeCore.Simple(path)
      && path[0] == (row1, col1) && path[|path| - 1] == (row2, col2)
      && forall w :: IsWalk(m.grid, m.cols, w) && w[0] == (row1, col1) && w[|w| - 1] == (row2, col2) ==> |path| <= |w|
    ensures rows == 1 && cols == 2 && (row1, col1) == (0, 0) && (row2, col2) == (0, 1) ==> path == [(0, 0), (0, 1)]
  {
    var maze := CreateMaze(rows, cols, coins);
    if rows == 1 && cols == 2 {
      OnePassage(maze.grid);
    }
    m, path := MazeCore.GetSolution(maze, row1, col1, row2, col2);
  }

  /** Two cells side by side with one passage between them: the wall between them is open. */
  lemma OnePassage(g: seq<seq<Flags>>)
    requires WellFormed(g, 2) && |g| == 1 && Passages(g) == 1
    ensures Adjacent(g, 2, (0, 0), (0, 1))
  {
    assert Passages(g) == OpenRight(g[0], 0);
  }
}

/**
  `MazeBuilder`: Eller's algorithm, one row at a time.

  A row of the maze under construction is a `seq<Flags>` of wall flags, and
  beside it the builder keeps a `line`: the set id of every cell of the row
  (0 = no set yet). Cells with the same id are already joined by open
  passages. Each step of the program's member functions becomes a pure
  function from the row and line it reads to the row and line it writes.

  Randomness is an input: `coins[k]` is the `k`-th draw of `rand() % 2`
  (`true` for 1). Row `i` draws from position `i * (2 * cols - 1)`: first
  `cols - 1` draws for right walls, then `cols` draws for down walls, the
  last row included. A draw past the end of `coins` reads as 0.
 */
module MazeBuilder {
  import opened Walls
  import opened Grid
  import MazeCore

  /** The `k`-th draw of `rand() % 2 == 1`. */
  function Coin(coins: seq<bool>, k: int): bool {
    0 <= k < |coins| && coins[k]
  }

  /** The set ids that occur in a line. */
  function Values(line: seq<int>): set<int> {
    set x | x in line
  }

  /** The non-zero set ids of a line (0 marks a cell outside every set). */
  function NonzeroValues(line: seq<int>): set<int> {
    set x | x in line && x != 0
  }

  /** The number of distinct sets in a line. */
  function NumSets(line: seq<int>): nat {
    |Values(line)|
  }

  /** The number of cells of a line not yet in a set. */
  function Zeros(line: seq<int>): nat {
    if |line| == 0 then 0 else (if line[0] == 0 then 1 else 0) + Zeros(line[1..])
  }

  /** The integers `lo, lo + 1, ..., hi - 1`. */
  function Range(lo: int, hi: int): set<int>
    decreases hi - lo
  {
    if lo >= hi then {} else {lo} + Range(lo + 1, hi)
  }

  lemma {:induction false} RangeBounds(lo: int, hi: int)
    ensures forall x :: x in Range(lo, hi) <==> lo <= x < hi
    decreases hi - lo
  {
    if lo < hi {
      RangeBounds(lo + 1, hi);
    }
  }

  lemma {:induction false} RangeSize(lo: int, hi: int)
    requires lo <= hi
    ensures |Range(lo, hi)| == hi - lo
    decreases hi - lo
  {
    if lo < hi {
      RangeSize(lo + 1, hi);
      RangeBounds(lo + 1, hi);
    }
  }

  lemma ZerosPrefix(line: seq<int>, a: int)
    requires 0 < a <= |line|
    ensures Zeros(line[..a]) == (if line[0] == 0 then 1 else 0) + Zeros(line[1..][..a - 1])
  {
    assert line[..a][1..] == line[1..][..a - 1];
  }

  /** A zero further right has seen strictly more zeros before it. */
  lemma {:induction false} ZerosGrow(line: seq<int>, a: int, b: int)
    requires 0 <= a < b <= |line| && line[a] == 0
    ensures Zeros(line[..a]) < Zeros(line[..b])
    decreases a
  {
    ZerosPrefix(line, b);
    if a == 0 {
      assert line[0] == 0;
    } else {
      ZerosPrefix(line, a);
      ZerosGrow(line[1..], a - 1, b - 1);
    }
  }

  /**
    `assignUniqueSet`: every cell without a set gets a new id, the next
    value of the running counter, from left to right; cells already in a
    set keep their id. Returns the new line and the new counter.
   */
  function AssignUniqueSet(line: seq<int>, counter: int): (r: (seq<int>, int))
    ensures |r.0| == |line|
    ensures r.1 == counter + Zeros(line)
    decreases |line|
  {
    if |line| == 0 then ([], counter)
    else
      var isNew := line[0] == 0;
      var rest := AssignUniqueSet(line[1..], if isNew then counter + 1 else counter);
      ([if isNew then counter + 1 else line[0]] + rest.0, rest.1)
  }

  /**
    The ids after `assignUniqueSet`: a cell in a set keeps its id, and the
    cell without a set that has `z` such cells to its left gets
    `counter + z + 1`.
   */
  lemma {:induction false} AssignIds(line: seq<int>, counter: int)
    ensures forall a :: 0 <= a < |line| && line[a] != 0 ==> AssignUniqueSet(line, counter).0[a] == line[a]
    ensures forall a :: 0 <= a < |line| && line[a] == 0 ==> AssignUniqueSet(line, counter).0[a] == counter + Zeros(line[..a]) + 1
    decreases |line|
  {
    if |line| > 0 {
      var c := if line[0] == 0 then counter + 1 else counter;
      AssignIds(line[1..], c);
      forall a | 0 < a < |line| {
        ZerosPrefix(line, a);
      }
      assert line[..0] == [];
    }
  }

  /**
    The ids `assignUniqueSet` hands out are new: larger than the counter,
    so than every id already issued, no larger than the new counter, and
    all different. With a non-negative counter no cell is left without a set.
   */
  lemma AssignFresh(line: seq<int>, counter: int)
    requires counter >= 0
    requires forall a :: 0 <= a < |line| ==> 0 <= line[a] <= counter
    ensures var r := AssignUniqueSet(line, counter);
      && (forall a :: 0 <= a < |line| ==> 1 <= r.0[a] <= r.1)
      && (forall a :: 0 <= a < |line| && line[a] == 0 ==> counter < r.0[a])
      && (forall a, b :: 0 <= a < |line| && 0 <= b < |line| && line[a] == 0 && r.0[a] == r.0[b] ==> a == b)
  {
    var r := AssignUniqueSet(line, counter);
    AssignIds(line, counter);
    forall a, b | 0 <= a < |line| && 0 <= b < |line| && line[a] == 0 && r.0[a] == r.0[b]
      ensures a == b
    {
      if a < b {
        ZerosGrow(line, a, b);
      } else if b < a {
        ZerosGrow(line, b, a);
      }
    }
    forall a | 0 <= a < |line| && line[a] == 0
      ensures r.0[a] <= r.1
    {
      assert line[..a] + line[a..] == line;
      ZerosAppend(line[..a], line[a..]);
    }
  }

  lemma {:induction false} ZerosAppend(s: seq<int>, t: seq<int>)
    ensures Zeros(s + t) == Zeros(s) + Zeros(t)
    decreases |s|
  {
    if |s| > 0 {
      assert (s + t)[1..] == s[1..] + t;
      ZerosAppend(s[1..], t);
    } else {
      assert s + t == t;
    }
  }

  lemma ValuesCons(x: int, s: seq<int>)
    ensures Values([x] + s) == {x} + Values(s)
    ensures NonzeroValues([x] + s) == (if x == 0 then {} else {x}) + NonzeroValues(s)
  {
    assert forall y :: y in [x] + s <==> y == x || y in s;
  }

  /**
    The sets after `assignUniqueSet`: the sets the line already had, and
    one new singleton set for each cell that had none.
   */
  lemma {:induction false} AssignValues(line: seq<int>, counter: int, hi: int)
    requires hi == counter + Zeros(line) + 1
    ensures Values(AssignUniqueSet(line, counter).0) == NonzeroValues(line) + Range(counter + 1, hi)
    decreases |line|
  {
    var r := AssignUniqueSet(line, counter);
    if |line| == 0 {
      assert Values(r.0) == {};
      assert NonzeroValues(line) == {};
    } else {
      var c := if line[0] == 0 then counter + 1 else counter;
      AssignValues(line[1..], c, hi);
      var rest := AssignUniqueSet(line[1..], c);
      assert r.0 == [r.0[0]] + rest.0;
      ValuesCons(r.0[0], rest.0);
      assert line == [line[0]] + line[1..];
      ValuesCons(line[0], line[1..]);
      if line[0] == 0 {
        assert Range(counter + 1, hi) == {counter + 1} + Range(c, hi);
      }
    }
  }

  /**
    How many sets there are after `assignUniqueSet`: the non-zero ids the
    line had plus one per cell that had none.
   */
  lemma AssignCount(line: seq<int>, counter: int)
    requires forall a :: 0 <= a < |line| ==> 0 <= line[a] <= counter
    ensures NumSets(AssignUniqueSet(line, counter).0) == |NonzeroValues(line)| + Zeros(line)
  {
    var hi := counter + Zeros(line) + 1;
    AssignValues(line, counter, hi);
    RangeSize(counter + 1, hi);
    RangeBounds(counter + 1, hi);
    var kept := NonzeroValues(line);
    var added := Range(counter + 1, hi);
    forall x | x in kept
      ensures x !in added
    {
      var a :| 0 <= a < |line| && line[a] == x;
    }
    assert kept * added == {};
  }

  /**
    `mergeSets(line, s1, s2)`: every cell of set `s2` moves to set `s1`;
    every other cell keeps its id.
   */
  function MergeSets(line: seq<int>, s1: int, s2: int): (r: seq<int>)
    ensures |r| == |line|
    ensures forall a :: 0 <= a < |line| && line[a] == s2 ==> r[a] == s1
    ensures forall a :: 0 <= a < |line| && line[a] != s2 ==> r[a] == line[a]
  {
    seq(|line|, a requires 0 <= a < |line| => if line[a] == s2 then s1 else line[a])
  }

  /**
    After a merge two cells share a set exactly when they shared one
    before, or each was in `s1` or `s2`; no cell is left in `s2`.
   */
  lemma MergeClasses(line: seq<int>, s1: int, s2: int)
    requires s1 != s2
    ensures s2 !in MergeSets(line, s1, s2)
    ensures forall a, b :: 0 <= a < |line| && 0 <= b < |line| ==>
      (MergeSets(line, s1, s2)[a] == MergeSets(line, s1, s2)[b] <==>
        line[a] == line[b] || (line[a] in {s1, s2} && line[b] in {s1, s2}))
  {
  }

  /** Merging two different sets of the line removes exactly one set. */
  lemma MergeCount(line: seq<int>, s1: int, s2: int)
    requires s1 != s2 && s1 in line && s2 in line
    ensures Values(MergeSets(line, s1, s2)) == Values(line) - {s2}
    ensures NumSets(MergeSets(line, s1, s2)) == NumSets(line) - 1
  {
    var m := MergeSets(line, s1, s2);
    assert Values(m) == Values(line) - {s2} by {
      forall x | x in Values(line) - {s2}
        ensures x in Values(m)
      {
        var a :| 0 <= a < |line| && line[a] == x;
        assert m[a] == x;
      }
    }
    assert Values(line) == Values(m) + {s2};
  }

  /** The cells of set `s` in the first `n` columns that have no down wall. */
  function Available(line: seq<int>, row: seq<Flags>, s: int, n: int): set<int>
    requires 0 <= n <= |line| == |row|
  {
    set a | 0 <= a < n && line[a] == s && !row[a].down
  }

  /**
    `countAvailableCells`: how many cells of set `s` in the current row
    still have no down wall, counted over the first `n` columns (the
    program counts all `cols` of them).
   */
  function CountAvailableCells(line: seq<int>, row: seq<Flags>, s: int, n: int): (c: nat)
    requires 0 <= n <= |line| == |row|
    ensures c == |Available(line, row, s, n)|
  {
    if n == 0 then
      assert Available(line, row, s, n) == {};
      0
    else
      var here := line[n - 1] == s && !row[n - 1].down;
      assert Available(line, row, s, n) == Available(line, row, s, n - 1) + (if here then {n - 1} else {});
      CountAvailableCells(line, row, s, n - 1) + (if here then 1 else 0)
  }

  /** Cell `b` is in set `s` and has no down wall in `row`. */
  predicate OpenCell(row: seq<Flags>, line: seq<int>, s: int, b: int)
    requires |row| == |line|
  {
    0 <= b < |line| && line[b] == s && !row[b].down
  }

  /**
    Every set of the line keeps a cell with no down wall in `row`, the
    condition `countAvailableCells(...) >= 1` for every cell's set.
   */
  predicate HasOpening(row: seq<Flags>, line: seq<int>)
    requires |row| == |line|
  {
    forall a :: 0 <= a < |line| ==> CountAvailableCells(line, row, line[a], |line|) >= 1
  }

  /**
    `createRightWalls`, from column `j` on (the program starts at 0; `k`
    is the draw index of the row's first right-wall coin). A wall goes
    between `j` and `j + 1` when the coin says so or both cells are in one
    set already; otherwise the two sets merge. The last cell always gets a
    right wall, and no down wall changes.
   */
  function CreateRightWalls(row: seq<Flags>, line: seq<int>, coins: seq<bool>, k: int, j: int): (r: (seq<Flags>, seq<int>))
    requires |row| == |line| >= 1 && 0 <= j < |line|
    ensures |r.0| == |row| && |r.1| == |line|
    ensures forall a :: 0 <= a < j ==> r.0[a] == row[a]
    ensures forall a :: 0 <= a < |row| ==> r.0[a].down == row[a].down && r.0[a].high == row[a].high
    ensures forall a :: 0 <= a < |row| && row[a].right ==> r.0[a].right
    ensures r.0[|row| - 1].right
    decreases |line| - j
  {
    var last := |line| - 1;
    if j == last then
      (row[last := row[last].(right := true)], line)
    else if Coin(coins, k + j) || line[j] == line[j + 1] then
      CreateRightWalls(row[j := row[j].(right := true)], line, coins, k, j + 1)
    else
      CreateRightWalls(row, MergeSets(line, line[j], line[j + 1]), coins, k, j + 1)
  }

  /**
    `createRightWalls` only ever merges sets: cells that shared a set
    still do, and no new id appears.
   */
  lemma {:induction false} RightWallsCoarsen(row: seq<Flags>, line: seq<int>, coins: seq<bool>, k: int, j: int)
    requires |row| == |line| >= 1 && 0 <= j < |line|
    ensures forall a, b :: 0 <= a < |line| && 0 <= b < |line| && line[a] == line[b] ==>
      CreateRightWalls(row, line, coins, k, j).1[a] == CreateRightWalls(row, line, coins, k, j).1[b]
    ensures Values(CreateRightWalls(row, line, coins, k, j).1) <= Values(line)
    decreases |line| - j
  {
    if j < |line| - 1 {
      if Coin(coins, k + j) || line[j] == line[j + 1] {
        RightWallsCoarsen(row[j := row[j].(right := true)], line, coins, k, j + 1);
      } else {
        var merged := MergeSets(line, line[j], line[j + 1]);
        assert Values(merged) <= Values(line);
        RightWallsCoarsen(row, merged, coins, k, j + 1);
      }
    }
  }

  /**
    Where `createRightWalls` puts walls: wherever the coin is 1, and
    between two cells that are already in one set.
   */
  lemma {:induction false} RightWallsWhere(row: seq<Flags>, line: seq<int>, coins: seq<bool>, k: int, j: int)
    requires |row| == |line| >= 1 && 0 <= j < |line|
    ensures forall a :: j <= a < |row| - 1 && Coin(coins, k + a) ==> CreateRightWalls(row, line, coins, k, j).0[a].right
    ensures forall a :: j <= a < |row| - 1 && line[a] == line[a + 1] ==> CreateRightWalls(row, line, coins, k, j).0[a].right
    decreases |line| - j
  {
    if j < |line| - 1 {
      if Coin(coins, k + j) || line[j] == line[j + 1] {
        var walled := row[j := row[j].(right := true)];
        RightWallsWhere(walled, line, coins, k, j + 1);
        assert CreateRightWalls(row, line, coins, k, j).0[j] == walled[j];
      } else {
        RightWallsWhere(row, MergeSets(line, line[j], line[j + 1]), coins, k, j + 1);
      }
    }
  }

  /**
    Where `createRightWalls` leaves a passage the two cells end up in one
    set, and so do the two cells at every coin of 0: either the wall went
    up because they were in one set, or their sets were merged.
   */
  lemma {:induction false} RightWallsMerge(row: seq<Flags>, line: seq<int>, coins: seq<bool>, k: int, j: int)
    requires |row| == |line| >= 1 && 0 <= j < |line|
    ensures forall a :: j <= a < |row| - 1 && !Coin(coins, k + a) ==>
      CreateRightWalls(row, line, coins, k, j).1[a] == CreateRightWalls(row, line, coins, k, j).1[a + 1]
    ensures forall a :: j <= a < |row| - 1 && !CreateRightWalls(row, line, coins, k, j).0[a].right ==>
      CreateRightWalls(row, line, coins, k, j).1[a] == CreateRightWalls(row, line, coins, k, j).1[a + 1]
    decreases |line| - j
  {
    if j < |line| - 1 {
      var r := CreateRightWalls(row, line, coins, k, j);
      if Coin(coins, k + j) || line[j] == line[j + 1] {
        var walled := row[j := row[j].(right := true)];
        RightWallsMerge(walled, line, coins, k, j + 1);
        RightWallsCoarsen(walled, line, coins, k, j + 1);
        assert r.0[j] == walled[j];
      } else {
        var merged := MergeSets(line, line[j], line[j + 1]);
        RightWallsMerge(row, merged, coins, k, j + 1);
        RightWallsCoarsen(row, merged, coins, k, j + 1);
        assert merged[j] == merged[j + 1];
      }
    }
  }

  /**
    `createDownWalls`, from column `j` on (`k` is the draw index of the
    row's first down-wall coin): each column in turn takes its `DownStep`.
    It never closes the last opening of a set: if every set had a cell
    without a down wall before, it still has one after.
   */
  function CreateDownWalls(row: seq<Flags>, line: seq<int>, coins: seq<bool>, k: int, j: int): (r: seq<Flags>)
    requires |row| == |line| && 0 <= j <= |line|
    ensures |r| == |row|
    ensures forall a :: 0 <= a < j ==> r[a] == row[a]
    ensures forall a :: 0 <= a < |row| ==> r[a].right == row[a].right && r[a].high == row[a].high
    ensures forall a :: 0 <= a < |row| && row[a].down ==> r[a].down
    ensures forall a :: j <= a < |row| && r[a].down && !row[a].down ==> Coin(coins, k + a)
    ensures HasOpening(row, line) ==> HasOpening(r, line)
    decreases |line| - j
  {
    if j == |line| then row else CreateDownWalls(DownStep(row, line, coins, k, j), line, coins, k, j + 1)
  }

  /**
    One iteration of `createDownWalls`: when the coin for column `j` says
    so, cell `j` gets a down wall, but only if its set keeps another cell
    without one.
   */
  function DownStep(row: seq<Flags>, line: seq<int>, coins: seq<bool>, k: int, j: int): (r: seq<Flags>)
    requires |row| == |line| && 0 <= j < |line|
    ensures |r| == |row|
    ensures forall a :: 0 <= a < |row| && a != j ==> r[a] == row[a]
    ensures r[j] == row[j] || (r[j] == row[j].(down := true) && Coin(coins, k + j))
    ensures r[j].down <==> row[j].down || (Coin(coins, k + j) && |Available(line, row, line[j], |line|)| > 1)
    ensures HasOpening(row, line) ==> HasOpening(r, line)
  {
    if Coin(coins, k + j) && CountAvailableCells(line, row, line[j], |line|) > 1 then
      OpeningSurvives(row, line, j);
      row[j := row[j].(down := true)]
    else
      row
  }

  /** Closing one cell of a set that has two open cells leaves every set an opening. */
  lemma OpeningSurvives(row: seq<Flags>, line: seq<int>, j: int)
    requires |row| == |line| && 0 <= j < |line|
    requires CountAvailableCells(line, row, line[j], |line|) > 1
    ensures HasOpening(row, line) ==> HasOpening(row[j := row[j].(down := true)], line)
  {
    if HasOpening(row, line) {
      var walled := row[j := row[j].(down := true)];
      forall a | 0 <= a < |line|
        ensures CountAvailableCells(line, walled, line[a], |line|) >= 1
      {
        ClosingOne(row, line, line[a], j);
      }
    }
  }

  /** A down wall on cell `j` removes `j`, and nothing else, from the open cells of its set. */
  lemma ClosingOne(row: seq<Flags>, line: seq<int>, s: int, j: int)
    requires |row| == |line| && 0 <= j < |line|
    ensures var walled := row[j := row[j].(down := true)];
      && Available(line, walled, s, |line|) == Available(line, row, s, |line|) - {j}
      && |Available(line, walled, s, |line|)| >= |Available(line, row, s, |line|)| - 1
      && (s != line[j] ==> Available(line, walled, s, |line|) == Available(line, row, s, |line|))
  {
    var a := Available(line, row, s, |line|);
    if j in a {
      assert a == (a - {j}) + {j};
    } else {
      assert a - {j} == a;
    }
  }

  /** A set with more open cells among the first `n` than `j` accounts for has an open cell other than `j`. */
  lemma {:induction false} OtherOpenCell(line: seq<int>, row: seq<Flags>, s: int, n: int, j: int) returns (b: int)
    requires 0 <= n <= |line| == |row|
    requires CountAvailableCells(line, row, s, n) > (if 0 <= j < n && OpenCell(row, line, s, j) then 1 else 0)
    ensures 0 <= b < n && b != j && OpenCell(row, line, s, b)
  {
    if OpenCell(row, line, s, n - 1) && n - 1 != j {
      b := n - 1;
    } else {
      b := OtherOpenCell(line, row, s, n - 1, j);
    }
  }

  /** A row that starts without down walls keeps an opening for every set. */
  lemma OpenRowHasOpening(row: seq<Flags>, line: seq<int>)
    requires |row| == |line|
    requires forall a :: 0 <= a < |row| ==> !row[a].down
    ensures HasOpening(row, line)
  {
    forall a | 0 <= a < |line|
      ensures CountAvailableCells(line, row, line[a], |line|) >= 1
    {
      assert a in Available(line, row, line[a], |line|);
    }
  }

  /**
    `deleteWalls`, applied to the copy of a finished row that starts the
    next one: every right wall goes, and a cell under a down wall loses
    the wall and leaves its set (id 0); the other cells keep their set.
   */
  function DeleteWalls(row: seq<Flags>, line: seq<int>): (r: (seq<Flags>, seq<int>))
    requires |row| == |line|
    ensures |r.0| == |row| && |r.1| == |line|
    ensures forall a :: 0 <= a < |row| ==> !r.0[a].right && !r.0[a].down && r.0[a].high == row[a].high
    ensures forall a :: 0 <= a < |row| && IsWall(row[a]) ==> r.0[a] == NONE
    ensures forall a :: 0 <= a < |line| ==> (r.1[a] == 0 && row[a].down) || (r.1[a] == line[a] && !row[a].down)
  {
    var cleared := seq(|row|, a requires 0 <= a < |row| =>
      var x := row[a].(right := false);
      if x.down then x.(down := false) else x);
    var ids := seq(|line|, a requires 0 <= a < |line| =>
      if row[a].down then 0 else line[a]);
    (cleared, ids)
  }

  /**
    `handleLastLine`, from column `j` on (all cells left of `j` are in the
    set of `j` by then): every cell gets a down wall, the wall between `j`
    and `j + 1` is knocked down when their sets differ, and the two sets
    merge; the last cell gets both walls. Afterwards the whole row is one set.
   */
  function HandleLastLine(row: seq<Flags>, line: seq<int>, j: int): (r: (seq<Flags>, seq<int>))
    requires |row| == |line| >= 1 && 0 <= j < |line|
    requires forall a :: 0 <= a < j ==> line[a] == line[j]
    ensures |r.0| == |row| && |r.1| == |line|
    ensures forall a :: 0 <= a < j ==> r.0[a] == row[a]
    ensures forall a :: j <= a < |row| ==> r.0[a].down
    ensures r.0[|row| - 1].right
    ensures forall a :: 0 <= a < |row| ==> r.0[a].high == row[a].high
    ensures forall a :: j <= a < |row| - 1 ==>
      (r.0[a].right <==> row[a].right && SeenLeftOf(line, a + 1))
    ensures forall a, b :: 0 <= a < |line| && 0 <= b < |line| ==> r.1[a] == r.1[b]
    ensures Values(r.1) <= Values(line)
    decreases |line| - j
  {
    var last := |line| - 1;
    if j == last then
      (row[last := row[last].(right := true, down := true)], line)
    else
      var walled := row[j := row[j].(down := true)];
      if line[j] != line[j + 1] then
        var merged := MergeSets(line, line[j], line[j + 1]);
        LastLineMergeKeepsFirstSeen(line, j);
        HandleLastLine(walled[j := walled[j].(right := false)], merged, j + 1)
      else
        HandleLastLine(walled, line, j + 1)
  }

  /** The set of cell `b` occurs among the cells to its left. */
  predicate SeenLeftOf(line: seq<int>, b: int)
    requires 0 <= b < |line|
  {
    line[b] in line[..b]
  }

  /**
    Merging `line[j + 1]` into `line[j]`, when both occur in a prefix,
    does not change whether a later id has occurred before.
   */
  lemma LastLineMergeKeepsFirstSeen(line: seq<int>, j: int)
    requires 0 <= j < |line| - 1
    requires forall a :: 0 <= a < j ==> line[a] == line[j]
    ensures var m := MergeSets(line, line[j], line[j + 1]);
      && (forall a :: 0 <= a < j + 1 ==> m[a] == m[j + 1])
      && (forall b :: j + 2 <= b < |line| ==> (SeenLeftOf(m, b) <==> SeenLeftOf(line, b)))
      && Values(m) <= Values(line)
  {
    var m := MergeSets(line, line[j], line[j + 1]);
    forall b | j + 2 <= b < |line|
      ensures SeenLeftOf(m, b) <==> SeenLeftOf(line, b)
    {
      if line[b] in line[..b] {
        var p :| 0 <= p < b && line[p] == line[b];
        assert m[..b][p] == m[b];
      }
      if m[b] in m[..b] {
        var p :| 0 <= p < b && m[p] == m[b];
        if line[p] != line[b] {
          if line[b] == line[j] {
            assert line[..b][j] == line[b];
          } else {
            assert line[..b][j + 1] == line[b];
          }
        }
      }
    }
  }

  /** All cells of a row are values of the `Wall` enumeration. */
  predicate Walled(row: seq<Flags>) {
    forall a :: 0 <= a < |row| ==> IsWall(row[a])
  }

  /** All cells of a grid are values of the `Wall` enumeration. */
  predicate WallsOnly(g: seq<seq<Flags>>) {
    forall r :: 0 <= r < |g| ==> Walled(g[r])
  }

  /**
    `resetMaze`: the builder's fresh `rows x cols` maze with no walls; a
    size below 1 in either direction gives the empty `0 x 0` maze.
   */
  function ResetMaze(rows: int, cols: int): (m: MazeCore.Maze)
    ensures MazeCore.Valid(m) && m.graph == []
    ensures rows >= 1 && cols >= 1 ==> m.rows == rows && m.cols == cols
    ensures !(rows >= 1 && cols >= 1) ==> m.rows == 0 && m.cols == 0
    ensures forall i, j :: 0 <= i < m.rows && 0 <= j < m.cols ==> m.grid[i][j] == NONE
  {
    if rows >= 1 && cols >= 1 then MazeCore.NewMaze(rows, cols) else MazeCore.NewMaze(0, 0)
  }

  /**
    Every merge of `createRightWalls` leaves a passage and every passage
    comes from a merge: on a row without right walls, the sets it ends
    with plus the passages it leaves are the sets it started with.
   */
  lemma {:induction false} RightWallsCount(row: seq<Flags>, line: seq<int>, coins: seq<bool>, k: int, j: int)
    requires |row| == |line| >= 1 && 0 <= j < |line|
    requires forall a :: j <= a < |row| ==> !row[a].right
    ensures NumSets(CreateRightWalls(row, line, coins, k, j).1) + OpenRight(CreateRightWalls(row, line, coins, k, j).0, j) == NumSets(line)
    decreases |line| - j
  {
    var r := CreateRightWalls(row, line, coins, k, j);
    if j < |line| - 1 {
      if Coin(coins, k + j) || line[j] == line[j + 1] {
        var walled := row[j := row[j].(right := true)];
        assert r == CreateRightWalls(walled, line, coins, k, j + 1);
        RightWallsCount(walled, line, coins, k, j + 1);
        assert r.0[j] == walled[j];
      } else {
        var merged := MergeSets(line, line[j], line[j + 1]);
        assert r == CreateRightWalls(row, merged, coins, k, j + 1);
        RightWallsCount(row, merged, coins, k, j + 1);
        MergeCount(line, line[j], line[j + 1]);
        assert r.0[j] == row[j];
      }
    }
  }

  /**
    Every merge of `handleLastLine` knocks down a wall, and it knocks
    down no other: when the cells with no wall between them already
    share a set, the sets it ends with plus the passages it leaves are
    the sets plus the passages it started with.
   */
  lemma {:induction false} LastLineCount(row: seq<Flags>, line: seq<int>, j: int)
    requires |row| == |line| >= 1 && 0 <= j < |line|
    requires forall a :: 0 <= a < j ==> line[a] == line[j]
    requires forall a :: j <= a < |row| - 1 && !row[a].right ==> line[a] == line[a + 1]
    ensures NumSets(HandleLastLine(row, line, j).1) + OpenRight(HandleLastLine(row, line, j).0, j) ==
      NumSets(line) + OpenRight(row, j)
    decreases |line| - j, 1
  {
    if j < |line| - 1 {
      var walled := row[j := row[j].(down := true)];
      if line[j] != line[j + 1] {
        var merged := MergeSets(line, line[j], line[j + 1]);
        var unwalled := walled[j := walled[j].(right := false)];
        LastLineMergeKeepsFirstSeen(line, j);
        LastLineMerge(row, line, j, merged, unwalled, HandleLastLine(unwalled, merged, j + 1));
      } else {
        LastLineKeep(row, line, j, walled, HandleLastLine(walled, line, j + 1));
      }
    }
  }

  /**
    The step of `LastLineCount` where the sets of `j` and `j + 1` differ:
    the wall between them (present, since the sets differ) comes down and
    the two sets become one, so one passage replaces one set. `r` is what
    the rest of the row makes of the merged line.
   */
  lemma {:induction false} LastLineMerge(row: seq<Flags>, line: seq<int>, j: int,
                                         merged: seq<int>, unwalled: seq<Flags>, r: (seq<Flags>, seq<int>))
    requires |row| == |line| >= 1 && 0 <= j < |line| - 1 && line[j] != line[j + 1]
    requires forall a :: j <= a < |row| - 1 && !row[a].right ==> line[a] == line[a + 1]
    requires merged == MergeSets(line, line[j], line[j + 1])
    requires forall a :: 0 <= a < j + 1 ==> merged[a] == merged[j + 1]
    requires unwalled == row[j := row[j].(down := true, right := false)]
    requires r == HandleLastLine(unwalled, merged, j + 1)
    ensures NumSets(r.1) + OpenRight(r.0, j) == NumSets(line) + OpenRight(row, j)
    decreases |line| - j, 0
  {
    LastLineCount(unwalled, merged, j + 1);
    assert NumSets(merged) == NumSets(line) - 1 by {
      MergeCount(line, line[j], line[j + 1]);
    }
    assert r.0[j] == unwalled[j];
    CountShift(r.0, unwalled, row, j, NumSets(r.1), NumSets(merged), NumSets(line));
  }

  /**
    The step of `LastLineCount` where `j` and `j + 1` already share a set:
    the wall between them stays as it is. `r` is what the rest of the row
    makes of the line.
   */
  lemma {:induction false} LastLineKeep(row: seq<Flags>, line: seq<int>, j: int,
                                        walled: seq<Flags>, r: (seq<Flags>, seq<int>))
    requires |row| == |line| >= 1 && 0 <= j < |line| - 1 && line[j] == line[j + 1]
    requires forall a :: 0 <= a < j ==> line[a] == line[j]
    requires forall a :: j <= a < |row| - 1 && !row[a].right ==> line[a] == line[a + 1]
    requires walled == row[j := row[j].(down := true)]
    requires r == HandleLastLine(walled, line, j + 1)
    ensures NumSets(r.1) + OpenRight(r.0, j) == NumSets(line) + OpenRight(row, j)
    decreases |line| - j, 0
  {
    LastLineCount(walled, line, j + 1);
    assert r.0[j] == walled[j];
    CountShift(r.0, walled, row, j, NumSets(r.1), NumSets(line), NumSets(line));
  }

  /**
    Moving the start of an `OpenRight` count back by one cell: `done` has
    the same right wall at `j` as `row`, or opens it and trades a set for
    it, and agrees on the right walls of `mid` (which `row` has) after `j`.
   */
  lemma CountShift(done: seq<Flags>, mid: seq<Flags>, row: seq<Flags>, j: nat, after: int, between: int, before: int)
    requires j + 1 < |row| && |done| == |row| && |mid| == |row|
    requires forall a :: j + 1 <= a < |row| ==> mid[a].right == row[a].right
    requires after + OpenRight(done, j + 1) == between + OpenRight(mid, j + 1)
    requires (done[j].right == row[j].right && between == before)
          || (!done[j].right && row[j].right && between == before - 1)
    ensures after + OpenRight(done, j) == before + OpenRight(row, j)
  {
    OpenRightFrame(mid, row, j + 1);
  }

  /** A line all of one set has one set. */
  lemma OneSet(line: seq<int>)
    requires |line| >= 1
    requires forall a, b :: 0 <= a < |line| && 0 <= b < |line| ==> line[a] == line[b]
    ensures NumSets(line) == 1
  {
    assert Values(line) == {line[0]};
  }

  /**
    The next row's ids from `deleteWalls`: the cells left without a set
    are exactly the cells under a down wall.
   */
  lemma {:induction false} ZerosDown(ids: seq<int>, row: seq<Flags>, j: nat)
    requires |ids| == |row| && j <= |ids|
    requires forall a :: 0 <= a < |ids| ==> (ids[a] == 0 <==> row[a].down)
    ensures Zeros(ids[j..]) + OpenDown(row, j) == |row| - j
    decreases |ids| - j
  {
    if j < |ids| {
      assert ids[j..][1..] == ids[j + 1..];
      ZerosDown(ids, row, j + 1);
    }
  }

  /**
    When every set of the finished row keeps a cell with no down wall,
    `deleteWalls` hands every set on to the next row.
   */
  lemma NextValues(row: seq<Flags>, line: seq<int>)
    requires |row| == |line|
    requires forall a :: 0 <= a < |line| ==> line[a] != 0
    requires HasOpening(row, line)
    ensures NonzeroValues(DeleteWalls(row, line).1) == Values(line)
    ensures Zeros(DeleteWalls(row, line).1) + OpenDown(row, 0) == |row|
  {
    var ids := DeleteWalls(row, line).1;
    forall s | s in Values(line)
      ensures s in NonzeroValues(ids)
    {
      var a :| 0 <= a < |line| && line[a] == s;
      var c := OtherOpenCell(line, row, s, |line|, -1);
      assert ids[c] == s;
    }
    ZerosDown(ids, row, 0);
    assert ids[0..] == ids;
  }
}

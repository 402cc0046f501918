/**
  The per-cell wall flags of a maze (`Maze::Wall`).

  The program stores a cell as an `int` whose bit 0 is a wall on the
  cell's right edge and bit 1 a wall on its bottom edge. The model splits
  that integer into the two bits every operation reads and the rest:
  the value `4 * high + 2 * down + right`. `ToInt` and `FromInt` are
  inverse to each other on all integers, so a grid of `Flags` carries
  exactly what the program's grid of `int` carries, and the program's
  bitwise updates become field updates (`x | RIGHT` is
  `c.(right := true)`, proved below against a bitwise OR).

  Bits of integers are read with Dafny's Euclidean `/` and `%` by 2,
  which coincide with two's-complement bit extraction on every integer,
  negative ones included.
 */
module Walls {

  datatype Flags = Flags(right: bool, down: bool, high: int)

  const NONE: Flags := Flags(false, false, 0)
  const RIGHT: Flags := Flags(true, false, 0)
  const DOWN: Flags := Flags(false, true, 0)
  const BOTH: Flags := Flags(true, true, 0)

  function Bit(b: bool): int {
    if b then 1 else 0
  }

  /** The program's integer for a cell. */
  function ToInt(c: Flags): int {
    4 * c.high + 2 * Bit(c.down) + Bit(c.right)
  }

  /** The cell an integer stands for: its bit 0, its bit 1, and the rest. */
  function FromInt(x: int): (c: Flags)
    ensures ToInt(c) == x
    ensures c.right <==> x % 2 == 1
    ensures c.down <==> (x / 2) % 2 == 1
  {
    Flags(x % 2 == 1, (x / 2) % 2 == 1, x / 4)
  }

  /** Every cell is the cell of its integer: the two encodings are inverse. */
  lemma FromToInt(c: Flags)
    ensures FromInt(ToInt(c)) == c
  {
    var x := ToInt(c);
    assert x / 2 == 2 * c.high + Bit(c.down);
  }

  /** A value of the `Wall` enumeration: `NONE`, `RIGHT`, `DOWN` or `BOTH`. */
  predicate IsWall(c: Flags) {
    c.high == 0
  }

  /** The enumerators are `0`, `1`, `2`, `3`, and the wall values are exactly those integers. */
  lemma WallValues(c: Flags)
    ensures ToInt(NONE) == 0 && ToInt(RIGHT) == 1 && ToInt(DOWN) == 2 && ToInt(BOTH) == 3
    ensures IsWall(c) <==> 0 <= ToInt(c) <= 3
    ensures IsWall(c) <==> c in {NONE, RIGHT, DOWN, BOTH}
  {
  }

  function Abs(x: int): nat {
    if x < 0 then -x else x
  }

  /**
    Bitwise OR of two's-complement integers of unbounded width: the low bit
    is the OR of the low bits, and the rest is the OR of the halves. The
    recursion stops when both operands are all-zero (0) or all-one (-1).
   */
  function BitOr(a: int, b: int): int
    decreases Abs(a) + Abs(b)
  {
    if (a == 0 || a == -1) && (b == 0 || b == -1) then
      (if a == -1 || b == -1 then -1 else 0)
    else
      2 * BitOr(a / 2, b / 2) + (if a % 2 == 1 || b % 2 == 1 then 1 else 0)
  }

  /** Bitwise AND of two's-complement integers, bit by bit as `BitOr`. */
  function BitAnd(a: int, b: int): int
    decreases Abs(a) + Abs(b)
  {
    if (a == 0 || a == -1) && (b == 0 || b == -1) then
      (if a == -1 && b == -1 then -1 else 0)
    else
      2 * BitAnd(a / 2, b / 2) + (if a % 2 == 1 && b % 2 == 1 then 1 else 0)
  }

  /** `~x` in two's complement. */
  function BitNot(x: int): int {
    -x - 1
  }

  /** `BitOr` works bit by bit: the low bit, then the rest (in the base cases too). */
  lemma OrStep(a: int, b: int)
    ensures BitOr(a, b) == 2 * BitOr(a / 2, b / 2) + Bit(a % 2 == 1 || b % 2 == 1)
  {
  }

  /** `BitAnd` works bit by bit: the low bit, then the rest (in the base cases too). */
  lemma AndStep(a: int, b: int)
    ensures BitAnd(a, b) == 2 * BitAnd(a / 2, b / 2) + Bit(a % 2 == 1 && b % 2 == 1)
  {
  }

  lemma {:induction false} OrZero(a: int)
    ensures BitOr(a, 0) == a
    decreases Abs(a)
  {
    if !(a == 0 || a == -1) {
      OrZero(a / 2);
    }
  }

  lemma {:induction false} AndZero(a: int)
    ensures BitAnd(a, 0) == 0
    decreases Abs(a)
  {
    if !(a == 0 || a == -1) {
      AndZero(a / 2);
    }
  }

  lemma {:induction false} AndAllOnes(a: int)
    ensures BitAnd(a, -1) == a
    decreases Abs(a)
  {
    if !(a == 0 || a == -1) {
      AndAllOnes(a / 2);
    }
  }

  /** Bit 0 of a cell's integer is its right wall, bit 1 its down wall. */
  lemma Halves(c: Flags)
    ensures ToInt(c) % 2 == Bit(c.right)
    ensures ToInt(c) / 2 == 2 * c.high + Bit(c.down)
    ensures (2 * c.high + Bit(c.down)) % 2 == Bit(c.down)
    ensures (2 * c.high + Bit(c.down)) / 2 == c.high
  {
  }

  /** `x | RIGHT` sets the right wall and changes nothing else. */
  lemma SetRightIsOr(c: Flags)
    ensures ToInt(c.(right := true)) == BitOr(ToInt(c), ToInt(RIGHT))
  {
    OrBits(c.high, Bit(c.down), Bit(c.right), 0, 1);
  }

  /** `x | DOWN` sets the down wall and changes nothing else. */
  lemma SetDownIsOr(c: Flags)
    ensures ToInt(c.(down := true)) == BitOr(ToInt(c), ToInt(DOWN))
  {
    OrBits(c.high, Bit(c.down), Bit(c.right), 1, 0);
  }

  /** `x | BOTH` sets both walls and changes nothing else. */
  lemma SetBothIsOr(c: Flags)
    ensures ToInt(c.(right := true, down := true)) == BitOr(ToInt(c), ToInt(BOTH))
  {
    OrBits(c.high, Bit(c.down), Bit(c.right), 1, 1);
  }

  /** `x & ~RIGHT` clears the right wall and changes nothing else. */
  lemma ClearRightIsAnd(c: Flags)
    ensures ToInt(c.(right := false)) == BitAnd(ToInt(c), BitNot(ToInt(RIGHT)))
  {
    assert BitNot(ToInt(RIGHT)) == 4 * -1 + 2 * 1 + 0;
    AndBits(c.high, Bit(c.down), Bit(c.right), -1, 1, 0);
  }

  /** `x & ~DOWN` clears the down wall and changes nothing else. */
  lemma ClearDownIsAnd(c: Flags)
    ensures ToInt(c.(down := false)) == BitAnd(ToInt(c), BitNot(ToInt(DOWN)))
  {
    assert BitNot(ToInt(DOWN)) == 4 * -1 + 2 * 0 + 1;
    AndBits(c.high, Bit(c.down), Bit(c.right), -1, 0, 1);
  }

  /** `x & RIGHT` is the right-wall bit, as the program writes it to a file. */
  lemma RightBitIsAnd(c: Flags)
    ensures BitAnd(ToInt(c), ToInt(RIGHT)) == Bit(c.right)
  {
    AndBits(c.high, Bit(c.down), Bit(c.right), 0, 0, 1);
  }

  /**
    `x & DOWN` is `DOWN` when the cell has a down wall and 0 otherwise, so
    the program's test `(x & DOWN) != DOWN` reads "no down wall";
    `(x & DOWN) >> 1` is the down-wall bit, as the program writes it to a file.
   */
  lemma DownBitIsAnd(c: Flags)
    ensures BitAnd(ToInt(c), ToInt(DOWN)) == 2 * Bit(c.down)
    ensures BitAnd(ToInt(c), ToInt(DOWN)) / 2 == Bit(c.down)
  {
    AndBits(c.high, Bit(c.down), Bit(c.right), 0, 1, 0);
  }

  /** OR with a mask below 4 sets the mask's bits and keeps the rest. */
  lemma OrBits(h: int, d: int, r: int, md: int, mr: int)
    requires d == 0 || d == 1
    requires r == 0 || r == 1
    requires md == 0 || md == 1
    requires mr == 0 || mr == 1
    ensures BitOr(4 * h + 2 * d + r, 2 * md + mr) == 4 * h + 2 * (if d == 1 || md == 1 then 1 else 0) + (if r == 1 || mr == 1 then 1 else 0)
  {
    var x, y := 4 * h + 2 * d + r, 2 * h + d;
    var m, n := 2 * md + mr, md;
    assert x / 2 == y && x % 2 == r;
    assert y / 2 == h && y % 2 == d;
    assert m / 2 == n && m % 2 == mr;
    assert n / 2 == 0 && n % 2 == md;
    OrZero(h);
    OrStep(x, m);
    OrStep(y, n);
  }

  /**
    AND with a mask whose high part is `mh` (0 or all ones) keeps or clears
    the rest accordingly and keeps the two low bits the mask has.
   */
  lemma AndBits(h: int, d: int, r: int, mh: int, md: int, mr: int)
    requires d == 0 || d == 1
    requires r == 0 || r == 1
    requires mh == 0 || mh == -1
    requires md == 0 || md == 1
    requires mr == 0 || mr == 1
    ensures BitAnd(4 * h + 2 * d + r, 4 * mh + 2 * md + mr) ==
      4 * (if mh == 0 then 0 else h) + 2 * (if md == 1 then d else 0) + (if mr == 1 then r else 0)
  {
    var x, y := 4 * h + 2 * d + r, 2 * h + d;
    var m, n := 4 * mh + 2 * md + mr, 2 * mh + md;
    assert x / 2 == y && x % 2 == r;
    assert y / 2 == h && y % 2 == d;
    assert m / 2 == n && m % 2 == mr;
    assert n / 2 == mh && n % 2 == md;
    if mh == 0 {
      AndZero(h);
    } else {
      AndAllOnes(h);
    }
    AndStep(y, n);
    assert BitAnd(y, n) == 2 * (if mh == 0 then 0 else h) + (if md == 1 then d else 0);
    AndStep(x, m);
  }

}

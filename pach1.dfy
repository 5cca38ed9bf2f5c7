/** The first sampler: every cell's sample is placed on a canonical grid
    layout, its local X taken from a "balanced" random sequence indexed by
    the cell's column and its local Y from another indexed by the cell's row.
    A balanced sequence never moves by more than half a cell between two
    consecutive indices, which keeps samples of neighbouring cells apart. */
module Pach1 {
  import opened Numeric
  import opened Samples
  import opened Cells

  /** `(int)(Noise[i, axis] & mask)`: the `uint` noise and the non-negative
      `int` mask meet as `long`s, so the mask keeps the low `bits` bits. */
  function Rnd(c: Config, i: int, axis: int): (r: int)
    ensures 0 <= r < CellSize(c)
  {
    c.noise(i, axis) % CellSize(c)
  }

  /** The C# masking gives the residue `Rnd` stands for. */
  lemma RndIsMask(c: Config, i: int, axis: int)
    ensures And32(c.noise(i, axis), CellSize(c) - 1) == Rnd(c, i, axis)
  {
    AndLowMask(c.noise(i, axis), c.bits);
  }

  /** Two values at most `cellSize >> 1` apart. */
  predicate Close(c: Config, a: int, b: int) {
    -(CellSize(c) / 2) <= a - b <= CellSize(c) / 2
  }

  /** The window an even entry is drawn from: `[max(prev, next) - range,
      min(prev, next) + range]` with `range = cellSize >> 1`, clamped to
      `[0, cellSize - 1]`, as the pair `(min, max)`. */
  function Window(c: Config, prev: int, next: int): (w: (int, int))
  {
    var range := CellSize(c) / 2;
    var lo := Max(Max(prev - range, next - range), 0);
    var hi := Min(Min(prev + range, next + range), CellSize(c) - 1);
    (lo, hi)
  }

  /** The window holds exactly the in-cell values close to both neighbours,
      and when the neighbours are in the cell it is never empty: two
      in-cell values are less than `cellSize` apart, so the half-cell
      balls around them overlap. */
  lemma WindowExact(c: Config, prev: int, next: int, z: int)
    ensures var w := Window(c, prev, next);
      w.0 <= z <= w.1 <==> 0 <= z < CellSize(c) && Close(c, z, prev) && Close(c, z, next)
    ensures 0 <= prev < CellSize(c) && 0 <= next < CellSize(c) ==>
      0 <= Window(c, prev, next).0 <= Window(c, prev, next).1 < CellSize(c)
  {
  }

  /** Wrapping `i - 1` and `i + 1` turns an even index into odd ones, also at
      the ends of the `int` range. */
  lemma OddNeighbours(i: int)
    requires Parity(i) == 0
    ensures Parity(ToInt32(i - 1)) == 1 && Parity(ToInt32(i + 1)) == 1
  {
    assert Pow2(1) == 2;
    ToInt32Residue(i - 1, 1);
    ToInt32Residue(i + 1, 1);
  }

  /** `BalancedSequence(i, axis)`: an odd index takes the masked noise; an
      even one interpolates the masked noise into the window of its two odd
      neighbours, so the recursion is one level deep. `(i & 1) != 0` is the
      parity test (`Cells.ParityIsAnd`), and `i - 1`, `i + 1` wrap around
      the `int` range; every index the indexer passes is an `int`. */
  function BalancedSequence(c: Config, i: int, axis: int): (r: int)
    decreases 1 - Parity(i)
    ensures 0 <= r < CellSize(c)
    ensures Parity(i) == 1 ==> r == Rnd(c, i, axis)
  {
    var rnd := Rnd(c, i, axis);
    if Parity(i) == 1 then rnd
    else
      OddNeighbours(i);
      var prev := BalancedSequence(c, ToInt32(i - 1), axis);
      var next := BalancedSequence(c, ToInt32(i + 1), axis);
      var w := Window(c, prev, next);
      WindowExact(c, prev, next, w.0);
      LerpBounds(c, w.0, w.1, rnd);
      Lerp(c, w.0, w.1, rnd)
  }

  /** An even entry lies in the window of its neighbours: in the cell and
      within half a cell of both. */
  lemma EvenEntry(c: Config, i: int, axis: int)
    requires Parity(i) == 0
    ensures var r := BalancedSequence(c, i, axis);
      var prev := BalancedSequence(c, ToInt32(i - 1), axis);
      var next := BalancedSequence(c, ToInt32(i + 1), axis);
      Window(c, prev, next).0 <= r <= Window(c, prev, next).1 &&
      Close(c, r, prev) && Close(c, r, next)
  {
    OddNeighbours(i);
    var prev := BalancedSequence(c, ToInt32(i - 1), axis);
    var next := BalancedSequence(c, ToInt32(i + 1), axis);
    var w := Window(c, prev, next);
    var r := BalancedSequence(c, i, axis);
    WindowExact(c, prev, next, w.0);
    LerpBounds(c, w.0, w.1, Rnd(c, i, axis));
    assert w.0 <= r <= w.1;
    WindowExact(c, prev, next, r);
  }

  /** Wrapping `i + 1` and then `- 1` gives `i` back. */
  lemma StepBack(i: I32)
    ensures ToInt32(ToInt32(i + 1) - 1) == i
  {
    if i == TWO31 - 1 {
      assert ToInt32(i + 1) == -TWO31 by { ModUnique(i + 1, TWO32, 0, TWO31); }
      ToInt32Id(-TWO31 - 1 + TWO32);
      assert ToInt32(-TWO31 - 1) == TWO31 - 1 by { ModUnique(-TWO31 - 1, TWO32, -1, TWO31 - 1); }
    } else {
      ToInt32Id(i + 1);
      ToInt32Id(i);
    }
  }

  /** The sequence is balanced: consecutive entries, the successor taken
      with `int` wrap-around, are never more than `cellSize >> 1` apart. */
  lemma Balanced(c: Config, i: I32, axis: int)
    ensures Close(c, BalancedSequence(c, ToInt32(i + 1), axis), BalancedSequence(c, i, axis))
  {
    if Parity(i) == 0 {
      EvenEntry(c, i, axis);
    } else {
      var j := ToInt32(i + 1);
      assert Parity(j) == 0 by {
        assert Pow2(1) == 2;
        ToInt32Residue(i + 1, 1);
      }
      EvenEntry(c, j, axis);
      StepBack(i);
    }
  }

  /** The index of the cell holding an `int` is an `int`. */
  lemma CellIndexFits(c: Config, v: I32)
    ensures -TWO31 <= CellOf(c, v) < TWO31
  {
    var cs := CellSize(c);
    var q := CellOf(c, v);
    DivMod(v, cs);
    if q < -TWO31 {
      MulMonotone(cs, q, -TWO31 - 1);
      MulMonotone(TWO31 + 1, 1, cs);
    } else if q >= TWO31 {
      MulMonotone(cs, TWO31, q);
      MulMonotone(TWO31, 1, cs);
    }
  }

  /** `v & ~(cellSize - 1)` is the origin of the cell holding `v`, whose
      index and extent are `int`s. */
  lemma MaskIsOrigin(c: Config, v: I32)
    ensures ToInt32(And32(v, -(CellSize(c) as int))) == Origin(c, CellOf(c, v))
    ensures -TWO31 <= CellOf(c, v) < TWO31
    ensures -TWO31 <= Origin(c, CellOf(c, v)) && Origin(c, CellOf(c, v)) + CellSize(c) <= TWO31
  {
    AndHighMask(v, c.bits);
    DivMod(v, CellSize(c));
    CellIndexFits(c, v);
    OriginHolds(c, v);
  }

  /** The indexer: `x & ~(cellSize - 1)` and `y & ~(cellSize - 1)` are the
      cell's origin, the column index is `x >> Bits` and the row index
      `y >> Bits`; the local X comes from the row sequence at the row index,
      the local Y from the column sequence at the column index, counted down
      from the top of the cell. The value is always 1 and the sample always
      lies in the cell of `(x, y)`, so neither addition wraps. */
  function SampleAt(c: Config, x: I32, y: I32): (s: Sample)
    ensures s.value == 1
    ensures CellOf(c, s.x) == CellOf(c, x) && CellOf(c, s.y) == CellOf(c, y)
    ensures s.x == Origin(c, CellOf(c, x)) + BalancedSequence(c, CellOf(c, y), 1)
    ensures s.y == Origin(c, CellOf(c, y)) + CellSize(c) - 1 - BalancedSequence(c, CellOf(c, x), 0)
    ensures -TWO31 <= s.x < TWO31 && -TWO31 <= s.y < TWO31
  {
    var cellSize := CellSize(c);
    var mask: int := -(cellSize as int);
    var x0 := ToInt32(And32(x, mask));
    var y0 := ToInt32(And32(y, mask));
    MaskIsOrigin(c, x);
    MaskIsOrigin(c, y);
    var row := CellOf(c, x);
    var col := CellOf(c, y);
    var rndColumn := BalancedSequence(c, row, 0);
    var rndRow := BalancedSequence(c, col, 1);
    OffsetStaysInCell(c, row, rndRow);
    OffsetStaysInCell(c, col, cellSize - rndColumn - 1);
    Sample(x0 + rndRow, y0 + cellSize - rndColumn - 1, 1)
  }

  /** Moving one cell along x keeps the local X, which depends on `y` only,
      and moves the sample's Y by at most half a cell: the source's
      canonical grid layout. */
  lemma NeighbourCellsClose(c: Config, x: I32, y: I32)
    requires x < TWO31 - CellSize(c)
    ensures var s1 := SampleAt(c, x, y);
      var s2 := SampleAt(c, x + CellSize(c), y);
      s2.x - Origin(c, CellOf(c, x + CellSize(c))) == s1.x - Origin(c, CellOf(c, x)) &&
      Close(c, s2.y, s1.y)
  {
    var cs := CellSize(c);
    var row := CellOf(c, x);
    assert CellOf(c, x + cs) == row + 1 by {
      DivMod(x, cs);
      ModUnique(x + cs, cs, row + 1, x % cs);
    }
    CellIndexFits(c, x);
    CellIndexFits(c, x + cs);
    ToInt32Id(row + 1);
    Balanced(c, row, 0);
  }
}

/** What the grid samplers share: the cell size `2^bits`, the noise they read,
    the candidate drawn from one noise value, the rounding linear
    interpolation, and the arithmetic that maps a point to its cell.
    Pach2 and Pach5 carry identical private copies of `GenerateCandidate`
    and `Lerp`; both are modelled once here. */
module Cells {
  import opened Numeric
  import opened Samples
  import opened Rects
  import Squirrel3Noise

  /** The cell-size exponent. The samplers are used with 1 to 15 bits; at 16
      the three fields of a candidate would no longer fit in one noise value. */
  type CellBits = b: int | 1 <= b <= 15 witness 1

  /** A sampler's immutable state: the cell-size exponent and the noise it
      reads, `noise(a, b)` standing for the two-coordinate noise indexer. */
  datatype Config = Config(bits: CellBits, noise: (int, int) -> U32)

  /** The configuration the sampler constructors build: Squirrel3 noise
      with the given seed. */
  function WithSquirrel3(bits: CellBits, seed: U32): Config {
    Config(bits, (a: int, b: int) => Squirrel3Noise.Hash2(Squirrel3Noise.Squirrel3(seed), a, b))
  }

  /** `1 << bits` */
  function CellSize(c: Config): (cs: nat)
    ensures 2 <= cs <= 0x8000
    ensures cs % 2 == 0
  {
    Pow2Monotone(1, c.bits);
    Pow2Monotone(c.bits, 15);
    Pow2Of32();
    Pow2Divides(1, c.bits);
    Pow2(c.bits)
  }

  /** A point of local coordinates inside a cell, `[0, cellSize)` on both axes. */
  predicate InCell(c: Config, x: int, y: int) {
    0 <= x < CellSize(c) && 0 <= y < CellSize(c)
  }

  /** The whole cell as a placement rectangle. */
  function CellRect(c: Config): Rect {
    Rect(0, CellSize(c) - 1, 0, CellSize(c) - 1)
  }

  /** A rectangle inside one cell covers at most 2^30 points, so its C#
      `Area` never wraps: every rectangle the samplers carve is of this
      kind. */
  lemma InCellArea(c: Config, r: Rect)
    requires Within(r, CellRect(c))
    ensures r.Points() <= 0x4000_0000
    ensures r.Valid() ==> r.Area() == r.Points()
  {
    var cs := CellSize(c);
    if r.Valid() {
      AreaMonotone(r, CellRect(c));
      assert CellRect(c).Points() == cs * cs;
      MulMonotone(cs, cs, 0x8000);
      MulMonotone(0x8000, cs, 0x8000);
    }
  }

  /** The candidate drawn from the noise at `(a, b)`: the low `bits` bits are
      the x offset, the next `bits` bits the y offset, and the remaining high
      bits plus one the value, so that a candidate is never the empty sample. */
  function Candidate(c: Config, a: int, b: int): (s: Sample)
    ensures InCell(c, s.x, s.y)
    ensures s.Valid()
  {
    var cs := CellSize(c);
    var h := c.noise(a, b);
    var high := h / (cs * cs);
    assert 0 <= high < TWO32 - 1 by {
      MulMonotone(cs, 2, cs);
      DivAtLeastTwo(h, cs * cs);
    }
    Sample(h % cs, (h / cs) % cs, high + 1)
  }

  /** Dividing by at least 2 halves at least. */
  lemma DivAtLeastTwo(h: nat, d: int)
    requires d >= 2
    ensures 0 <= h / d <= h / 2
  {
    var q := h / d;
    assert q * d <= h;
    MulMonotone(q, 2, d);
  }

  /** The three fields of a candidate are the digits of the noise value in
      base `cellSize`, so no noise bit is lost or used twice. */
  lemma CandidateDigits(c: Config, a: int, b: int)
    ensures var s := Candidate(c, a, b); var cs := CellSize(c);
      c.noise(a, b) == s.x + cs * s.y + cs * cs * (s.value - 1)
  {
    Digits(c.noise(a, b), CellSize(c));
  }

  /** `h` written in base `d` with two low digits. */
  lemma Digits(h: nat, d: int)
    requires d >= 2
    ensures h == h % d + d * ((h / d) % d) + d * d * (h / (d * d))
  {
    var q, r := h / d, h % d;
    var q2, r2 := q / d, q % d;
    assert h == d * q + r;
    assert q == d * q2 + r2;
    assert q2 == h / (d * d) by { DivDiv(h, d, d); }
    assert d * q == d * r2 + d * d * q2 by {
      assert d * (d * q2 + r2) == d * d * q2 + d * r2;
    }
  }

  /** The C# body of `GenerateCandidate`, on the local `rnd`. */
  method GenerateCandidate(c: Config, row: int, col: int) returns (s: Sample)
    ensures s == Candidate(c, row, col)
  {
    var cellSize := Pow2(c.bits);
    var mask := cellSize - 1;
    var rnd := c.noise(row, col);
    var xr := And32(rnd, mask);
    rnd := rnd / cellSize;
    var yr := And32(rnd, mask);
    rnd := rnd / cellSize;
    s := Sample(xr, yr, (rnd + 1) % TWO32);
    CandidateSteps(c, row, col);
  }

  /** The masks and shifts of `GenerateCandidate` compute `Candidate`. */
  lemma CandidateSteps(c: Config, a: int, b: int)
    ensures var cs := Pow2(c.bits); var h := c.noise(a, b);
      Sample(And32(h, cs - 1), And32(h / cs, cs - 1), (h / cs / cs + 1) % TWO32) == Candidate(c, a, b)
  {
    var h := c.noise(a, b);
    MaskSteps(h, c.bits, CellSize(c));
  }

  /** The three extractions of `GenerateCandidate`, for a cell size `p == 2^k`. */
  lemma MaskSteps(h: U32, k: int, p: int)
    requires 1 <= k <= 15 && p == Pow2(k) && p >= 2
    ensures And32(h, p - 1) == h % p
    ensures And32(h / p, p - 1) == (h / p) % p
    ensures (h / p / p + 1) % TWO32 == h / (p * p) + 1
  {
    assert And32(h, p - 1) == h % p by { AndLowMask(h, k); }
    assert And32(h / p, p - 1) == (h / p) % p by { AndLowMask(h / p, k); }
    var pp := p * p;
    assert pp >= 4 by { MulMonotone(p, 2, p); }
    var high := h / pp;
    assert h / p / p == high by { DivDiv(h, p, p); }
    assert 0 <= high < TWO32 - 1 by { DivAtLeastTwo(h, pp); }
    ModUnique(high + 1, TWO32, 0, high + 1);
  }

  /** Linear interpolation from `a0` towards `a1` by `w / cellSize`, rounded
      to nearest: `((a1 - a0) * w + a0 * cellSize + (cellSize >> 1)) >> bits`.
      The right shift of an `int` rounds towards negative infinity, as `/`
      by a positive divisor does here. */
  function Lerp(c: Config, a0: int, a1: int, w: int): int {
    var cs := CellSize(c);
    ((a1 - a0) * w + a0 * cs + cs / 2) / cs
  }

  /** For a weight inside the cell the interpolation stays between its
      endpoints, and a zero weight gives the first endpoint. */
  lemma LerpBounds(c: Config, a0: int, a1: int, w: int)
    requires a0 <= a1 && 0 <= w < CellSize(c)
    ensures a0 <= Lerp(c, a0, a1, w) <= a1
    ensures w == 0 ==> Lerp(c, a0, a1, w) == a0
  {
    var cs := CellSize(c);
    NumeratorBetween(a0, a1, w, cs);
    DivBetween((a1 - a0) * w + a0 * cs + cs / 2, cs, a0, a1);
    if w == 0 {
      ModUnique((a1 - a0) * w + a0 * cs + cs / 2, cs, a0, cs / 2);
    }
  }

  /** The numerator of `Lerp` lies between `cs * a0` and `cs * (a1 + 1)`. */
  lemma NumeratorBetween(a0: int, a1: int, w: int, cs: int)
    requires a0 <= a1 && 0 <= w < cs && cs >= 2
    ensures cs * a0 <= (a1 - a0) * w + a0 * cs + cs / 2 < cs * (a1 + 1)
    ensures w == 0 ==> (a1 - a0) * w + a0 * cs + cs / 2 == cs * a0 + cs / 2
  {
    var dx := a1 - a0;
    assert 0 <= dx * w <= dx * (cs - 1) by {
      MulMonotone(dx, 0, w);
      MulMonotone(dx, w, cs - 1);
    }
    assert dx * (cs - 1) == cs * a1 - cs * a0 - dx;
  }

  /** `lo <= n / d <= hi` when `d * lo <= n < d * (hi + 1)`. */
  lemma DivBetween(n: int, d: int, lo: int, hi: int)
    requires d > 0 && d * lo <= n < d * (hi + 1)
    ensures lo <= n / d <= hi
  {
    var q := n / d;
    assert d * q <= n < d * (q + 1);
    if q < lo {
      MulMonotone(d, q + 1, lo);
    }
    if q > hi {
      MulMonotone(d, hi + 1, q);
    }
  }

  /** A larger weight never moves the interpolation back towards `a0`. */
  lemma LerpMonotone(c: Config, a0: int, a1: int, w1: int, w2: int)
    requires a0 <= a1 && w1 <= w2
    ensures Lerp(c, a0, a1, w1) <= Lerp(c, a0, a1, w2)
  {
    var cs := CellSize(c);
    var n1 := (a1 - a0) * w1 + a0 * cs + cs / 2;
    var n2 := (a1 - a0) * w2 + a0 * cs + cs / 2;
    assert n1 <= n2 by { MulMonotone(a1 - a0, w1, w2); }
    DivMonotone(n1, n2, cs);
  }

  lemma DivMonotone(m: int, n: int, d: int)
    requires d > 0 && m <= n
    ensures m / d <= n / d
  {
    var q, r := m / d, n / d;
    if q > r {
      MulMonotone(d, r + 1, q);
    }
  }

  /** With endpoints and weight inside the cell, the 32-bit `int` arithmetic
      of `Lerp` never overflows: every intermediate lies within `cellSize^2`,
      at most 2^30, so the unbounded reading is exact. */
  lemma LerpFits(c: Config, a0: int, a1: int, w: int)
    requires 0 <= a0 < CellSize(c) && 0 <= a1 < CellSize(c) && 0 <= w < CellSize(c)
    ensures var cs := CellSize(c);
      -0x4000_0000 <= (a1 - a0) * w <= 0x4000_0000 && 0 <= a0 * cs <= 0x4000_0000 &&
      0 <= (a1 - a0) * w + a0 * cs + cs / 2 <= 0x4000_0000
  {
    var cs := CellSize(c);
    assert cs * cs <= 0x4000_0000 by {
      MulMonotone(cs, cs, 0x8000);
      MulMonotone(0x8000, cs, 0x8000);
    }
    ProductsInCell(a0, a1, w, cs);
  }

  /** The terms of the `Lerp` numerator for in-cell operands. */
  lemma ProductsInCell(a0: int, a1: int, w: int, cs: int)
    requires 2 <= cs && 0 <= a0 < cs && 0 <= a1 < cs && 0 <= w < cs
    ensures -(cs * cs) <= (a1 - a0) * w <= cs * cs
    ensures 0 <= a0 * cs <= cs * cs
    ensures 0 <= (a1 - a0) * w + a0 * cs + cs / 2 <= cs * cs
  {
    var dx, m := a1 - a0, cs - 1;
    assert -m <= dx <= m;
    if dx >= 0 {
      NumeratorOfRise(a0, a1, w, m);
    } else {
      NumeratorOfFall(a0, a1, w, m);
    }
  }

  /** The numerator when `a1 >= a0`, with `m == cellSize - 1`. */
  lemma NumeratorOfRise(a0: int, a1: int, w: int, m: int)
    requires 1 <= m && 0 <= a0 <= a1 <= m && 0 <= w <= m
    ensures 0 <= (a1 - a0) * w <= (m + 1) * (m + 1)
    ensures 0 <= a0 * (m + 1) <= (m + 1) * (m + 1)
    ensures 0 <= (a1 - a0) * w + a0 * (m + 1) + (m + 1) / 2 <= (m + 1) * (m + 1)
  {
    var dx := a1 - a0;
    assert 0 <= dx * w <= dx * m by { MulMonotone(dx, 0, w); MulMonotone(dx, w, m); }
    assert dx * m == a1 * m - a0 * m;
    assert a0 * (m + 1) == a0 * m + a0;
    assert (m + 1) * (m + 1) == m * m + 2 * m + 1;
    assert 0 <= a0 * m by { MulMonotone(m, 0, a0); }
    assert a1 * m <= m * m by { MulMonotone(m, a1, m); }
  }

  /** The numerator when `a1 < a0`, with `m == cellSize - 1`. */
  lemma NumeratorOfFall(a0: int, a1: int, w: int, m: int)
    requires 1 <= m && 0 <= a1 < a0 <= m && 0 <= w <= m
    ensures -((m + 1) * (m + 1)) <= (a1 - a0) * w <= 0
    ensures 0 <= a0 * (m + 1) <= (m + 1) * (m + 1)
    ensures 0 <= (a1 - a0) * w + a0 * (m + 1) + (m + 1) / 2 <= (m + 1) * (m + 1)
  {
    var fall := a0 - a1;
    assert 0 <= fall * w <= fall * m by { MulMonotone(fall, 0, w); MulMonotone(fall, w, m); }
    assert (a1 - a0) * w == -(fall * w);
    assert fall * m <= a0 * m by { MulMonotone(m, fall, a0); }
    assert a0 * (m + 1) == a0 * m + a0;
    assert (m + 1) * (m + 1) == m * m + 2 * m + 1;
    assert a0 * m <= m * m by { MulMonotone(m, a0, m); }
  }

  /** `v >> bits` on an `int`: the index of the cell holding `v`. */
  function CellOf(c: Config, v: int): int {
    v / CellSize(c)
  }

  /** `cell << bits`: the lower-left corner of a cell, on one axis. */
  function Origin(c: Config, cell: int): int {
    cell * CellSize(c)
  }

  /** The cell found for `v` holds `v`, and neither its origin nor any
      point of it needs wrap-around: they are `int`s whenever `v` is. */
  lemma OriginHolds(c: Config, v: I32)
    ensures Origin(c, CellOf(c, v)) <= v < Origin(c, CellOf(c, v)) + CellSize(c)
    ensures -TWO31 <= Origin(c, CellOf(c, v)) && Origin(c, CellOf(c, v)) + CellSize(c) <= TWO31
  {
    var cs := CellSize(c);
    assert Origin(c, CellOf(c, v)) == v - v % cs;
    assert (-TWO31) % cs == 0 by { MinInt32Multiple(c.bits); }
    assert TWO31 % cs == 0 by { MaxInt32Multiple(c.bits); }
    DownToMultiple(v, cs, -TWO31);
    UpToMultiple(v, cs, TWO31);
  }

  /** 2^31 is a multiple of `2^k`. */
  lemma MaxInt32Multiple(k: int)
    requires 0 <= k <= 31
    ensures TWO31 % Pow2(k) == 0
  {
    Pow2Divides(k, 31);
    Pow2Of31();
  }

  /** The multiple of `p` below `u` leaves room for a whole cell below a
      larger multiple `m`. */
  lemma UpToMultiple(u: int, p: int, m: int)
    requires p > 0 && m % p == 0 && u < m
    ensures u - u % p + p <= m
  {
    var q, qm := u / p, m / p;
    assert u - u % p == p * q;
    assert m == p * qm;
    assert q < qm by {
      if q >= qm {
        MulMonotone(p, qm, q);
      }
    }
    MulMonotone(p, q + 1, qm);
  }

  /** A local offset inside the cell, added to the cell's origin, lands back
      in the same cell. */
  lemma OffsetStaysInCell(c: Config, cell: int, local: int)
    requires 0 <= local < CellSize(c)
    ensures CellOf(c, Origin(c, cell) + local) == cell
  {
    ModUnique(Origin(c, cell) + local, CellSize(c), cell, local);
  }

  /** `v & 1`: the parity of a cell index, for either sign. */
  function Parity(v: int): (p: int)
    ensures p == 0 || p == 1
  {
    v % 2
  }

  /** The parity is the C# `v & 1`. */
  lemma ParityIsAnd(v: int)
    ensures Parity(v) == And32(v, 1)
  {
    AndLowMask(v, 1);
    assert Pow2(1) == 2;
  }

  /** The four kinds of cell, by row and column parity: 0 even row and even
      column, 1 even row and odd column, 2 odd row and even column, 3 odd row
      and odd column. Every cell has exactly one kind, and neighbours along
      a row or a column never share it. */
  function Kind(cellx: int, celly: int): (k: int)
    ensures 0 <= k <= 3
    ensures k == 2 * Parity(celly) + Parity(cellx)
  {
    if Parity(celly) == 0 && Parity(cellx) == 0 then 0
    else if Parity(celly) == 0 && Parity(cellx) == 1 then 1
    else if Parity(celly) == 1 && Parity(cellx) == 0 then 2
    else 3
  }

  /** Moving one cell along a row flips between kinds 0 and 1 or 2 and 3;
      moving one cell along a column flips between 0 and 2 or 1 and 3. */
  lemma KindOfNeighbours(cellx: int, celly: int)
    ensures Kind(cellx + 1, celly) + Kind(cellx, celly) == 4 * Parity(celly) + 1
    ensures Kind(cellx, celly + 1) + Kind(cellx, celly) == 2 * Parity(cellx) + 2
  {
  }
}

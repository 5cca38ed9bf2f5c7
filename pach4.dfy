/** The fourth sampler: each cell reads the random points of itself and its
    three upper and right neighbours, averages them pairwise into two lines
    across a 256-unit box, and places its sample at their intersection. */
module Pach4 {
  import opened Numeric
  import opened Samples
  import opened Cells

  /** What the indexer gives back: a sample, or the `OverflowException` that
      C# raises when `int.MinValue` is divided by -1. */
  datatype Lookup = Found(sample: Sample) | DivisionOverflow

  datatype Option<T> = None | Some(value: T)

  /** C# `int` arithmetic: computed exactly, then wrapped to 32 bits. */
  function Add32(a: int, b: int): I32 { ToInt32(a + b) }
  function Sub32(a: int, b: int): I32 { ToInt32(a - b) }
  function Mul32(a: int, b: int): I32 { ToInt32(a * b) }

  /** C# `int` division: truncating, failing only on `int.MinValue / -1`;
      the caller has already excluded a zero divisor. */
  function Quotient32(a: I32, b: I32): (q: Option<I32>)
    requires b != 0
    ensures q.None? <==> a == -TWO31 && b == -1
    ensures q.Some? ==> q.value == DivT(a, b)
  {
    if a == -TWO31 && b == -1 then None
    else
      assert -TWO31 <= DivT(a, b) < TWO31 by { QuotientFits(a, b); }
      Some(DivT(a, b))
  }

  /** A truncated quotient of `int`s is an `int`, except `int.MinValue / -1`. */
  lemma QuotientFits(a: I32, b: I32)
    requires b != 0 && !(a == -TWO31 && b == -1)
    ensures -TWO31 <= DivT(a, b) < TWO31
  {
    var m := Abs(a) / Abs(b);
    if Abs(b) == 1 {
      assert m == Abs(a);
    } else {
      DivAtLeastTwo(Abs(a), Abs(b));
    }
  }

  /** `GenerateSample(row, col)`: the low `bits` bits of the noise are X, the
      next `bits` bits are Y, and the raw noise is the value, which is 0, the
      absent sample, exactly when the noise is 0. */
  function GenerateSample(c: Config, row: int, col: int): (s: Sample)
    ensures InCell(c, s.x, s.y)
    ensures s.value == c.noise(row, col)
    ensures s.Valid() <==> c.noise(row, col) != 0
  {
    var cs := CellSize(c);
    var rnd := c.noise(row, col);
    Sample(rnd % cs, (rnd / cs) % cs, rnd)
  }

  /** The masks `rnd & mask` and `(rnd >> Bits) & mask` give the two fields,
      which are the offsets of the candidate the other samplers draw from the
      same noise; only the value differs, the raw noise instead of its high
      bits plus one. */
  lemma GenerateSampleFields(c: Config, row: int, col: int)
    ensures var s := GenerateSample(c, row, col); var cs := CellSize(c);
      And32(s.value, cs - 1) == s.x && And32(s.value / cs, cs - 1) == s.y
    ensures var s := GenerateSample(c, row, col); var t := Candidate(c, row, col);
      s.x == t.x && s.y == t.y
  {
    var cs := CellSize(c);
    MaskSteps(c.noise(row, col), c.bits, cs);
  }

  /** The two lines a cell's sample sits on, in a box of side 256: one from
      `(0, y1)` to `(256, y2)`, the other from `(x3, 0)` to `(x4, 256)`. */
  datatype Lines = Lines(x3: int, x4: int, y1: int, y2: int)

  /** The lines of the cell at `(row, col)`: `x3` averages the X of the cell
      and its right neighbour, `x4` of the two cells above; `y1` averages the
      Y of the cell and the one above, `y2` of the upper two. Each `>> 1` is a
      floor halving of a non-negative sum, and all four values are in the
      cell. */
  function CellLines(c: Config, row: int, col: int): (l: Lines)
    ensures 0 <= l.x3 < CellSize(c) && 0 <= l.x4 < CellSize(c)
    ensures 0 <= l.y1 < CellSize(c) && 0 <= l.y2 < CellSize(c)
  {
    var s00 := GenerateSample(c, row, col);
    var s01 := GenerateSample(c, row, Add32(col, 1));
    var s10 := GenerateSample(c, Add32(row, 1), col);
    var s11 := GenerateSample(c, Add32(row, 1), Add32(col, 1));
    Lines((s00.x + s01.x) / 2, (s10.x + s11.x) / 2, (s00.y + s10.y) / 2, (s10.y + s11.y) / 2)
  }

  /** `d = (x1 - x2) * (y3 - y4) - (y1 - y2) * (x3 - x4)` in wrapping `int`
      arithmetic, with the constants `x1 = y3 = 0` and `x2 = y4 = 256`. */
  function Denominator(l: Lines): I32 {
    var x1, x2, y3, y4 := 0, 256, 0, 256;
    Sub32(Mul32(Sub32(x1, x2), Sub32(y3, y4)), Mul32(Sub32(l.y1, l.y2), Sub32(l.x3, l.x4)))
  }

  /** `px = (x1 * y2 - y1 * x2) * (x3 - x4) - (x1 - x2) * (x3 * y4 - y3 * x4)`
      in wrapping `int` arithmetic. */
  function NumeratorX(l: Lines): I32 {
    var x1, x2, y3, y4 := 0, 256, 0, 256;
    Sub32(Mul32(Sub32(Mul32(x1, l.y2), Mul32(l.y1, x2)), Sub32(l.x3, l.x4)),
          Mul32(Sub32(x1, x2), Sub32(Mul32(l.x3, y4), Mul32(y3, l.x4))))
  }

  /** `py = (x1 * y2 - y1 * x2) * (y3 - y4) - (y1 - y2) * (x3 * y4 - y3 * x4)`
      in wrapping `int` arithmetic. */
  function NumeratorY(l: Lines): I32 {
    var x1, x2, y3, y4 := 0, 256, 0, 256;
    Sub32(Mul32(Sub32(Mul32(x1, l.y2), Mul32(l.y1, x2)), Sub32(y3, y4)),
          Mul32(Sub32(l.y1, l.y2), Sub32(Mul32(l.x3, y4), Mul32(y3, l.x4))))
  }

  /** A product of two factors below `m` and `n` in magnitude is below `m * n`. */
  lemma ProductBound(p: int, q: int, m: int, n: int)
    requires -m <= p <= m && -n <= q <= n && m >= 0 && n >= 0
    ensures -(m * n) <= p * q <= m * n
  {
    if p >= 0 && q >= 0 {
      MulMonotone(p, q, n);
      MulMonotone(n, p, m);
    } else if p >= 0 {
      MulMonotone(p, -q, n);
      MulMonotone(n, p, m);
    } else if q >= 0 {
      MulMonotone(-p, q, n);
      MulMonotone(n, -p, m);
    } else {
      MulMonotone(-p, -q, n);
      MulMonotone(n, -p, m);
    }
  }

  /** For in-cell lines the denominator never wraps, whatever the cell size:
      it is `65536 - (y1 - y2) * (x3 - x4)` with the 256 constants. */
  lemma DenominatorExact(l: Lines)
    requires 0 <= l.x3 < 0x8000 && 0 <= l.x4 < 0x8000 && 0 <= l.y1 < 0x8000 && 0 <= l.y2 < 0x8000
    ensures Denominator(l) == 65536 - (l.y1 - l.y2) * (l.x3 - l.x4)
  {
    var a, b := l.y1 - l.y2, l.x3 - l.x4;
    ToInt32Id(0 - 256);
    ToInt32Id(-256 * -256);
    ToInt32Id(a);
    ToInt32Id(b);
    ProductBound(a, b, 0x8000, 0x8000);
    ToInt32Id(a * b);
    ToInt32Id(65536 - a * b);
  }

  lemma Sub32Exact(a: int, b: int)
    requires -TWO31 <= a - b < TWO31
    ensures Sub32(a, b) == a - b
  {
    ToInt32Id(a - b);
  }

  lemma Mul32Exact(a: int, b: int, m: int, n: int)
    requires -m <= a <= m && -n <= b <= n && m >= 0 && n >= 0 && m * n < TWO31
    ensures Mul32(a, b) == a * b
  {
    ProductBound(a, b, m, n);
    ToInt32Id(a * b);
  }

  /** With a cell of at most 256 units the x numerator does not wrap:
      `px = 65536 * x3 - 256 * y1 * (x3 - x4)`. */
  lemma NumeratorXExact(l: Lines)
    requires 0 <= l.x3 < 256 && 0 <= l.x4 < 256 && 0 <= l.y1 < 256 && 0 <= l.y2 < 256
    ensures NumeratorX(l) == 65536 * l.x3 - 256 * l.y1 * (l.x3 - l.x4)
  {
    var x3, x4, y1, y2 := l.x3, l.x4, l.y1, l.y2;
    var cross := CrossTerm(y1, y2);
    var e := Sub32(x3, x4);
    assert e == x3 - x4 by { Sub32Exact(x3, x4); }
    var left := Mul32(cross, e);
    assert left == -(y1 * 256) * (x3 - x4) by { Mul32Exact(cross, e, 0x1_0000, 256); }
    var right := Mul32(Sub32(0, 256), Sub32(Mul32(x3, 256), Mul32(0, x4)));
    assert right == -65536 * x3 by { ScaledTerm(x3, x4); }
    assert NumeratorX(l) == Sub32(left, right);
    assert -0x100_0000 <= left <= 0x100_0000 by { ProductBound(cross, e, 0x1_0000, 256); }
    Sub32Exact(left, right);
    Rescale(y1, x3 - x4);
  }

  /** With a cell of at most 256 units the y numerator does not wrap:
      `py = 65536 * y1 - 256 * x3 * (y1 - y2)`. */
  lemma NumeratorYExact(l: Lines)
    requires 0 <= l.x3 < 256 && 0 <= l.x4 < 256 && 0 <= l.y1 < 256 && 0 <= l.y2 < 256
    ensures NumeratorY(l) == 65536 * l.y1 - 256 * l.x3 * (l.y1 - l.y2)
  {
    var x3, x4, y1, y2 := l.x3, l.x4, l.y1, l.y2;
    var cross := CrossTerm(y1, y2);
    var left := Mul32(cross, Sub32(0, 256));
    assert left == -(y1 * 256) * -256 by {
      Sub32Exact(0, 256);
      Mul32Exact(cross, -256, 0x1_0000, 256);
    }
    var e := Sub32(y1, y2);
    assert e == y1 - y2 by { Sub32Exact(y1, y2); }
    var t := Sub32(Mul32(x3, 256), Mul32(0, x4));
    assert t == x3 * 256 by { ShiftedX(x3, x4); }
    var right := Mul32(e, t);
    assert right == (y1 - y2) * (x3 * 256) by { Mul32Exact(e, t, 256, 0x1_0000); }
    assert NumeratorY(l) == Sub32(left, right);
    assert -0x100_0000 <= right <= 0x100_0000 by { ProductBound(e, t, 256, 0x1_0000); }
    Sub32Exact(left, right);
    Rescale(x3, y1 - y2);
    assert (y1 - y2) * (x3 * 256) == x3 * 256 * (y1 - y2);
  }

  /** Regrouping the 256 factors of the numerators. */
  lemma Rescale(a: int, b: int)
    ensures -(a * 256) * b == -(256 * a * b)
    ensures -(a * 256) * -256 == 65536 * a
    ensures a * 256 * b == 256 * a * b
  {
  }

  /** `x1 * y2 - y1 * x2` with `x1 = 0` and `x2 = 256` does not wrap. */
  lemma CrossTermExact(y1: int, y2: int)
    requires 0 <= y1 < 256 && 0 <= y2 < 256
    ensures Sub32(Mul32(0, y2), Mul32(y1, 256)) == -(y1 * 256)
  {
    Mul32Exact(0, y2, 0, 256);
    Mul32Exact(y1, 256, 256, 256);
    Sub32Exact(0, y1 * 256);
  }

  function CrossTerm(y1: int, y2: int): (t: I32)
    requires 0 <= y1 < 256 && 0 <= y2 < 256
    ensures t == -(y1 * 256)
  {
    CrossTermExact(y1, y2);
    Sub32(Mul32(0, y2), Mul32(y1, 256))
  }

  /** `x3 * y4 - y3 * x4` with `y3 = 0` and `y4 = 256` does not wrap. */
  lemma ShiftedX(x3: int, x4: int)
    requires 0 <= x3 < 256 && 0 <= x4 < 256
    ensures Sub32(Mul32(x3, 256), Mul32(0, x4)) == x3 * 256
  {
    Mul32Exact(x3, 256, 256, 256);
    Mul32Exact(0, x4, 0, 256);
    Sub32Exact(x3 * 256, 0);
  }

  /** `(x1 - x2) * (x3 * y4 - y3 * x4)` does not wrap. */
  lemma ScaledTerm(x3: int, x4: int)
    requires 0 <= x3 < 256 && 0 <= x4 < 256
    ensures Mul32(Sub32(0, 256), Sub32(Mul32(x3, 256), Mul32(0, x4))) == -65536 * x3
  {
    Sub32Exact(0, 256);
    ShiftedX(x3, x4);
    Mul32Exact(-256, x3 * 256, 256, 0x1_0000);
  }

  /** The x numerator against `x3 * d` and `x4 * d`. */
  lemma CrossingX(x3: int, x4: int, y1: int, y2: int, d: int, px: int)
    requires 0 <= x3 < 256 && 0 <= x4 < 256 && 0 <= y1 < 256 && 0 <= y2 < 256
    requires d == 65536 - (y1 - y2) * (x3 - x4)
    requires px == 65536 * x3 - 256 * y1 * (x3 - x4)
    ensures Min(x3, x4) * d <= px <= Max(x3, x4) * d
  {
    var e := x3 - x4;
    var g := (256 - x3) * y1 + x3 * y2;
    var h := (256 - x4) * (256 - y1) + x4 * (256 - y2);
    SplitX(x3, x4, y1, y2);
    NonNegativeSum(256 - x3, y1, x3, y2);
    NonNegativeSum(256 - x4, 256 - y1, x4, 256 - y2);
    MulSign(e, g);
    MulSign(e, h);
  }

  /** The y numerator against `y1 * d` and `y2 * d`. */
  lemma CrossingY(x3: int, x4: int, y1: int, y2: int, d: int, py: int)
    requires 0 <= x3 < 256 && 0 <= x4 < 256 && 0 <= y1 < 256 && 0 <= y2 < 256
    requires d == 65536 - (y1 - y2) * (x3 - x4)
    requires py == 65536 * y1 - 256 * x3 * (y1 - y2)
    ensures Min(y1, y2) * d <= py <= Max(y1, y2) * d
  {
    var e := y1 - y2;
    var g := (256 - y1) * x3 + y1 * x4;
    var h := (256 - x3) * (256 - y2) + y2 * (256 - x4);
    SplitY(x3, x4, y1, y2);
    NonNegativeSum(256 - y1, x3, y1, x4);
    NonNegativeSum(256 - x3, 256 - y2, y2, 256 - x4);
    MulSign(e, g);
    MulSign(e, h);
  }

  /** The x numerator minus either end point times the denominator. */
  lemma SplitX(x3: int, x4: int, y1: int, y2: int)
    ensures var e := x3 - x4; var d := 65536 - (y1 - y2) * e; var px := 65536 * x3 - 256 * y1 * e;
      px - x3 * d == -(e * ((256 - x3) * y1 + x3 * y2)) &&
      px - x4 * d == e * ((256 - x4) * (256 - y1) + x4 * (256 - y2))
  {
  }

  /** The y numerator minus either end point times the denominator. */
  lemma SplitY(x3: int, x4: int, y1: int, y2: int)
    ensures var e := y1 - y2; var d := 65536 - e * (x3 - x4); var py := 65536 * y1 - 256 * x3 * e;
      py - y1 * d == -(e * ((256 - y1) * x3 + y1 * x4)) &&
      py - y2 * d == e * ((256 - x3) * (256 - y2) + y2 * (256 - x4))
  {
  }

  lemma NonNegativeSum(a: int, b: int, c: int, d: int)
    requires a >= 0 && b >= 0 && c >= 0 && d >= 0
    ensures a * b + c * d >= 0
  {
    MulMonotone(a, 0, b);
    MulMonotone(c, 0, d);
  }

  lemma MulSign(e: int, g: int)
    requires g >= 0
    ensures e >= 0 ==> e * g >= 0
    ensures e <= 0 ==> e * g <= 0
  {
    if e >= 0 { MulMonotone(e, 0, g); } else { MulMonotone(-e, 0, g); }
  }

  /** The indexer: the cell of `(x, y)` has column `x >> Bits` and row
      `y >> Bits` and origin `(col << Bits, row << Bits)`; a zero denominator
      gives the empty sample at `(0, 0)`; otherwise the intersection, by
      truncating division, is moved by the origin with wrap-around and
      carries the value of the cell's own random point. */
  function SampleAt(c: Config, x: I32, y: I32): (r: Lookup)
    ensures var l := CellLines(c, CellOf(c, y), CellOf(c, x));
      (Denominator(l) == 0 ==> r == Found(Sample(0, 0, 0))) &&
      (r.DivisionOverflow? ==> Denominator(l) == -1) &&
      (r.Found? && Denominator(l) != 0 ==> r.sample.value == c.noise(CellOf(c, y), CellOf(c, x)))
  {
    var col := CellOf(c, x);
    var row := CellOf(c, y);
    var x0 := ToInt32(Origin(c, col));
    var y0 := ToInt32(Origin(c, row));
    var s00 := GenerateSample(c, row, col);
    var l := CellLines(c, row, col);
    var d := Denominator(l);
    var px := NumeratorX(l);
    var py := NumeratorY(l);
    if d == 0 then Found(Sample(0, 0, 0))
    else
      match (Quotient32(px, d), Quotient32(py, d))
      case (Some(qx), Some(qy)) => Found(Sample(Add32(qx, x0), Add32(qy, y0), s00.value))
      case _ => DivisionOverflow
  }

  /** Lines of a cell of at most 256 units meet at an x the truncating
      division finds without overflow, between `x4` and `x3`; `d` and `px`
      are the exact denominator and x numerator. */
  lemma MeetingX(l: Lines, d: I32, px: I32) returns (qx: int)
    requires 0 <= l.x3 < 256 && 0 <= l.x4 < 256 && 0 <= l.y1 < 256 && 0 <= l.y2 < 256
    requires d == 65536 - (l.y1 - l.y2) * (l.x3 - l.x4)
    requires px == 65536 * l.x3 - 256 * l.y1 * (l.x3 - l.x4)
    ensures d > 0
    ensures Quotient32(px, d) == Some(qx) && Min(l.x3, l.x4) <= qx <= Max(l.x3, l.x4)
  {
    ProductBound(l.y1 - l.y2, l.x3 - l.x4, 255, 255);
    CrossingX(l.x3, l.x4, l.y1, l.y2, d, px);
    qx := Intersection(px, d, Min(l.x3, l.x4), Max(l.x3, l.x4));
  }

  /** Lines of a cell of at most 256 units meet at a y the truncating
      division finds without overflow, between `y2` and `y1`; `d` and `py`
      are the exact denominator and y numerator. */
  lemma MeetingY(l: Lines, d: I32, py: I32) returns (qy: int)
    requires 0 <= l.x3 < 256 && 0 <= l.x4 < 256 && 0 <= l.y1 < 256 && 0 <= l.y2 < 256
    requires d == 65536 - (l.y1 - l.y2) * (l.x3 - l.x4)
    requires py == 65536 * l.y1 - 256 * l.x3 * (l.y1 - l.y2)
    ensures d > 0
    ensures Quotient32(py, d) == Some(qy) && Min(l.y1, l.y2) <= qy <= Max(l.y1, l.y2)
  {
    ProductBound(l.y1 - l.y2, l.x3 - l.x4, 255, 255);
    CrossingY(l.x3, l.x4, l.y1, l.y2, d, py);
    qy := Intersection(py, d, Min(l.y1, l.y2), Max(l.y1, l.y2));
  }

  /** The wrapped computation of a cell of at most 256 units finds the
      meeting point of its lines: a positive denominator and quotients
      between the lines' end points. */
  lemma LinesMeet(l: Lines) returns (qx: int, qy: int)
    requires 0 <= l.x3 < 256 && 0 <= l.x4 < 256 && 0 <= l.y1 < 256 && 0 <= l.y2 < 256
    ensures Denominator(l) > 0
    ensures Quotient32(NumeratorX(l), Denominator(l)) == Some(qx) && Min(l.x3, l.x4) <= qx <= Max(l.x3, l.x4)
    ensures Quotient32(NumeratorY(l), Denominator(l)) == Some(qy) && Min(l.y1, l.y2) <= qy <= Max(l.y1, l.y2)
  {
    DenominatorExact(l);
    NumeratorXExact(l);
    NumeratorYExact(l);
    qx := MeetingX(l, Denominator(l), NumeratorX(l));
    qy := MeetingY(l, Denominator(l), NumeratorY(l));
  }

  /** For cells of at most 256 units (`bits <= 8`) the constants 256 cover
      the cell, so the denominator is positive, nothing wraps or overflows,
      and the sample is the lines' intersection, rounded towards zero:
      between `x4` and `x3` and between `y2` and `y1` from the cell's origin,
      hence in the cell, with the cell's own noise as its value. */
  lemma SmallCellsIntersect(c: Config, x: I32, y: I32)
    requires c.bits <= 8
    ensures var col := CellOf(c, x); var row := CellOf(c, y);
      var l := CellLines(c, row, col);
      var r := SampleAt(c, x, y);
      r.Found? &&
      Origin(c, col) + Min(l.x3, l.x4) <= r.sample.x <= Origin(c, col) + Max(l.x3, l.x4) &&
      Origin(c, row) + Min(l.y1, l.y2) <= r.sample.y <= Origin(c, row) + Max(l.y1, l.y2) &&
      CellOf(c, r.sample.x) == col && CellOf(c, r.sample.y) == row &&
      r.sample.value == c.noise(row, col)
  {
    var col := CellOf(c, x);
    var row := CellOf(c, y);
    var l := CellLines(c, row, col);
    assert CellSize(c) <= 256 by { Pow2Monotone(c.bits, 8); Pow2Of32(); }
    var qx, qy := LinesMeet(l);
    assert InCell(c, qx, qy);
    OriginHolds(c, x);
    OriginHolds(c, y);
    ToInt32Id(Origin(c, col));
    ToInt32Id(Origin(c, row));
    ToInt32Id(qx + Origin(c, col));
    ToInt32Id(qy + Origin(c, row));
    OffsetStaysInCell(c, col, qx);
    OffsetStaysInCell(c, row, qy);
  }

  /** A non-negative numerator between `lo * d` and `hi * d` is truncated to
      a quotient between `lo` and `hi`. */
  lemma Intersection(p: I32, d: I32, lo: int, hi: int) returns (q: int)
    requires d > 0 && 0 <= lo && lo * d <= p <= hi * d
    ensures Quotient32(p, d) == Some(q) && lo <= q <= hi
  {
    q := p / d;
    assert Quotient32(p, d) == Some(q) by { DivTowardZero(p, d); }
    assert d * lo <= p < d * (hi + 1) by { MulSub(d, hi + 1, 1); }
    DivBetween(p, d, lo, hi);
  }
}

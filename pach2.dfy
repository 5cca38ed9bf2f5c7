/** The Pach2 sampler. Cells are labelled by row and column parity as in
    Pach5. Kind 0 cells hold their candidate. Kind 1 and kind 2 cells take
    their coordinates from bit fields of the neighbouring kind 0 values,
    alternating between a horizontal and a vertical orientation every two
    cells, and are present only when they fall between those neighbours.
    Kind 3 cells bound their sample by the four middle neighbours,
    tighten the x range by the corner samples, skip the gap that two
    opposite corners leave unusable, and finally tighten the y range for
    the chosen x. */
module Pach2 {
  import opened Numeric
  import opened Samples
  import opened Rects
  import opened OverlapCalculator
  import opened Cells

  /** `((row ^ col) & 2) == 0`: the orientation of a kind 1 or kind 2 cell. */
  predicate Horizontal(row: int, col: int) {
    And32(Xor32(row, col), 2) == 0
  }

  /** The orientation holds exactly when row and column agree in bit 1. */
  lemma HorizontalIffSameBitOne(row: int, col: int)
    ensures Horizontal(row, col) <==> (row / 2) % 2 == (col / 2) % 2
  {
    XorBitOne(row, col);
  }

  /** The orientation alternates every two cells along a row and along a
      column. */
  lemma HorizontalAlternates(row: int, col: int)
    ensures Horizontal(row, col + 2) <==> !Horizontal(row, col)
    ensures Horizontal(row + 2, col) <==> !Horizontal(row, col)
  {
    HorizontalIffSameBitOne(row, col);
    HorizontalIffSameBitOne(row, col + 2);
    HorizontalIffSameBitOne(row + 2, col);
    NextBitOne(row);
    NextBitOne(col);
  }

  lemma NextBitOne(v: int)
    ensures ((v + 2) / 2) % 2 == 1 - (v / 2) % 2
  {
    ModUnique(v + 2, 2, v / 2 + 1, v % 2);
    ModUnique(v / 2 + 1, 2, if (v / 2) % 2 == 0 then v / 2 / 2 else v / 2 / 2 + 1, 1 - (v / 2) % 2);
  }

  /** The lowest `bits` bits of a value. */
  function LowField(c: Config, v: int): int {
    v % CellSize(c)
  }

  /** The next `bits` bits of a value. */
  function HighField(c: Config, v: int): int {
    (v / CellSize(c)) % CellSize(c)
  }

  /** The masks and shifts of the adjusters pick the two fields, whether the
      value is read as `uint` or cast to `int` first. */
  lemma FieldsOf(c: Config, v: U32)
    ensures And32(v, CellSize(c) - 1) == LowField(c, v)
    ensures And32(v / CellSize(c), CellSize(c) - 1) == HighField(c, v)
    ensures And32(ToInt32(v), CellSize(c) - 1) == LowField(c, v)
    ensures And32(ToInt32(v) / CellSize(c), CellSize(c) - 1) == HighField(c, v)
  {
    var cs := CellSize(c);
    assert And32(v, cs - 1) == LowField(c, v) by { AndLowMask(v, c.bits); }
    assert And32(v / cs, cs - 1) == HighField(c, v) by { AndLowMask(v / cs, c.bits); }
    assert And32(ToInt32(v), cs - 1) == LowField(c, v) by {
      AndLowMask(ToInt32(v), c.bits);
      ToInt32Residue(v, c.bits);
    }
    assert And32(ToInt32(v) / cs, cs - 1) == HighField(c, v) by {
      AndLowMask(ToInt32(v) / cs, c.bits);
      SignedHigh(v, c.bits, cs);
    }
  }

  /** Reading a `uint` as an `int` and shifting right keeps the second
      field: the wrap by 2^32 is a multiple of `cs * cs`. */
  lemma SignedHigh(v: U32, k: int, cs: int)
    requires 1 <= k <= 15 && cs == Pow2(k)
    ensures (ToInt32(v) / cs) % cs == (v / cs) % cs
  {
    if v >= TWO31 {
      SignedHighWrapped(v, k, cs);
    } else {
      ToInt32Id(v);
    }
  }

  lemma SignedHighWrapped(v: U32, k: int, cs: int)
    requires 1 <= k <= 15 && cs == Pow2(k) && v >= TWO31
    ensures (ToInt32(v) / cs) % cs == (v / cs) % cs
  {
    var p, q := WrapInCells(k, cs);
    assert ToInt32(v) == v - cs * p by {
      ModUnique(v, TWO32, 0, v);
    }
    var d := v / cs;
    DivMod(v, cs);
    MulSub(cs, d, p);
    ModUnique(v - cs * p, cs, d - p, v % cs);
    ModAddMultiple(d - p, cs, q);
  }

  /** 2^32 is `cs` times a multiple of `cs`, for `cs = 2^k` with `k <= 16`. */
  lemma WrapInCells(k: int, cs: int) returns (p: int, q: int)
    requires 1 <= k <= 15 && cs == Pow2(k)
    ensures TWO32 == cs * p && p == cs * q
  {
    Pow2Of32();
    Pow2Divides(k, 32);
    Pow2Divides(k, 32 - k);
    p, q := Pow2(32 - k), Pow2(32 - k - k);
  }

  // ---------------------------------------------------------------- kinds 1 and 2

  /** `GetRowAdjustedSample`: x is the larger (horizontal) or smaller
      (vertical) of the two fields of one neighbour's value, y a field of
      the other's; present exactly when x lies between the neighbours. */
  function RowAdjustedSample(c: Config, col: int, row: int, s0: Sample, s1: Sample): (r: Sample)
    ensures InCell(c, r.x, r.y)
    ensures r.Valid() <==> s0.x <= r.x <= s1.x
    ensures r.value <= 1
  {
    var cellSize := Pow2(c.bits);
    var mask := cellSize - 1;
    var leftIsHorizontal := Horizontal(row, col);
    var whiteValue := if leftIsHorizontal then s0.value else s1.value;
    var blackValue := if leftIsHorizontal then s1.value else s0.value;
    var y := if leftIsHorizontal then And32(ToInt32(blackValue), mask) else And32(ToInt32(blackValue) / cellSize, mask);
    var x1 := And32(whiteValue, mask);
    var x2 := And32(whiteValue / cellSize, mask);
    var x := if leftIsHorizontal then Max(x1, x2) else Min(x1, x2);
    assert 0 <= x < cellSize by {
      assert cellSize == CellSize(c);
      AndBelowMask(whiteValue, mask);
      AndBelowMask(whiteValue / cellSize, mask);
    }
    assert 0 <= y < cellSize by {
      assert cellSize == CellSize(c);
      AndBelowMask(ToInt32(blackValue), mask);
      AndBelowMask(ToInt32(blackValue) / cellSize, mask);
    }
    Sample(x, y, if x >= s0.x && x <= s1.x then 1 else 0)
  }

  /** The row adjuster in arithmetic terms: with a horizontal orientation
      (row and column agree in bit 1) x is the larger field of `s0`'s value
      and y the low field of `s1`'s; otherwise x is the smaller field of
      `s1`'s value and y the high field of `s0`'s. */
  lemma RowAdjustedFields(c: Config, col: int, row: int, s0: Sample, s1: Sample)
    ensures var r := RowAdjustedSample(c, col, row, s0, s1);
      var h := (row / 2) % 2 == (col / 2) % 2;
      var white := if h then s0.value else s1.value;
      var black := if h then s1.value else s0.value;
      r.y == (if h then LowField(c, black) else HighField(c, black)) &&
      (r.x == LowField(c, white) || r.x == HighField(c, white)) &&
      (h ==> r.x >= LowField(c, white) && r.x >= HighField(c, white)) &&
      (!h ==> r.x <= LowField(c, white) && r.x <= HighField(c, white))
  {
    HorizontalIffSameBitOne(row, col);
    FieldsOf(c, s0.value);
    FieldsOf(c, s1.value);
  }

  /** `GetColAdjustedSample`: the transpose of the row adjuster; present
      exactly when y lies between the neighbours. */
  function ColAdjustedSample(c: Config, col: int, row: int, s0: Sample, s1: Sample): (r: Sample)
    ensures InCell(c, r.x, r.y)
    ensures r.Valid() <==> s0.y <= r.y <= s1.y
    ensures r.value <= 1
  {
    var cellSize := Pow2(c.bits);
    var mask := cellSize - 1;
    var topIsHorizontal := Horizontal(row, col);
    var x := if topIsHorizontal then And32(ToInt32(s0.value), mask) else And32(ToInt32(s1.value) / cellSize, mask);
    var blackSample := if topIsHorizontal then s1 else s0;
    var y1 := And32(blackSample.value, mask);
    var y2 := And32(blackSample.value / cellSize, mask);
    var y := if topIsHorizontal then Min(y1, y2) else Max(y1, y2);
    assert 0 <= x < cellSize by {
      assert cellSize == CellSize(c);
      AndBelowMask(ToInt32(s0.value), mask);
      AndBelowMask(ToInt32(s1.value) / cellSize, mask);
    }
    assert 0 <= y < cellSize by {
      assert cellSize == CellSize(c);
      AndBelowMask(blackSample.value, mask);
      AndBelowMask(blackSample.value / cellSize, mask);
    }
    Sample(x, y, if y >= s0.y && y <= s1.y then 1 else 0)
  }

  /** The column adjuster in arithmetic terms: with a horizontal orientation
      x is the low field of `s0`'s value and y the smaller field of `s1`'s;
      otherwise x is the high field of `s1`'s value and y the larger field
      of `s0`'s. */
  lemma ColAdjustedFields(c: Config, col: int, row: int, s0: Sample, s1: Sample)
    ensures var r := ColAdjustedSample(c, col, row, s0, s1);
      var h := (row / 2) % 2 == (col / 2) % 2;
      var black := if h then s1.value else s0.value;
      r.x == (if h then LowField(c, s0.value) else HighField(c, s1.value)) &&
      (r.y == LowField(c, black) || r.y == HighField(c, black)) &&
      (h ==> r.y <= LowField(c, black) && r.y <= HighField(c, black)) &&
      (!h ==> r.y >= LowField(c, black) && r.y >= HighField(c, black))
  {
    HorizontalIffSameBitOne(row, col);
    FieldsOf(c, s0.value);
    FieldsOf(c, s1.value);
  }

  /** `GetEvenRowSample`: a kind 1 cell between its left and right kind 0
      neighbours. */
  function EvenRowSample(c: Config, col: int, row: int): (r: Sample)
    ensures InCell(c, r.x, r.y) && r.value <= 1
    ensures r.Valid() <==> Candidate(c, col - 1, row).x <= r.x <= Candidate(c, col + 1, row).x
  {
    RowAdjustedSample(c, col, row, Candidate(c, col - 1, row), Candidate(c, col + 1, row))
  }

  /** `GetEvenColSample`: a kind 2 cell between its lower and upper kind 0
      neighbours. */
  function EvenColSample(c: Config, col: int, row: int): (r: Sample)
    ensures InCell(c, r.x, r.y) && r.value <= 1
    ensures r.Valid() <==> Candidate(c, col, row - 1).y <= r.y <= Candidate(c, col, row + 1).y
  {
    ColAdjustedSample(c, col, row, Candidate(c, col, row - 1), Candidate(c, col, row + 1))
  }

  // ---------------------------------------------------------------- kind 3

  /** The starting bounds of a kind 3 cell, `[minx, maxx] x [miny, maxy]`:
      the present middle neighbours, or the cell's edges. */
  function Frame(c: Config, col: int, row: int): (f: Rect)
    ensures 0 <= f.xmin < CellSize(c) && 0 <= f.xmax < CellSize(c)
    ensures 0 <= f.ymin < CellSize(c) && 0 <= f.ymax < CellSize(c)
  {
    var cellSize := CellSize(c);
    var ll := Candidate(c, col - 1, row - 1);
    var ul := Candidate(c, col - 1, row + 1);
    var lr := Candidate(c, col + 1, row - 1);
    var ur := Candidate(c, col + 1, row + 1);
    var lowerMiddle := RowAdjustedSample(c, col, row - 1, ll, lr);
    var upperMiddle := RowAdjustedSample(c, col, row + 1, ul, ur);
    var middleLeft := ColAdjustedSample(c, col - 1, row, ll, ul);
    var middleRight := ColAdjustedSample(c, col + 1, row, lr, ur);
    Rect(if middleLeft.Valid() then middleLeft.x else 0,
         if middleRight.Valid() then middleRight.x else cellSize - 1,
         if lowerMiddle.Valid() then lowerMiddle.y else 0,
         if upperMiddle.Valid() then upperMiddle.y else cellSize - 1)
  }

  /** The corner tests on x: each may only raise `minx` or lower `maxx`.
      The new `minx` is the largest of the old one and the corner bounds
      that apply, and symmetrically for `maxx`; the y bounds are kept. */
  function TightenX(f: Rect, ll: Sample, lr: Sample, ul: Sample, ur: Sample): (b: Rect)
    ensures b.ymin == f.ymin && b.ymax == f.ymax
    ensures b.xmin >= f.xmin && b.xmax <= f.xmax
    ensures (ll.y > f.ymax ==> b.xmin >= ll.x) && (ul.y < f.ymin ==> b.xmin >= ul.x)
    ensures ll.y > ul.y ==> b.xmin >= Min(ll.x, ul.x)
    ensures b.xmin == f.xmin || (ll.y > f.ymax && b.xmin == ll.x) || (ul.y < f.ymin && b.xmin == ul.x) ||
      (ll.y > ul.y && b.xmin == Min(ll.x, ul.x))
    ensures (lr.y > f.ymax ==> b.xmax <= lr.x) && (ur.y < f.ymin ==> b.xmax <= ur.x)
    ensures lr.y > ur.y ==> b.xmax <= Max(lr.x, ur.x)
    ensures b.xmax == f.xmax || (lr.y > f.ymax && b.xmax == lr.x) || (ur.y < f.ymin && b.xmax == ur.x) ||
      (lr.y > ur.y && b.xmax == Max(lr.x, ur.x))
  {
    var lo1 := if ll.y > f.ymax then Max(f.xmin, ll.x) else f.xmin;
    var lo2 := if ul.y < f.ymin then Max(lo1, ul.x) else lo1;
    var lo3 := if ll.y > ul.y then Max(lo2, Min(ll.x, ul.x)) else lo2;
    var hi1 := if lr.y > f.ymax then Min(f.xmax, lr.x) else f.xmax;
    var hi2 := if ur.y < f.ymin then Min(hi1, ur.x) else hi1;
    var hi3 := if lr.y > ur.y then Min(hi2, Max(lr.x, ur.x)) else hi2;
    f.(xmin := lo3, xmax := hi3)
  }

  /** The excluded gap `(gapminx, gapmaxx]` of x values: it covers the
      columns between a lower-left corner that is right of and above the
      upper-right one, and likewise for upper-left and lower-right; it is
      empty when neither pair overlaps; it always lies in `[minx, maxx]`. */
  function Gap(minx: int, maxx: int, ll: Sample, lr: Sample, ul: Sample, ur: Sample): (g: (int, int))
    ensures minx <= maxx ==> minx <= g.0 <= g.1 <= maxx
    ensures minx <= maxx && ll.x > ur.x && ll.y > ur.y ==> g.0 <= Max(ur.x, minx) && g.1 >= Min(ll.x, maxx)
    ensures minx <= maxx && ul.x > lr.x && ul.y < lr.y ==> g.0 <= Max(lr.x, minx) && g.1 >= Min(ul.x, maxx)
    ensures minx <= maxx && !(ll.x > ur.x && ll.y > ur.y) && !(ul.x > lr.x && ul.y < lr.y) ==> g.0 == g.1
  {
    var gmin1 := if ll.x > ur.x && ll.y > ur.y then Min(ur.x, maxx) else maxx;
    var gmax1 := if ll.x > ur.x && ll.y > ur.y then Max(ll.x, minx) else minx;
    var gmin2 := if ul.x > lr.x && ul.y < lr.y then Min(lr.x, gmin1) else gmin1;
    var gmax2 := if ul.x > lr.x && ul.y < lr.y then Max(ul.x, gmax1) else gmax1;
    var gmax3 := if gmax2 < gmin2 then gmin2 else gmax2;
    (Max(gmin2, minx), Min(gmax3, maxx))
  }

  /** The x of a kind 3 sample: interpolated over `[minx, maxx]` with the gap
      squeezed out, then moved past the gap when it lands beyond its start;
      it falls in `[minx, gapminx]` or in `(gapmaxx, maxx]`, never in the gap. */
  function PlaceX(c: Config, minx: int, maxx: int, g: (int, int), w: int): (x: int)
    ensures minx <= g.0 <= g.1 <= maxx && 0 <= w < CellSize(c) ==>
      (minx <= x <= g.0) || (g.1 < x <= maxx)
  {
    var x := Lerp(c, minx, maxx - (g.1 - g.0), w);
    assert minx <= g.0 <= g.1 <= maxx && 0 <= w < CellSize(c) ==> minx <= x <= maxx - (g.1 - g.0) by {
      if minx <= g.0 <= g.1 <= maxx && 0 <= w < CellSize(c) {
        LerpBounds(c, minx, maxx - (g.1 - g.0), w);
      }
    }
    if x > g.0 then x + (g.1 - g.0) else x
  }

  /** The corner tests on y for the chosen x: a corner whose columns the
      sample shares on its near side bounds y; the x bounds are kept. */
  function TightenY(b: Rect, x: int, ll: Sample, lr: Sample, ul: Sample, ur: Sample): (t: Rect)
    ensures t.xmin == b.xmin && t.xmax == b.xmax
    ensures t.ymin >= b.ymin && t.ymax <= b.ymax
    ensures (x < ll.x ==> t.ymin >= ll.y) && (x > lr.x ==> t.ymin >= lr.y)
    ensures (x < ul.x ==> t.ymax <= ul.y) && (x > ur.x ==> t.ymax <= ur.y)
    ensures t.ymin == b.ymin || (x < ll.x && t.ymin == ll.y) || (x > lr.x && t.ymin == lr.y)
    ensures t.ymax == b.ymax || (x < ul.x && t.ymax == ul.y) || (x > ur.x && t.ymax == ur.y)
  {
    var lo1 := if x < ll.x then Max(b.ymin, ll.y) else b.ymin;
    var lo2 := if x > lr.x then Max(lo1, lr.y) else lo1;
    var hi1 := if x < ul.x then Min(b.ymax, ul.y) else b.ymax;
    var hi2 := if x > ur.x then Min(hi1, ur.y) else hi1;
    b.(ymin := lo2, ymax := hi2)
  }

  /** The x range of a kind 3 cell after the corner tests. */
  function XRange(c: Config, col: int, row: int): Rect {
    TightenX(Frame(c, col, row), Candidate(c, col - 1, row - 1), Candidate(c, col + 1, row - 1),
      Candidate(c, col - 1, row + 1), Candidate(c, col + 1, row + 1))
  }

  /** The excluded gap of a kind 3 cell. */
  function CellGap(c: Config, col: int, row: int): (int, int) {
    var b := XRange(c, col, row);
    Gap(b.xmin, b.xmax, Candidate(c, col - 1, row - 1), Candidate(c, col + 1, row - 1),
      Candidate(c, col - 1, row + 1), Candidate(c, col + 1, row + 1))
  }

  /** The x a kind 3 cell places its sample at; with a non-empty x range it
      is in the range and outside the gap. */
  function ChosenX(c: Config, col: int, row: int): (x: int)
    ensures var b, g := XRange(c, col, row), CellGap(c, col, row);
      b.xmin <= b.xmax ==> (b.xmin <= x <= g.0 || g.1 < x <= b.xmax)
  {
    var b := XRange(c, col, row);
    PlaceX(c, b.xmin, b.xmax, CellGap(c, col, row), Candidate(c, col, row).x)
  }

  /** The y range of a kind 3 cell for its chosen x. */
  function YRange(c: Config, col: int, row: int): Rect {
    TightenY(XRange(c, col, row), ChosenX(c, col, row), Candidate(c, col - 1, row - 1),
      Candidate(c, col + 1, row - 1), Candidate(c, col - 1, row + 1), Candidate(c, col + 1, row + 1))
  }

  /** `GetEvenRowEvenColSample`: nothing when the x range or the y range for
      the chosen x is empty; otherwise a sample of value 1 in the cell at
      the chosen x, inside the y range, and clear of the quadrant of each
      diagonal kind 0 candidate. */
  function EvenRowEvenColSample(c: Config, col: int, row: int): (r: Sample)
    ensures r.Valid() <==> (XRange(c, col, row).xmin <= XRange(c, col, row).xmax &&
                            YRange(c, col, row).ymin <= YRange(c, col, row).ymax)
    ensures !r.Valid() ==> r == NoSample
    ensures r.Valid() ==> r.value == 1 && InCell(c, r.x, r.y)
    ensures r.Valid() ==> (r.x == ChosenX(c, col, row) &&
                           YRange(c, col, row).ymin <= r.y <= YRange(c, col, row).ymax)
    ensures r.Valid() ==> AvoidsCorners(r, Candidate(c, col - 1, row - 1), Candidate(c, col + 1, row - 1),
      Candidate(c, col - 1, row + 1), Candidate(c, col + 1, row + 1))
  {
    var b := XRange(c, col, row);
    if b.xmin > b.xmax then NoSample
    else
      var x := ChosenX(c, col, row);
      var t := YRange(c, col, row);
      if t.ymin > t.ymax then NoSample
      else
        var w := Candidate(c, col, row).y;
        LerpBounds(c, t.ymin, t.ymax, w);
        Sample(x, Lerp(c, t.ymin, t.ymax, w), 1)
  }

  /** The kind 3 routine, step by step on its local bounds; each phase of
      reassignments is one of the methods below. */
  method GetEvenRowEvenColSample(c: Config, col: int, row: int) returns (s: Sample)
    ensures s == EvenRowEvenColSample(c, col, row)
  {
    var ll, lr, ul, ur, minx, maxx, miny, maxy := FrameSteps(c, col, row);
    minx, maxx := TightenXSteps(minx, maxx, miny, maxy, ll, lr, ul, ur);
    assert Rect(minx, maxx, miny, maxy) == XRange(c, col, row);

    if minx > maxx {
      return Sample(0, 0, 0);
    }

    var gapminx, gapmaxx := GapSteps(minx, maxx, ll, lr, ul, ur);
    assert (gapminx, gapmaxx) == CellGap(c, col, row);

    var sample := GenerateCandidate(c, col, row);
    var x := PlaceXSteps(c, minx, maxx, gapminx, gapmaxx, sample.x);
    assert x == ChosenX(c, col, row);

    miny, maxy := TightenYSteps(x, minx, maxx, miny, maxy, ll, lr, ul, ur);
    assert Rect(minx, maxx, miny, maxy) == YRange(c, col, row);

    if miny > maxy {
      return Sample(0, 0, 0);
    }
    var y := Lerp(c, miny, maxy, sample.y);
    s := Sample(x, y, 1);
  }

  /** The four diagonal candidates and the starting bounds of a kind 3 cell. */
  method FrameSteps(c: Config, col: int, row: int)
    returns (ll: Sample, lr: Sample, ul: Sample, ur: Sample, minx: int, maxx: int, miny: int, maxy: int)
    ensures ll == Candidate(c, col - 1, row - 1) && lr == Candidate(c, col + 1, row - 1)
    ensures ul == Candidate(c, col - 1, row + 1) && ur == Candidate(c, col + 1, row + 1)
    ensures Rect(minx, maxx, miny, maxy) == Frame(c, col, row)
  {
    var cellSize := Pow2(c.bits);
    ll := GenerateCandidate(c, col - 1, row - 1);
    ul := GenerateCandidate(c, col - 1, row + 1);
    lr := GenerateCandidate(c, col + 1, row - 1);
    ur := GenerateCandidate(c, col + 1, row + 1);
    var lowerMiddle := RowAdjustedSample(c, col, row - 1, ll, lr);
    var upperMiddle := RowAdjustedSample(c, col, row + 1, ul, ur);
    var middleLeft := ColAdjustedSample(c, col - 1, row, ll, ul);
    var middleRight := ColAdjustedSample(c, col + 1, row, lr, ur);

    minx := if middleLeft.Valid() then middleLeft.x else 0;
    miny := if lowerMiddle.Valid() then lowerMiddle.y else 0;
    maxx := if middleRight.Valid() then middleRight.x else cellSize - 1;
    maxy := if upperMiddle.Valid() then upperMiddle.y else cellSize - 1;
  }

  /** The corner tests on x, as reassignments of `minx` and `maxx`. */
  method TightenXSteps(minx0: int, maxx0: int, miny: int, maxy: int,
                       ll: Sample, lr: Sample, ul: Sample, ur: Sample) returns (minx: int, maxx: int)
    ensures Rect(minx, maxx, miny, maxy) == TightenX(Rect(minx0, maxx0, miny, maxy), ll, lr, ul, ur)
  {
    minx, maxx := minx0, maxx0;
    if ll.y > maxy {
      minx := Max(minx, ll.x);
    }
    if ul.y < miny {
      minx := Max(minx, ul.x);
    }
    if ll.y > ul.y {
      var tmp := Min(ll.x, ul.x);
      minx := Max(minx, tmp);
    }
    if lr.y > maxy {
      maxx := Min(maxx, lr.x);
    }
    if ur.y < miny {
      maxx := Min(maxx, ur.x);
    }
    if lr.y > ur.y {
      var tmp := Max(lr.x, ur.x);
      maxx := Min(maxx, tmp);
    }
  }

  /** The gap, as reassignments of `gapminx` and `gapmaxx`. */
  method GapSteps(minx: int, maxx: int, ll: Sample, lr: Sample, ul: Sample, ur: Sample)
    returns (gapminx: int, gapmaxx: int)
    ensures (gapminx, gapmaxx) == Gap(minx, maxx, ll, lr, ul, ur)
  {
    gapminx := maxx;
    gapmaxx := minx;
    if ll.x > ur.x && ll.y > ur.y {
      gapminx := Min(ur.x, gapminx);
      gapmaxx := Max(ll.x, gapmaxx);
    }
    if ul.x > lr.x && ul.y < lr.y {
      gapminx := Min(lr.x, gapminx);
      gapmaxx := Max(ul.x, gapmaxx);
    }
    if gapmaxx < gapminx {
      gapmaxx := gapminx;
    }
    gapmaxx := Min(gapmaxx, maxx);
    gapminx := Max(gapminx, minx);
  }

  /** The placement of x, as an interpolation and a conditional shift past
      the gap. */
  method PlaceXSteps(c: Config, minx: int, maxx: int, gapminx: int, gapmaxx: int, w: int) returns (x: int)
    ensures x == PlaceX(c, minx, maxx, (gapminx, gapmaxx), w)
  {
    x := Lerp(c, minx, maxx - (gapmaxx - gapminx), w);
    if x > gapminx {
      x := x + (gapmaxx - gapminx);
    }
  }

  /** The corner tests on y for the chosen x, as reassignments of `miny`
      and `maxy`. */
  method TightenYSteps(x: int, minx: int, maxx: int, miny0: int, maxy0: int,
                       ll: Sample, lr: Sample, ul: Sample, ur: Sample) returns (miny: int, maxy: int)
    ensures Rect(minx, maxx, miny, maxy) == TightenY(Rect(minx, maxx, miny0, maxy0), x, ll, lr, ul, ur)
  {
    miny, maxy := miny0, maxy0;
    if x < ll.x {
      miny := Max(miny, ll.y);
    }
    if x > lr.x {
      miny := Max(miny, lr.y);
    }
    if x < ul.x {
      maxy := Min(maxy, ul.y);
    }
    if x > ur.x {
      maxy := Min(maxy, ur.y);
    }
  }

  /** The bounds a kind 3 cell starts from are the samples its middle
      neighbours produce, so a present kind 3 sample lies between those of
      them that are present. */
  lemma EvenRowEvenColBetween(c: Config, col: int, row: int)
    ensures var r := EvenRowEvenColSample(c, col, row);
      var lm, um := EvenRowSample(c, col, row - 1), EvenRowSample(c, col, row + 1);
      var ml, mr := EvenColSample(c, col - 1, row), EvenColSample(c, col + 1, row);
      r.Valid() ==>
        (lm.Valid() ==> lm.y <= r.y) && (um.Valid() ==> r.y <= um.y) &&
        (ml.Valid() ==> ml.x <= r.x) && (mr.Valid() ==> r.x <= mr.x)
  {
    var r := EvenRowEvenColSample(c, col, row);
    var f := Frame(c, col, row);
    assert f.xmin == (if EvenColSample(c, col - 1, row).Valid() then EvenColSample(c, col - 1, row).x else 0);
    assert f.xmax == (if EvenColSample(c, col + 1, row).Valid() then EvenColSample(c, col + 1, row).x else CellSize(c) - 1);
    assert f.ymin == (if EvenRowSample(c, col, row - 1).Valid() then EvenRowSample(c, col, row - 1).y else 0);
    assert f.ymax == (if EvenRowSample(c, col, row + 1).Valid() then EvenRowSample(c, col, row + 1).y else CellSize(c) - 1);
  }

  // ---------------------------------------------------------------- indexer

  /** The local sample of a cell, by its kind: always inside the cell. */
  function Resolve(c: Config, col: int, row: int): (s: Sample)
    ensures Kind(col, row) == 0 ==> s.Valid()
    ensures Kind(col, row) >= 1 ==> s.value <= 1
    ensures InCell(c, s.x, s.y)
  {
    match Kind(col, row)
    case 0 => Candidate(c, col, row)
    case 1 => EvenRowSample(c, col, row)
    case 2 => EvenColSample(c, col, row)
    case 3 => EvenRowEvenColSample(c, col, row)
  }

  /** The indexer: the local sample of the cell holding `(x, y)`, moved by
      the cell's origin. Present or not, the result lies in that cell, and
      neither coordinate leaves the `int` range. */
  function SampleAt(c: Config, x: I32, y: I32): (s: Sample)
    ensures CellOf(c, s.x) == CellOf(c, x) && CellOf(c, s.y) == CellOf(c, y)
    ensures Kind(CellOf(c, x), CellOf(c, y)) == 0 ==> s.Valid()
    ensures Kind(CellOf(c, x), CellOf(c, y)) >= 1 ==> s.value <= 1
    ensures -TWO31 <= s.x < TWO31 && -TWO31 <= s.y < TWO31
  {
    var col, row := CellOf(c, x), CellOf(c, y);
    var local := Resolve(c, col, row);
    OriginHolds(c, x);
    OriginHolds(c, y);
    OffsetStaysInCell(c, col, local.x);
    OffsetStaysInCell(c, row, local.y);
    local.(x := local.x + Origin(c, col), y := local.y + Origin(c, row))
  }

  /** The indexer, step by step. */
  method Get(c: Config, x: I32, y: I32) returns (sample: Sample)
    ensures sample == SampleAt(c, x, y)
  {
    var cellSize := Pow2(c.bits);
    var col := x / cellSize;
    var row := y / cellSize;
    var x0 := col * cellSize;
    var y0 := row * cellSize;
    ParityIsAnd(col);
    ParityIsAnd(row);
    if And32(row, 1) == 0 && And32(col, 1) == 0 {
      sample := GenerateCandidate(c, col, row);
    } else if And32(row, 1) == 0 && And32(col, 1) == 1 {
      sample := EvenRowSample(c, col, row);
    } else if And32(row, 1) == 1 && And32(col, 1) == 0 {
      sample := EvenColSample(c, col, row);
    } else {
      sample := GetEvenRowEvenColSample(c, col, row);
    }
    sample := sample.(x := sample.x + x0);
    sample := sample.(y := sample.y + y0);
  }
}

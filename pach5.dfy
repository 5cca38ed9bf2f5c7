/** The Pach5 sampler. Cells are labelled by row and column parity: kind 0
    cells always hold their candidate; kind 1 cells fit theirs between the
    two kind 0 neighbours on the row; kind 2 cells place theirs in a
    rectangle bounded by the kind 0 cells above and below and carved by the
    four diagonal kind 1 cells; kind 3 cells use the kind 1 and kind 2 cells
    around them as bounds and carve around the four diagonal kind 0 cells.
    Positions inside a cell are local, `[0, cellSize)` on each axis, until
    the indexer adds the cell's origin. */
module Pach5 {
  import opened Numeric
  import opened Samples
  import opened Rects
  import opened OverlapCalculator
  import opened Cells

  // ---------------------------------------------------------------- kind 1

  /** A kind 1 cell between `sleft` and `sright`: nothing when they are out
      of order, otherwise the cell's candidate with its x offset mapped into
      `[sleft.x, sright.x]`. */
  function Cell1With(c: Config, cellx: int, celly: int, sleft: Sample, sright: Sample): (r: Sample)
    ensures r.Valid() <==> sleft.x <= sright.x
    ensures !r.Valid() ==> r == NoSample
    ensures r.Valid() ==> sleft.x <= r.x <= sright.x
    ensures r.Valid() ==> r.y == Candidate(c, cellx, celly).y && r.value == Candidate(c, cellx, celly).value
    ensures InCell(c, sleft.x, sleft.y) && InCell(c, sright.x, sright.y) ==> InCell(c, r.x, r.y)
  {
    if sleft.x > sright.x then NoSample
    else
      var result := Candidate(c, cellx, celly);
      LerpBounds(c, sleft.x, sright.x, result.x);
      result.(x := Lerp(c, sleft.x, sright.x, result.x))
  }

  /** The four-argument `GetCell1`, overwriting the candidate's x in place. */
  method GetCell1With(c: Config, cellx: int, celly: int, sleft: Sample, sright: Sample) returns (result: Sample)
    ensures result == Cell1With(c, cellx, celly, sleft, sright)
  {
    if sleft.x > sright.x {
      return NoSample;
    }
    result := GenerateCandidate(c, cellx, celly);
    result := result.(x := Lerp(c, sleft.x, sright.x, result.x));
  }

  /** A kind 1 cell between the candidates of its left and right neighbours. */
  function Cell1(c: Config, cellx: int, celly: int): (r: Sample)
    ensures r.Valid() <==> Candidate(c, cellx - 1, celly).x <= Candidate(c, cellx + 1, celly).x
    ensures !r.Valid() ==> r == NoSample
    ensures r.Valid() ==> Candidate(c, cellx - 1, celly).x <= r.x <= Candidate(c, cellx + 1, celly).x
    ensures InCell(c, r.x, r.y)
  {
    Cell1With(c, cellx, celly, Candidate(c, cellx - 1, celly), Candidate(c, cellx + 1, celly))
  }

  /** The two-argument `GetCell1`. */
  method GetCell1(c: Config, cellx: int, celly: int) returns (s: Sample)
    ensures s == Cell1(c, cellx, celly)
  {
    var s0 := GenerateCandidate(c, cellx - 1, celly);
    var s1 := GenerateCandidate(c, cellx + 1, celly);
    s := GetCell1With(c, cellx, celly, s0, s1);
  }

  // ---------------------------------------------------------------- placement

  /** The sample placed in a non-empty rectangle: the cell's candidate mapped
      into the rectangle on both axes, with value 1. */
  function Place(c: Config, cellx: int, celly: int, rect: Rect): (s: Sample)
    ensures s.value == 1
    ensures rect.Valid() ==> rect.Contains(s.x, s.y)
  {
    var rnd := Candidate(c, cellx, celly);
    var s := Sample(Lerp(c, rect.xmin, rect.xmax, rnd.x), Lerp(c, rect.ymin, rect.ymax, rnd.y), 1);
    assert rect.Valid() ==> rect.Contains(s.x, s.y) by {
      if rect.Valid() {
        LerpBounds(c, rect.xmin, rect.xmax, rnd.x);
        LerpBounds(c, rect.ymin, rect.ymax, rnd.y);
      }
    }
    s
  }

  // ---------------------------------------------------------------- kind 2

  /** The kind 2 placement rectangle: the full width of the cell, and the
      rows from the sample below to the sample above. */
  function Base2(c: Config, lm: Sample, um: Sample): Rect {
    Rect(0, CellSize(c) - 1, lm.y, um.y)
  }

  /** The eight-argument `GetCell2`: place the candidate in the base
      rectangle carved around the four diagonal samples, or nothing when
      no space is left. */
  function Cell2With(c: Config, cellx: int, celly: int,
                     ll: Sample, lm: Sample, lr: Sample, ul: Sample, um: Sample, ur: Sample): (r: Sample)
    ensures r.Valid() <==> lm.y <= um.y && CutOut(ll, lr, ul, ur, Base2(c, lm, um)).Valid()
    ensures !r.Valid() ==> r == NoSample
    ensures r.Valid() ==> r.value == 1 && CutOut(ll, lr, ul, ur, Base2(c, lm, um)).Contains(r.x, r.y)
    ensures r.Valid() ==> 0 <= r.x < CellSize(c) && lm.y <= r.y <= um.y
    ensures r.Valid() ==> AvoidsCorners(r, ll, lr, ul, ur)
    ensures InCell(c, lm.x, lm.y) && InCell(c, um.x, um.y) ==> InCell(c, r.x, r.y)
  {
    var baseRect := Base2(c, lm, um);
    if !baseRect.Valid() then NoSample
    else
      var rect := CutOut(ll, lr, ul, ur, baseRect);
      if rect.Valid() then
        PlaceAvoids(c, cellx, celly, rect, baseRect, ll, lr, ul, ur);
        Place(c, cellx, celly, rect)
      else NoSample
  }

  /** A sample placed in the carved rectangle lies in it and avoids every
      corner the carving went around. */
  lemma PlaceAvoids(c: Config, cellx: int, celly: int, rect: Rect, baseRect: Rect,
                    ll: Sample, lr: Sample, ul: Sample, ur: Sample)
    requires rect == CutOut(ll, lr, ul, ur, baseRect)
    requires rect.Valid()
    ensures rect.Contains(Place(c, cellx, celly, rect).x, Place(c, cellx, celly, rect).y)
    ensures AvoidsCorners(Place(c, cellx, celly, rect), ll, lr, ul, ur)
  {
    var s := Place(c, cellx, celly, rect);
    assert rect.Contains(s.x, s.y);
  }

  /** `GetCell2`: nothing when the kind 0 samples above and below are out of
      order, otherwise the eight-argument form with the four diagonal kind 1
      samples. */
  function Cell2(c: Config, cellx: int, celly: int): (r: Sample)
    ensures Candidate(c, cellx, celly - 1).y > Candidate(c, cellx, celly + 1).y ==> r == NoSample
    ensures !r.Valid() ==> r == NoSample
    ensures r.Valid() ==> r.value == 1 && InCell(c, r.x, r.y)
    ensures r.Valid() ==> Candidate(c, cellx, celly - 1).y <= r.y <= Candidate(c, cellx, celly + 1).y
  {
    var lm := Candidate(c, cellx, celly - 1);
    var um := Candidate(c, cellx, celly + 1);
    if lm.y > um.y then NoSample
    else
      var ll := Cell1With(c, cellx - 1, celly - 1, Candidate(c, cellx - 2, celly - 1), lm);
      var lr := Cell1With(c, cellx + 1, celly - 1, lm, Candidate(c, cellx + 2, celly - 1));
      var ul := Cell1With(c, cellx - 1, celly + 1, Candidate(c, cellx - 2, celly + 1), um);
      var ur := Cell1With(c, cellx + 1, celly + 1, um, Candidate(c, cellx + 2, celly + 1));
      Cell2With(c, cellx, celly, ll, lm, lr, ul, um, ur)
  }

  /** The samples a kind 2 cell works around are the ones its neighbours
      produce: the kind 0 candidates above and below and the kind 1 results
      on the four diagonals. */
  lemma Cell2Neighbours(c: Config, cellx: int, celly: int)
    ensures Candidate(c, cellx, celly - 1).y <= Candidate(c, cellx, celly + 1).y ==>
      Cell2(c, cellx, celly) == Cell2With(c, cellx, celly,
        Cell1(c, cellx - 1, celly - 1), Candidate(c, cellx, celly - 1), Cell1(c, cellx + 1, celly - 1),
        Cell1(c, cellx - 1, celly + 1), Candidate(c, cellx, celly + 1), Cell1(c, cellx + 1, celly + 1))
  {
  }

  /** A present kind 2 sample avoids the quadrants of the four diagonal
      kind 1 samples. */
  lemma Cell2AvoidsDiagonals(c: Config, cellx: int, celly: int)
    ensures Cell2(c, cellx, celly).Valid() ==>
      AvoidsCorners(Cell2(c, cellx, celly),
        Cell1(c, cellx - 1, celly - 1), Cell1(c, cellx + 1, celly - 1),
        Cell1(c, cellx - 1, celly + 1), Cell1(c, cellx + 1, celly + 1))
  {
    Cell2Neighbours(c, cellx, celly);
  }

  // ---------------------------------------------------------------- kind 3

  /** The kind 2 sample on the left, computed only when the kind 0 samples
      on its column are in order. */
  function MiddleLeft(c: Config, cellx: int, celly: int): (r: Sample)
    ensures Candidate(c, cellx - 1, celly - 1).y > Candidate(c, cellx - 1, celly + 1).y ==> r == NoSample
  {
    var ll := Candidate(c, cellx - 1, celly - 1);
    var lr := Candidate(c, cellx + 1, celly - 1);
    var ul := Candidate(c, cellx - 1, celly + 1);
    var ur := Candidate(c, cellx + 1, celly + 1);
    var lm := Cell1With(c, cellx, celly - 1, ll, lr);
    var um := Cell1With(c, cellx, celly + 1, ul, ur);
    if ll.y <= ul.y || !ll.Valid() || !ul.Valid() then
      var ll2 := Cell1With(c, cellx - 2, celly - 1, Candidate(c, cellx - 3, celly - 1), ll);
      var ul2 := Cell1With(c, cellx - 2, celly + 1, Candidate(c, cellx - 3, celly + 1), ul);
      Cell2With(c, cellx - 1, celly, ll2, ll, lm, ul2, ul, um)
    else NoSample
  }

  /** The kind 2 sample on the right, computed only when the kind 0 samples
      on its column are in order. */
  function MiddleRight(c: Config, cellx: int, celly: int): (r: Sample)
    ensures Candidate(c, cellx + 1, celly - 1).y > Candidate(c, cellx + 1, celly + 1).y ==> r == NoSample
  {
    var ll := Candidate(c, cellx - 1, celly - 1);
    var lr := Candidate(c, cellx + 1, celly - 1);
    var ul := Candidate(c, cellx - 1, celly + 1);
    var ur := Candidate(c, cellx + 1, celly + 1);
    var lm := Cell1With(c, cellx, celly - 1, ll, lr);
    var um := Cell1With(c, cellx, celly + 1, ul, ur);
    if lr.y <= ur.y || !lr.Valid() || !ur.Valid() then
      var lr2 := Cell1With(c, cellx + 2, celly - 1, lr, Candidate(c, cellx + 3, celly - 1));
      var ur2 := Cell1With(c, cellx + 2, celly + 1, ur, Candidate(c, cellx + 3, celly + 1));
      Cell2With(c, cellx + 1, celly, lm, lr, lr2, um, ur, ur2)
    else NoSample
  }

  /** The kind 3 placement rectangle: bounded by the kind 2 samples on the
      left and right and the kind 1 samples below and above, falling back
      to the cell's edge where a neighbour is absent. */
  function Base3(c: Config, cellx: int, celly: int): (r: Rect)
    ensures Within(r, CellRect(c))
  {
    var ml := MiddleLeft(c, cellx, celly);
    var mr := MiddleRight(c, cellx, celly);
    var lm := Cell1(c, cellx, celly - 1);
    var um := Cell1(c, cellx, celly + 1);
    Rect(if ml.Valid() then ml.x else 0, if mr.Valid() then mr.x else CellSize(c) - 1,
         if lm.Valid() then lm.y else 0, if um.Valid() then um.y else CellSize(c) - 1)
  }

  /** `GetCell3`: nothing when the kind 1 samples below and above are both
      present and out of order, otherwise the candidate placed in the base
      rectangle carved around the four diagonal kind 0 candidates. */
  function Cell3(c: Config, cellx: int, celly: int): (r: Sample)
    ensures (Cell1(c, cellx, celly - 1).Valid() && Cell1(c, cellx, celly + 1).Valid() &&
             Cell1(c, cellx, celly - 1).y > Cell1(c, cellx, celly + 1).y) ==> r == NoSample
    ensures !r.Valid() ==> r == NoSample
    ensures r.Valid() ==> r.value == 1 && InCell(c, r.x, r.y)
    ensures r.Valid() ==> CutOut(Candidate(c, cellx - 1, celly - 1), Candidate(c, cellx + 1, celly - 1),
      Candidate(c, cellx - 1, celly + 1), Candidate(c, cellx + 1, celly + 1), Base3(c, cellx, celly)).Contains(r.x, r.y)
    ensures r.Valid() ==> AvoidsCorners(r, Candidate(c, cellx - 1, celly - 1), Candidate(c, cellx + 1, celly - 1),
      Candidate(c, cellx - 1, celly + 1), Candidate(c, cellx + 1, celly + 1))
  {
    var ll := Candidate(c, cellx - 1, celly - 1);
    var lr := Candidate(c, cellx + 1, celly - 1);
    var ul := Candidate(c, cellx - 1, celly + 1);
    var ur := Candidate(c, cellx + 1, celly + 1);
    var lm := Cell1With(c, cellx, celly - 1, ll, lr);
    var um := Cell1With(c, cellx, celly + 1, ul, ur);
    if lm.y > um.y && lm.Valid() && um.Valid() then NoSample
    else
      var baseRect := Base3(c, cellx, celly);
      var rect := CutOut(ll, lr, ul, ur, baseRect);
      if rect.Valid() then
        PlaceAvoids(c, cellx, celly, rect, baseRect, ll, lr, ul, ur);
        WithinPoints(rect, baseRect);
        Place(c, cellx, celly, rect)
      else NoSample
  }

  /** The samples a kind 3 cell works around are the ones its neighbours
      produce: the kind 1 results below and above and the kind 2 results on
      the left and right, the latter skipped exactly when that neighbour
      would have produced nothing anyway. */
  lemma Cell3Neighbours(c: Config, cellx: int, celly: int)
    ensures MiddleLeft(c, cellx, celly) == Cell2(c, cellx - 1, celly)
    ensures MiddleRight(c, cellx, celly) == Cell2(c, cellx + 1, celly)
  {
    var ll := Candidate(c, cellx - 1, celly - 1);
    var lr := Candidate(c, cellx + 1, celly - 1);
    var ul := Candidate(c, cellx - 1, celly + 1);
    var ur := Candidate(c, cellx + 1, celly + 1);
    assert Cell1With(c, cellx, celly - 1, ll, lr) == Cell1(c, cellx, celly - 1);
    assert Cell1With(c, cellx, celly + 1, ul, ur) == Cell1(c, cellx, celly + 1);
  }

  /** A present kind 3 sample lies between the present kind 1 samples below
      and above and the present kind 2 samples on the left and right. */
  lemma Cell3Between(c: Config, cellx: int, celly: int)
    ensures var r := Cell3(c, cellx, celly);
      var lm, um := Cell1(c, cellx, celly - 1), Cell1(c, cellx, celly + 1);
      var ml, mr := Cell2(c, cellx - 1, celly), Cell2(c, cellx + 1, celly);
      r.Valid() ==>
        (lm.Valid() ==> lm.y <= r.y) && (um.Valid() ==> r.y <= um.y) &&
        (ml.Valid() ==> ml.x <= r.x) && (mr.Valid() ==> r.x <= mr.x)
  {
    Cell3Neighbours(c, cellx, celly);
    var r := Cell3(c, cellx, celly);
    if r.Valid() {
      var baseRect := Base3(c, cellx, celly);
      var rect := CutOut(Candidate(c, cellx - 1, celly - 1), Candidate(c, cellx + 1, celly - 1),
        Candidate(c, cellx - 1, celly + 1), Candidate(c, cellx + 1, celly + 1), baseRect);
      WithinPoints(rect, baseRect);
      assert baseRect.Contains(r.x, r.y);
    }
  }

  // ---------------------------------------------------------------- indexer

  /** The local sample of a cell, by its kind. */
  function Resolve(c: Config, cellx: int, celly: int): (s: Sample)
    ensures Kind(cellx, celly) == 0 ==> s.Valid()
    ensures !s.Valid() ==> s == NoSample
    ensures InCell(c, s.x, s.y)
    ensures Kind(cellx, celly) >= 2 ==> s.value <= 1
  {
    match Kind(cellx, celly)
    case 0 => Candidate(c, cellx, celly)
    case 1 => Cell1(c, cellx, celly)
    case 2 => Cell2(c, cellx, celly)
    case 3 => Cell3(c, cellx, celly)
  }

  /** The indexer: the local sample of the cell holding `(x, y)`, moved by
      the cell's origin. A present sample lies in that cell; an absent one
      sits at the cell's origin; neither coordinate leaves the `int` range,
      so the additions never wrap. */
  function SampleAt(c: Config, x: I32, y: I32): (s: Sample)
    ensures s.Valid() ==> CellOf(c, s.x) == CellOf(c, x) && CellOf(c, s.y) == CellOf(c, y)
    ensures !s.Valid() ==> s == Sample(Origin(c, CellOf(c, x)), Origin(c, CellOf(c, y)), 0)
    ensures Kind(CellOf(c, x), CellOf(c, y)) == 0 ==> s.Valid()
    ensures Kind(CellOf(c, x), CellOf(c, y)) >= 2 ==> s.value <= 1
    ensures -TWO31 <= s.x < TWO31 && -TWO31 <= s.y < TWO31
  {
    var cellx, celly := CellOf(c, x), CellOf(c, y);
    var local := Resolve(c, cellx, celly);
    OriginHolds(c, x);
    OriginHolds(c, y);
    OffsetStaysInCell(c, cellx, local.x);
    OffsetStaysInCell(c, celly, local.y);
    local.(x := local.x + Origin(c, cellx), y := local.y + Origin(c, celly))
  }

  /** Every point of a cell sees the same sample. */
  lemma SameCellSameSample(c: Config, x1: I32, y1: I32, x2: I32, y2: I32)
    requires CellOf(c, x1) == CellOf(c, x2) && CellOf(c, y1) == CellOf(c, y2)
    ensures SampleAt(c, x1, y1) == SampleAt(c, x2, y2)
  {
  }

  /** The indexer, step by step: shift to the cell, dispatch on the parity
      bits, then add the origin to the local sample. */
  method Get(c: Config, x: I32, y: I32) returns (sample: Sample)
    ensures sample == SampleAt(c, x, y)
  {
    var cellSize := Pow2(c.bits);
    var cellx := x / cellSize;
    var celly := y / cellSize;
    var x0 := cellx * cellSize;
    var y0 := celly * cellSize;
    ParityIsAnd(cellx);
    ParityIsAnd(celly);
    if And32(celly, 1) == 0 && And32(cellx, 1) == 0 {
      sample := GenerateCandidate(c, cellx, celly);
    } else if And32(celly, 1) == 0 && And32(cellx, 1) == 1 {
      sample := GetCell1(c, cellx, celly);
    } else if And32(celly, 1) == 1 && And32(cellx, 1) == 0 {
      sample := Cell2(c, cellx, celly);
    } else {
      sample := Cell3(c, cellx, celly);
    }
    sample := sample.(x := sample.x + x0);
    sample := sample.(y := sample.y + y0);
  }
}

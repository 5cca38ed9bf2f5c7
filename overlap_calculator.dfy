/** Occlusion of a placement rectangle by the four diagonal neighbour
    samples, handled in the fixed order lower-left, lower-right, upper-left,
    upper-right. Each corner leaves the rectangle alone, trims one bound, or
    splits it in two and keeps the alternative of larger final area. The
    by-value `Rect` that the source assigns in place is a datatype update here. */
module OverlapCalculator {
  import opened Numeric
  import opened Samples
  import opened Rects

  // The open quadrant each corner sample claims, seen from the sample.

  predicate LowerLeftOf(s: Sample, x: int, y: int) { x < s.x && y < s.y }
  predicate LowerRightOf(s: Sample, x: int, y: int) { x > s.x && y < s.y }
  predicate UpperLeftOf(s: Sample, x: int, y: int) { x < s.x && y > s.y }
  predicate UpperRightOf(s: Sample, x: int, y: int) { x > s.x && y > s.y }

  /** No point of the sample falls in the quadrant any valid corner claims. */
  predicate AvoidsCorners(s: Sample, ll: Sample, lr: Sample, ul: Sample, ur: Sample) {
    !(ll.Valid() && LowerLeftOf(ll, s.x, s.y)) &&
    !(lr.Valid() && LowerRightOf(lr, s.x, s.y)) &&
    !(ul.Valid() && UpperLeftOf(ul, s.x, s.y)) &&
    !(ur.Valid() && UpperRightOf(ur, s.x, s.y))
  }

  /** No point of `r` lies in the quadrant a valid `s` claims. */
  ghost predicate AvoidsLowerLeft(r: Rect, s: Sample) {
    s.Valid() ==> forall x, y :: r.Contains(x, y) ==> !LowerLeftOf(s, x, y)
  }
  ghost predicate AvoidsLowerRight(r: Rect, s: Sample) {
    s.Valid() ==> forall x, y :: r.Contains(x, y) ==> !LowerRightOf(s, x, y)
  }
  ghost predicate AvoidsUpperLeft(r: Rect, s: Sample) {
    s.Valid() ==> forall x, y :: r.Contains(x, y) ==> !UpperLeftOf(s, x, y)
  }
  ghost predicate AvoidsUpperRight(r: Rect, s: Sample) {
    s.Valid() ==> forall x, y :: r.Contains(x, y) ==> !UpperRightOf(s, x, y)
  }

  // The same conditions stated on the bounds; these survive any further
  // shrinking of the rectangle.

  predicate ClearLL(r: Rect, s: Sample) { !s.Valid() || !r.Valid() || s.x <= r.xmin || s.y <= r.ymin }
  predicate ClearLR(r: Rect, s: Sample) { !s.Valid() || !r.Valid() || s.x >= r.xmax || s.y <= r.ymin }
  predicate ClearUL(r: Rect, s: Sample) { !s.Valid() || !r.Valid() || s.x <= r.xmin || s.y >= r.ymax }
  predicate ClearUR(r: Rect, s: Sample) { !s.Valid() || !r.Valid() || s.x >= r.xmax || s.y >= r.ymax }

  /** The bound form and the point form say the same thing, for each corner. */
  lemma ClearIffAvoids(r: Rect, s: Sample)
    ensures ClearLL(r, s) <==> AvoidsLowerLeft(r, s)
    ensures ClearLR(r, s) <==> AvoidsLowerRight(r, s)
    ensures ClearUL(r, s) <==> AvoidsUpperLeft(r, s)
    ensures ClearUR(r, s) <==> AvoidsUpperRight(r, s)
  {
    if s.Valid() && r.Valid() {
      assert r.Contains(r.xmin, r.ymin) && r.Contains(r.xmax, r.ymin);
      assert r.Contains(r.xmin, r.ymax) && r.Contains(r.xmax, r.ymax);
    }
  }

  /** Shrinking a rectangle keeps it clear of every corner it was clear of. */
  lemma ClearWithin(inner: Rect, outer: Rect, s: Sample)
    requires Within(inner, outer)
    ensures ClearLL(outer, s) ==> ClearLL(inner, s)
    ensures ClearLR(outer, s) ==> ClearLR(inner, s)
    ensures ClearUL(outer, s) ==> ClearUL(inner, s)
    ensures ClearUR(outer, s) ==> ClearUR(inner, s)
  {
  }

  /** Of two alternatives, the one of strictly larger area; a tie keeps the first. */
  function Larger(first: Rect, second: Rect): (r: Rect)
    ensures r == first || r == second
    ensures r.Area() >= first.Area() && r.Area() >= second.Area()
    ensures second.Area() <= first.Area() ==> r == first
  {
    if second.Area() > first.Area() then second else first
  }

  /** Carves the rectangle `r` around the four diagonal samples; the result
      lies within `r`, is never larger, and no point of it falls in the
      quadrant any valid corner sample claims. */
  function CutOut(ll: Sample, lr: Sample, ul: Sample, ur: Sample, r: Rect): (res: Rect)
    ensures Within(res, r)
    ensures !r.Valid() ==> !res.Valid()
    ensures res.Points() <= r.Points()
    ensures AvoidsLowerLeft(res, ll) && AvoidsLowerRight(res, lr)
    ensures AvoidsUpperLeft(res, ul) && AvoidsUpperRight(res, ur)
    ensures !ll.Valid() || ll.x <= r.xmin || ll.y <= r.ymin ==> res == OcludeLR(lr, ul, ur, r)
  {
    var res :=
      if !ll.Valid() then OcludeLR(lr, ul, ur, r)
      else if ll.x <= r.xmin || ll.y <= r.ymin then OcludeLR(lr, ul, ur, r)
      else if ll.y > r.ymax then OcludeLR(lr, ul, ur, r.(xmin := ll.x))
      else if ll.x > r.xmax then OcludeLR(lr, ul, ur, r.(ymin := ll.y))
      else
        var left := r.CutLeft(ll.x).(ymin := ll.y);
        var result := OcludeLR(lr, ul, ur, left);
        var right := r.CutRight(ll.x);
        var rightResult := OcludeLR(lr, ul, ur, right);
        Larger(result, rightResult);
    assert ClearLL(res, ll);
    ClearIffAvoids(res, ll);
    ClearIffAvoids(res, lr);
    ClearIffAvoids(res, ul);
    ClearIffAvoids(res, ur);
    if res.Valid() then AreaMonotone(res, r); res else res
  }

  /** The lower-right step: returns an empty rectangle unchanged. */
  function OcludeLR(lr: Sample, ul: Sample, ur: Sample, r: Rect): (res: Rect)
    ensures Within(res, r)
    ensures !r.Valid() ==> res == r
    ensures ClearLR(res, lr) && ClearUL(res, ul) && ClearUR(res, ur)
    ensures forall s :: ClearLL(r, s) ==> ClearLL(res, s)
    ensures r.Valid() && (!lr.Valid() || lr.x >= r.xmax || lr.y <= r.ymin) ==> res == OcludeUL(ul, ur, r)
  {
    var res :=
      if !r.Valid() then r
      else if !lr.Valid() then OcludeUL(ul, ur, r)
      else if lr.x >= r.xmax || lr.y <= r.ymin then OcludeUL(ul, ur, r)
      else if lr.y > r.ymax then OcludeUL(ul, ur, r.(xmax := lr.x))
      else if lr.x < r.xmin then OcludeUL(ul, ur, r.(ymin := lr.y))
      else
        var right := r.CutRight(lr.x).(ymin := lr.y);
        var result := OcludeUL(ul, ur, right);
        var left := r.CutLeft(lr.x);
        var leftResult := OcludeUL(ul, ur, left);
        Larger(result, leftResult);
    assert forall s :: ClearLL(r, s) ==> ClearLL(res, s) by {
      forall s | ClearLL(r, s) ensures ClearLL(res, s) { ClearWithin(res, r, s); }
    }
    res
  }

  /** The upper-left step: returns an empty rectangle unchanged. */
  function OcludeUL(ul: Sample, ur: Sample, r: Rect): (res: Rect)
    ensures Within(res, r)
    ensures !r.Valid() ==> res == r
    ensures ClearUL(res, ul) && ClearUR(res, ur)
    ensures forall s :: ClearLL(r, s) ==> ClearLL(res, s)
    ensures forall s :: ClearLR(r, s) ==> ClearLR(res, s)
    ensures r.Valid() && (!ul.Valid() || ul.x <= r.xmin || ul.y >= r.ymax) ==> res == OcludeUR(ur, r)
  {
    var res :=
      if !r.Valid() then r
      else if !ul.Valid() then OcludeUR(ur, r)
      else if ul.x <= r.xmin || ul.y >= r.ymax then OcludeUR(ur, r)
      else if ul.y < r.ymin then OcludeUR(ur, r.(xmin := ul.x))
      else if ul.x > r.xmax then OcludeUR(ur, r.(ymax := ul.y))
      else
        var left := r.CutLeft(ul.x).(ymax := ul.y);
        var result := OcludeUR(ur, left);
        var right := r.CutRight(ul.x);
        var rightResult := OcludeUR(ur, right);
        Larger(result, rightResult);
    assert forall s :: ClearLL(r, s) ==> ClearLL(res, s) by {
      forall s | ClearLL(r, s) ensures ClearLL(res, s) { ClearWithin(res, r, s); }
    }
    assert forall s :: ClearLR(r, s) ==> ClearLR(res, s) by {
      forall s | ClearLR(r, s) ensures ClearLR(res, s) { ClearWithin(res, r, s); }
    }
    res
  }

  /** The upper-right step, the last one: returns an empty rectangle unchanged. */
  function OcludeUR(ur: Sample, r: Rect): (res: Rect)
    ensures Within(res, r)
    ensures !r.Valid() ==> res == r
    ensures ClearUR(res, ur)
    ensures forall s :: ClearLL(r, s) ==> ClearLL(res, s)
    ensures forall s :: ClearLR(r, s) ==> ClearLR(res, s)
    ensures forall s :: ClearUL(r, s) ==> ClearUL(res, s)
    ensures !ur.Valid() || ur.x >= r.xmax || ur.y >= r.ymax ==> res == r
  {
    var res :=
      if !r.Valid() then r
      else if !ur.Valid() then r
      else if ur.x >= r.xmax || ur.y >= r.ymax then r
      else if ur.y < r.ymin then r.(xmax := ur.x)
      else if ur.x < r.xmin then r.(ymax := ur.y)
      else
        var result := r.CutRight(ur.x).(ymax := ur.y);
        var leftResult := r.CutLeft(ur.x);
        Larger(result, leftResult);
    assert forall s :: ClearLL(r, s) ==> ClearLL(res, s) by {
      forall s | ClearLL(r, s) ensures ClearLL(res, s) { ClearWithin(res, r, s); }
    }
    assert forall s :: ClearLR(r, s) ==> ClearLR(res, s) by {
      forall s | ClearLR(r, s) ensures ClearLR(res, s) { ClearWithin(res, r, s); }
    }
    assert forall s :: ClearUL(r, s) ==> ClearUL(res, s) by {
      forall s | ClearUL(r, s) ensures ClearUL(res, s) { ClearWithin(res, r, s); }
    }
    res
  }

  /** The split compares 32-bit areas, so on a rectangle too large for them
      it can keep the smaller half: here the right half covers 4294901760
      points, whose `Area` wraps to -65536, and the left half of 131070
      points is kept. */
  lemma WrappedAreaKeepsLeft()
    ensures CutOut(Sample(1, 1, 1), NoSample, NoSample, NoSample, Rect(0, 0xFFFF, 0, 0xFFFF)) == Rect(0, 1, 1, 0xFFFF)
    ensures Rect(1, 0xFFFF, 0, 0xFFFF).Points() > Rect(0, 1, 1, 0xFFFF).Points()
  {
    var left, right := Rect(0, 1, 1, 0xFFFF), Rect(1, 0xFFFF, 0, 0xFFFF);
    assert right.Area() == -65536 by {
      assert right.Points() == 4294901760;
      assert ToUInt32(4294901760) == 4294901760;
    }
    assert left.Area() == 131070 by {
      assert left.Points() == 131070;
    }
  }

  /** With no corner sample present the rectangle comes back unchanged. */
  lemma NoSamplesNoCut(r: Rect)
    ensures CutOut(NoSample, NoSample, NoSample, NoSample, r) == r
  {
  }

  /** A corner sample that is absent or on or beyond the rectangle's near
      edges has no effect: the result is as if that corner were absent. */
  lemma InertCorners(ll: Sample, lr: Sample, ul: Sample, ur: Sample, r: Rect)
    ensures !ll.Valid() || ll.x <= r.xmin || ll.y <= r.ymin ==>
      CutOut(ll, lr, ul, ur, r) == CutOut(NoSample, lr, ul, ur, r)
    ensures !lr.Valid() || lr.x >= r.xmax || lr.y <= r.ymin ==>
      CutOut(NoSample, lr, ul, ur, r) == CutOut(NoSample, NoSample, ul, ur, r)
    ensures !ul.Valid() || ul.x <= r.xmin || ul.y >= r.ymax ==>
      CutOut(NoSample, NoSample, ul, ur, r) == CutOut(NoSample, NoSample, NoSample, ur, r)
    ensures !ur.Valid() || ur.x >= r.xmax || ur.y >= r.ymax ==>
      CutOut(NoSample, NoSample, NoSample, ur, r) == r
  {
  }
}

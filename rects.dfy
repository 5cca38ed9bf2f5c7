/** Inclusive integer rectangles `[xmin, xmax] x [ymin, ymax]`. */
module Rects {
  import opened Numeric

  datatype Rect = Rect(xmin: int, xmax: int, ymin: int, ymax: int) {

    /** Non-empty: both intervals hold at least one integer. */
    predicate Valid() {
      xmax >= xmin && ymax >= ymin
    }

    /** The point `(x, y)` lies in the rectangle. */
    predicate Contains(x: int, y: int) {
      xmin <= x <= xmax && ymin <= y <= ymax
    }

    /** The number of lattice points covered, 0 for an empty rectangle: the
        area in exact arithmetic. */
    function Points(): (n: nat)
      ensures Valid() <==> n >= 1
      ensures Valid() ==> Contains(xmin, ymin) && Contains(xmax, ymax)
    {
      if Valid() then
        var w, h := xmax - xmin + 1, ymax - ymin + 1;
        assert w * h >= 1 by { AtLeastOne(w, h); }
        w * h
      else 0
    }

    /** `Area`: the point count as C#'s unchecked `int` product, or the
        sentinel -1 for an empty rectangle. Wrapping each subtraction,
        addition and the product, or only the final result, keeps the same
        low 32 bits, so the product is wrapped once. It is the exact count
        below 2^31 points and wraps from there on. */
    function Area(): (a: I32)
      ensures !Valid() <==> a == -1 && Points() == 0
      ensures Valid() ==> ToUInt32(a) == ToUInt32(Points())
      ensures Points() < TWO31 ==> (Valid() ==> a == Points()) && (Valid() <==> a >= 1)
    {
      if Valid() then
        var n := (xmax - xmin + 1) * (ymax - ymin + 1);
        assert n == Points();
        ToInt32Wraps(n);
        assert n < TWO31 ==> ToInt32(n) == n by {
          if n < TWO31 { ToInt32Id(n); }
        }
        ToInt32(n)
      else -1
    }

    /** The part of the rectangle at or left of column `x`. */
    function CutLeft(x: int): (r: Rect)
      ensures Within(r, this)
      ensures r.xmin == xmin && r.ymin == ymin && r.ymax == ymax
      ensures forall px, py :: r.Contains(px, py) <==> Contains(px, py) && px <= x
    {
      Rect(xmin, if x < xmax then x else xmax, ymin, ymax)
    }

    /** The rectangle with its left edge moved to column `x` (not clamped to `xmin`). */
    function CutRight(x: int): (r: Rect)
      ensures r.xmin == x && r.xmax == xmax && r.ymin == ymin && r.ymax == ymax
      ensures x >= xmin ==> Within(r, this)
      ensures x >= xmin ==> forall px, py :: r.Contains(px, py) <==> Contains(px, py) && px >= x
      ensures x < xmin && Valid() ==> r.Contains(x, ymin) && !Contains(x, ymin)
    {
      Rect(x, xmax, ymin, ymax)
    }
  }

  /** `inner`'s bounds lie within `outer`'s, edge by edge. */
  predicate Within(inner: Rect, outer: Rect) {
    inner.xmin >= outer.xmin && inner.xmax <= outer.xmax &&
    inner.ymin >= outer.ymin && inner.ymax <= outer.ymax
  }

  lemma AtLeastOne(w: int, h: int)
    requires w >= 1 && h >= 1
    ensures w * h >= 1
  {
    assert w * h == w * (h - 1) + w;
    assert w * (h - 1) >= 0;
  }

  /** Validity is non-emptiness as a point set. */
  lemma ValidIffNonEmpty(r: Rect)
    ensures r.Valid() <==> exists x, y :: r.Contains(x, y)
  {
    if r.Valid() {
      assert r.Contains(r.xmin, r.ymin);
    }
  }

  /** Nested bounds mean nested point sets, and an empty rectangle has only empty sub-rectangles. */
  lemma WithinPoints(inner: Rect, outer: Rect)
    requires Within(inner, outer)
    ensures forall x, y :: inner.Contains(x, y) ==> outer.Contains(x, y)
    ensures !outer.Valid() ==> !inner.Valid()
  {
  }

  /** A valid sub-rectangle never covers more points. */
  lemma AreaMonotone(inner: Rect, outer: Rect)
    requires Within(inner, outer) && inner.Valid()
    ensures inner.Points() <= outer.Points()
  {
    var w, h := inner.xmax - inner.xmin + 1, inner.ymax - inner.ymin + 1;
    var W, H := outer.xmax - outer.xmin + 1, outer.ymax - outer.ymin + 1;
    assert 1 <= w <= W && 1 <= h <= H;
    assert w * h <= W * h by {
      assert W * h - w * h == (W - w) * h;
      assert (W - w) * h >= 0;
    }
    assert W * h <= W * H by {
      assert W * H - W * h == W * (H - h);
      assert W * (H - h) >= 0;
    }
  }

  /** A square of side 2^16 covers 2^32 points, and its `Area` wraps to 0. */
  lemma LargeAreaWraps()
    ensures Rect(0, 0xFFFF, 0, 0xFFFF).Valid()
    ensures Rect(0, 0xFFFF, 0, 0xFFFF).Points() == TWO32
    ensures Rect(0, 0xFFFF, 0, 0xFFFF).Area() == 0
  {
    assert ToUInt32(TWO32) == 0;
  }

  /** Splitting at a column inside the rectangle loses no point: every point is
      in the left part or in the right part. */
  lemma CutsCover(r: Rect, x: int)
    requires r.xmin <= x <= r.xmax
    ensures forall px, py :: r.Contains(px, py) ==> r.CutLeft(x).Contains(px, py) || r.CutRight(x).Contains(px, py)
    ensures r.CutLeft(x).Valid() && r.CutRight(x).Valid() <==> r.Valid()
  {
  }
}

/**
 * Plane geometry used by layout fusion (layout_flow.py): polygon centroids,
 * closed-box containment and box centres, over exact reals.
 */
module Geometry {

  datatype Point = Point(x: real, y: real)

  /** A detector box `[x1, y1, x2, y2]`. */
  datatype BBox = BBox(x1: real, y1: real, x2: real, y2: real)

  /** Left-to-right sum of the x coordinates, as Python's `sum(xs)`. */
  function SumX(poly: seq<Point>): real
  {
    if poly == [] then 0.0 else SumX(poly[..|poly| - 1]) + poly[|poly| - 1].x
  }

  function SumY(poly: seq<Point>): real
  {
    if poly == [] then 0.0 else SumY(poly[..|poly| - 1]) + poly[|poly| - 1].y
  }

  /**
   * The centroid of an OCR polygon: the mean of the x coordinates and,
   * independently, the mean of the y coordinates; `(0, 0)` for an empty polygon.
   */
  function Centroid(poly: seq<Point>): (c: Point)
    ensures poly == [] ==> c == Point(0.0, 0.0)
    ensures poly != [] ==> c.x * (|poly| as real) == SumX(poly) && c.y * (|poly| as real) == SumY(poly)
  {
    if poly == [] then Point(0.0, 0.0)
    else Point(SumX(poly) / (|poly| as real), SumY(poly) / (|poly| as real))
  }

  /** Closed-interval containment on both axes: `x1 <= cx <= x2 and y1 <= cy <= y2`. */
  predicate Contains(b: BBox, p: Point)
  {
    b.x1 <= p.x <= b.x2 && b.y1 <= p.y <= b.y2
  }

  function CentreX(b: BBox): real { (b.x1 + b.x2) / 2.0 }

  function CentreY(b: BBox): real { (b.y1 + b.y2) / 2.0 }

  predicate AllInside(poly: seq<Point>, b: BBox)
  {
    forall k :: 0 <= k < |poly| ==> Contains(b, poly[k])
  }

  lemma AllInsideInit(poly: seq<Point>, b: BBox)
    requires poly != [] && AllInside(poly, b)
    ensures AllInside(poly[..|poly| - 1], b) && Contains(b, poly[|poly| - 1])
  {
    var init := poly[..|poly| - 1];
    forall k | 0 <= k < |init| ensures Contains(b, init[k]) {
      assert init[k] == poly[k];
    }
  }

  /** `(n + 1) * c` split into `n * c + c`. */
  lemma ScaleStep(n: nat, c: real)
    ensures ((n + 1) as real) * c == (n as real) * c + c
  {
  }

  /** Each x coordinate lies in `[x1, x2]`, so their sum lies in `[n * x1, n * x2]`. */
  lemma {:induction false} SumXBounded(poly: seq<Point>, b: BBox)
    requires AllInside(poly, b)
    ensures (|poly| as real) * b.x1 <= SumX(poly) <= (|poly| as real) * b.x2
  {
    if poly != [] {
      AllInsideInit(poly, b);
      SumXBounded(poly[..|poly| - 1], b);
      ScaleStep(|poly| - 1, b.x1);
      ScaleStep(|poly| - 1, b.x2);
    }
  }

  lemma {:induction false} SumYBounded(poly: seq<Point>, b: BBox)
    requires AllInside(poly, b)
    ensures (|poly| as real) * b.y1 <= SumY(poly) <= (|poly| as real) * b.y2
  {
    if poly != [] {
      AllInsideInit(poly, b);
      SumYBounded(poly[..|poly| - 1], b);
      ScaleStep(|poly| - 1, b.y1);
      ScaleStep(|poly| - 1, b.y2);
    }
  }

  /**
   * A non-empty polygon lying wholly inside a box has its centroid inside that
   * box, so the containment test sees such a text fragment as inside.
   */
  lemma CentroidInsideBox(poly: seq<Point>, b: BBox)
    requires poly != [] && AllInside(poly, b)
    ensures Contains(b, Centroid(poly))
  {
    var c := Centroid(poly);
    assert c == Point(SumX(poly) / (|poly| as real), SumY(poly) / (|poly| as real));
    SumXBounded(poly, b);
    CentroidAxis(b.x1, SumX(poly), b.x2, |poly|);
    assert b.x1 <= c.x <= b.x2;
    SumYBounded(poly, b);
    CentroidAxis(b.y1, SumY(poly), b.y2, |poly|);
    assert b.y1 <= c.y <= b.y2;
  }

  lemma CentroidAxis(lo: real, s: real, hi: real, count: nat)
    requires count > 0 && (count as real) * lo <= s <= (count as real) * hi
    ensures lo <= s / (count as real) <= hi
  {
    MeanBounds(lo, s, hi, count as real);
  }

  lemma MeanBounds(lo: real, s: real, hi: real, n: real)
    requires n > 0.0 && n * lo <= s <= n * hi
    ensures lo <= s / n <= hi
  {
    var m := s / n;
    assert m * n == s;
    if m < lo {
      MultiplyLess(m, lo, n);
    }
    if m > hi {
      MultiplyLess(hi, m, n);
    }
  }

  lemma MultiplyLess(a: real, b: real, n: real)
    requires n > 0.0 && a < b
    ensures a * n < b * n
  {
  }
}

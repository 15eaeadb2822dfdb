/** Box geometry of utils.py: centre-to-corner conversion (`whToxy`) and the
    corner-form intersection-over-union (`iou`), over exact reals. */
module Geometry {

  /** Four numbers `box[..., 0..3]`. Whether they are a centre form
      (cx, cy, w, h), its axis-swapped variant, or a corner form
      (x1, y1, x2, y2) depends on where the box comes from. */
  datatype Box = Box(p0: real, p1: real, p2: real, p3: real)

  /** The two readings of a centre-form box that `whToxy` supports:
      `XFirst` is `reversed=False`, (cx, cy, w, h); `YFirst` is
      `reversed=True`, (cy, cx, h, w). */
  datatype AxisOrder = XFirst | YFirst

  /** The same box with the roles of the two axes exchanged. */
  function SwapAxes(box: Box): Box
  {
    Box(box.p1, box.p0, box.p3, box.p2)
  }

  /** `whToxy(box, reversed)`: centre form to corner form (x1, y1, x2, y2).
      The result is the box whose width, height and centre are the input's;
      the `YFirst` mode is the `XFirst` conversion of the axis-swapped box. */
  function WhToXy(box: Box, order: AxisOrder): (r: Box)
    ensures order == XFirst ==>
      && r.p2 - r.p0 == box.p2
      && r.p3 - r.p1 == box.p3
      && (r.p0 + r.p2) / 2.0 == box.p0
      && (r.p1 + r.p3) / 2.0 == box.p1
    ensures order == YFirst ==>
      && r.p2 - r.p0 == box.p3
      && r.p3 - r.p1 == box.p2
      && (r.p0 + r.p2) / 2.0 == box.p1
      && (r.p1 + r.p3) / 2.0 == box.p0
  {
    match order
    case XFirst =>
      Box(box.p0 - box.p2 / 2.0, box.p1 - box.p3 / 2.0,
          box.p0 + box.p2 / 2.0, box.p1 + box.p3 / 2.0)
    case YFirst =>
      Box(box.p1 - box.p3 / 2.0, box.p0 - box.p2 / 2.0,
          box.p1 + box.p3 / 2.0, box.p0 + box.p2 / 2.0)
  }

  /** The `YFirst` mode is the `XFirst` conversion of the axis-swapped box. */
  lemma WhToXySwapped(box: Box)
    ensures WhToXy(box, YFirst) == WhToXy(SwapAxes(box), XFirst)
  {
  }

  /** A corner-form box with x1 <= x2 and y1 <= y2. */
  predicate Ordered(b: Box)
  {
    b.p0 <= b.p2 && b.p1 <= b.p3
  }

  /** Non-negative extents give a well-ordered corner box, in both modes
      (in `YFirst` mode the width sits in field 3 and the height in field 2). */
  lemma WhToXyOrdered(box: Box, order: AxisOrder)
    requires box.p2 >= 0.0 && box.p3 >= 0.0
    ensures Ordered(WhToXy(box, order))
  {
  }

  /** The inverse conversion: corner form back to the centre form of the
      given axis order. It is the partner definition for the round trips. */
  function XyToWh(r: Box, order: AxisOrder): (box: Box)
  {
    var c := Box((r.p0 + r.p2) / 2.0, (r.p1 + r.p3) / 2.0, r.p2 - r.p0, r.p3 - r.p1);
    match order
    case XFirst => c
    case YFirst => SwapAxes(c)
  }

  /** Converting to corners and back gives the input, in both modes. */
  lemma CenterCornerRoundTrip(box: Box, order: AxisOrder)
    ensures XyToWh(WhToXy(box, order), order) == box
  {
  }

  /** Converting corners to a centre form and back gives the corners. */
  lemma CornerCenterRoundTrip(r: Box, order: AxisOrder)
    ensures WhToXy(XyToWh(r, order), order) == r
  {
  }

  /** Products of ordered non-negative factors are ordered. */
  lemma MulMonotone(a: real, b: real, c: real, d: real)
    requires 0.0 <= a <= b && 0.0 <= c <= d
    ensures a * c <= b * d
  {
    assert a * c <= b * c;
    assert b * c <= b * d;
  }

  /** A positive product has two factors of the same strict sign. */
  lemma PositiveProduct(a: real, b: real)
    ensures a * b > 0.0 <==> (a > 0.0 && b > 0.0) || (a < 0.0 && b < 0.0)
  {
    if a >= 0.0 && b <= 0.0 {
      assert a * b <= 0.0;
    } else if a <= 0.0 && b >= 0.0 {
      assert a * b <= 0.0;
    } else if a > 0.0 && b > 0.0 {
      assert a * b > 0.0;
    } else {
      assert (-a) * (-b) > 0.0;
    }
  }

  /** A positive-area box is either proper or inverted on both axes. */
  lemma PositiveAreaCases(b: Box)
    ensures PositiveArea(b) <==> Proper(b) || (b.p2 < b.p0 && b.p3 < b.p1)
  {
    PositiveProduct(b.p2 - b.p0, b.p3 - b.p1);
  }

  /** A quotient of a non-negative number by a larger one is in [0, 1]. */
  lemma FractionBounds(i: real, u: real)
    requires 0.0 <= i <= u && u > 0.0
    ensures 0.0 <= i / u <= 1.0
  {
    assert (i / u) * u == i;
  }

  lemma SelfQuotient(a: real)
    requires a > 0.0
    ensures a / a == 1.0
  {
  }

  function Max(a: real, b: real): real { if a >= b then a else b }

  function Min(a: real, b: real): real { if a <= b then a else b }

  /** `(hi - lo).clamp(min=0)` of the overlap of two intervals on one axis. */
  function Overlap(lo1: real, hi1: real, lo2: real, hi2: real): (r: real)
    ensures r >= 0.0
    ensures r <= Max(0.0, hi1 - lo1) && r <= Max(0.0, hi2 - lo2)
  {
    Max(0.0, Min(hi1, hi2) - Max(lo1, lo2))
  }

  /** Area of the intersection of two corner boxes (utils.py `ins_area`). */
  function Intersection(b1: Box, b2: Box): (r: real)
    ensures r >= 0.0
  {
    Overlap(b1.p0, b1.p2, b2.p0, b2.p2) * Overlap(b1.p1, b1.p3, b2.p1, b2.p3)
  }

  /** Area (x2 - x1) * (y2 - y1) of a corner box, as `nms` computes it. */
  function Area(b: Box): real
  {
    (b.p2 - b.p0) * (b.p3 - b.p1)
  }

  /** The check `nms` makes of every box: its area is positive. Both
      extents may be negative at once. */
  predicate PositiveArea(b: Box)
  {
    Area(b) > 0.0
  }

  /** A corner box with strictly positive extents on both axes. */
  predicate Proper(b: Box)
  {
    b.p0 < b.p2 && b.p1 < b.p3
  }

  /** The intersection of two positive-area boxes lies within each area:
      if either box is inverted its overlap on that axis is clamped to 0. */
  lemma {:induction false} IntersectionWithinAreas(b1: Box, b2: Box)
    ensures PositiveArea(b1) && PositiveArea(b2) ==>
      Intersection(b1, b2) <= Area(b1) && Intersection(b1, b2) <= Area(b2)
  {
    if !(PositiveArea(b1) && PositiveArea(b2)) {
      return;
    }
    var ox := Overlap(b1.p0, b1.p2, b2.p0, b2.p2);
    var oy := Overlap(b1.p1, b1.p3, b2.p1, b2.p3);
    assert Intersection(b1, b2) == ox * oy;
    PositiveAreaCases(b1);
    PositiveAreaCases(b2);
    if Proper(b1) && Proper(b2) {
      var w1, h1 := b1.p2 - b1.p0, b1.p3 - b1.p1;
      var w2, h2 := b2.p2 - b2.p0, b2.p3 - b2.p1;
      MulMonotone(ox, w1, oy, h1);
      MulMonotone(ox, w2, oy, h2);
    } else {
      assert ox == 0.0 || oy == 0.0;
    }
  }

  /** Negating both factors leaves a product unchanged. */
  lemma FlipProduct(a: real, b: real, c: real, d: real)
    ensures (a - b) * (c - d) == (b - a) * (d - c)
  {
    assert b - a == -(a - b) && d - c == -(c - d);
  }

  /** The intersection does not depend on the order of the two boxes. */
  lemma IntersectionSymmetric(b1: Box, b2: Box)
    ensures Intersection(b1, b2) == Intersection(b2, b1)
  {
    assert Overlap(b1.p0, b1.p2, b2.p0, b2.p2) == Overlap(b2.p0, b2.p2, b1.p0, b1.p2);
    assert Overlap(b1.p1, b1.p3, b2.p1, b2.p3) == Overlap(b2.p1, b2.p3, b1.p1, b1.p3);
  }

  /** `uni_area` of `iou`: the two products (x1 - x2) * (y1 - y2) summed,
      minus the intersection. It equals the usual union of the two areas,
      and for positive-area boxes it is at least as large as either area. */
  function Union(b1: Box, b2: Box): (u: real)
    ensures u == Area(b1) + Area(b2) - Intersection(b1, b2)
    ensures PositiveArea(b1) && PositiveArea(b2) ==> u >= Area(b1) && u >= Area(b2)
  {
    var s1 := (b1.p0 - b1.p2) * (b1.p1 - b1.p3);
    var s2 := (b2.p0 - b2.p2) * (b2.p1 - b2.p3);
    assert s1 == Area(b1) by {
      FlipProduct(b1.p0, b1.p2, b1.p1, b1.p3);
    }
    assert s2 == Area(b2) by {
      FlipProduct(b2.p0, b2.p2, b2.p1, b2.p3);
    }
    IntersectionWithinAreas(b1, b2);
    s1 + s2 - Intersection(b1, b2)
  }

  /** `iou(box1, box2)` for one pair of corner boxes. The source adds no
      epsilon, so the union must not vanish. */
  function Iou(b1: Box, b2: Box): real
    requires Union(b1, b2) != 0.0
  {
    Intersection(b1, b2) / Union(b1, b2)
  }

  /** The iou is symmetric in its two arguments. */
  lemma IouSymmetric(b1: Box, b2: Box)
    requires Union(b1, b2) != 0.0
    ensures Union(b2, b1) == Union(b1, b2)
    ensures Iou(b1, b2) == Iou(b2, b1)
  {
    IntersectionSymmetric(b1, b2);
  }

  /** For positive-area boxes the iou lies in [0, 1]. */
  lemma {:induction false} IouBounds(b1: Box, b2: Box)
    requires PositiveArea(b1) && PositiveArea(b2)
    ensures 0.0 <= Iou(b1, b2) <= 1.0
  {
    var i, u := Intersection(b1, b2), Union(b1, b2);
    IntersectionWithinAreas(b1, b2);
    FractionBounds(i, u);
  }

  /** A properly oriented box overlaps itself completely. */
  lemma IouSelf(b: Box)
    requires Proper(b)
    ensures Union(b, b) == Area(b) > 0.0
    ensures Iou(b, b) == 1.0
  {
    PositiveAreaCases(b);
    assert Intersection(b, b) == Area(b);
    assert Union(b, b) == Area(b);
    var a := Area(b);
    assert PositiveArea(b);
    assert a > 0.0;
    assert Iou(b, b) == a / a;
    SelfQuotient(a);
  }

  /** A box inverted on both axes passes the positive-area check but
      overlaps nothing, not even itself. */
  lemma IouSelfInverted(b: Box)
    requires b.p2 < b.p0 && b.p3 < b.p1
    ensures PositiveArea(b)
    ensures Iou(b, b) == 0.0
  {
    PositiveAreaCases(b);
  }

  /** Boxes that do not overlap on one of the axes have iou 0. */
  lemma IouDisjoint(b1: Box, b2: Box)
    requires Union(b1, b2) != 0.0
    requires Min(b1.p2, b2.p2) <= Max(b1.p0, b2.p0) || Min(b1.p3, b2.p3) <= Max(b1.p1, b2.p1)
    ensures Iou(b1, b2) == 0.0
  {
  }

  /** (0, 0, 10, 10) against (5, 5, 15, 15): intersection 25, union 175. */
  lemma IouExample()
    ensures Intersection(Box(0.0, 0.0, 10.0, 10.0), Box(5.0, 5.0, 15.0, 15.0)) == 25.0
    ensures Union(Box(0.0, 0.0, 10.0, 10.0), Box(5.0, 5.0, 15.0, 15.0)) == 175.0
    ensures Iou(Box(0.0, 0.0, 10.0, 10.0), Box(5.0, 5.0, 15.0, 15.0)) == 25.0 / 175.0
  {
  }
}

/** Tripwire crossing: the sign-based segment test of services/event-proc/tripwire.go. */
module Tripwire {
  import opened Geometry
  import opened Reals

  datatype Tripwire = Tripwire(start: Point, end: Point)

  /** Bounding-box membership, used by the source once collinearity is known. */
  predicate OnSegment(a: Point, b: Point, c: Point) {
    && Min(a.x, b.x) <= c.x <= Max(a.x, b.x)
    && Min(a.y, b.y) <= c.y <= Max(a.y, b.y)
  }

  predicate Opposite(d: real, e: real) {
    (d > 0.0 && e < 0.0) || (d < 0.0 && e > 0.0)
  }

  predicate LineIntersect(p1: Point, p2: Point, q1: Point, q2: Point) {
    var d1 := CrossProduct(q1, q2, p1);
    var d2 := CrossProduct(q1, q2, p2);
    var d3 := CrossProduct(p1, p2, q1);
    var d4 := CrossProduct(p1, p2, q2);
    if Opposite(d1, d2) && Opposite(d3, d4) then true
    else if d1 == 0.0 && OnSegment(q1, q2, p1) then true
    else if d2 == 0.0 && OnSegment(q1, q2, p2) then true
    else if d3 == 0.0 && OnSegment(p1, p2, q1) then true
    else if d4 == 0.0 && OnSegment(p1, p2, q2) then true
    else false
  }

  predicate CheckCrossing(w: Tripwire, prev: Point, curr: Point) {
    LineIntersect(w.start, w.end, prev, curr)
  }

  /** The two closed segments have a point in common. */
  ghost predicate SharePoint(p1: Point, p2: Point, q1: Point, q2: Point) {
    exists r :: InSegment(r, p1, p2) && InSegment(r, q1, q2)
  }

  // ----- Polynomial facts -----

  /** A fraction of an amount lies between zero and that amount. */
  lemma FractionOf(k: real, d: real)
    requires 0.0 <= k <= 1.0
    ensures 0.0 <= d ==> 0.0 <= k * d <= d
    ensures d <= 0.0 ==> d <= k * d <= 0.0
  {
    assert d - k * d == (1.0 - k) * d;
  }

  /** The three-vector identity (u x v) w + (v x w) u + (w x u) v = 0, one coordinate at a time. */
  lemma ThreeVectors(ux: real, uy: real, vx: real, vy: real, wx: real, wy: real)
    ensures (ux * vy - uy * vx) * wx + (vx * wy - vy * wx) * ux == (ux * wy - uy * wx) * vx
    ensures (ux * vy - uy * vx) * wy + (vx * wy - vy * wx) * uy == (ux * wy - uy * wx) * vy
  {
  }

  /** The cross product is affine in its last argument. */
  lemma CrossAlong(a: Point, b: Point, p: Point, q: Point, t: real)
    ensures CrossProduct(a, b, Along(p, q, t))
         == CrossProduct(a, b, p) + t * (CrossProduct(a, b, q) - CrossProduct(a, b, p))
  {
  }

  lemma CrossOnLine(a: Point, b: Point, t: real)
    ensures CrossProduct(a, b, Along(a, b, t)) == 0.0
  {
  }

  // ----- Collinear points and bounding boxes -----

  lemma AlongInBox(a: real, b: real, t: real)
    requires 0.0 <= t <= 1.0
    ensures Min(a, b) <= a + t * (b - a) <= Max(a, b)
  {
    StepInBox(a, b, b - a, t);
  }

  lemma StepInBox(a: real, b: real, d: real, t: real)
    requires 0.0 <= t <= 1.0 && d == b - a
    ensures Min(a, b) <= a + t * d <= Max(a, b)
  {
    var p := t * d;
    FractionBounds(t, d, p);
    OffsetInBox(a, b, d, p);
  }

  lemma FractionBounds(k: real, d: real, p: real)
    requires 0.0 <= k <= 1.0 && p == k * d
    ensures 0.0 <= p <= d || d <= p <= 0.0
  {
    FractionOf(k, d);
  }

  lemma OffsetInBox(a: real, b: real, d: real, p: real)
    requires d == b - a && (0.0 <= p <= d || d <= p <= 0.0)
    ensures Min(a, b) <= a + p <= Max(a, b)
  {
  }

  /** On a line through the origin one coordinate's fraction is the other's too. */
  lemma SameFraction(dx: real, dy: real, cx: real, cy: real, t: real)
    requires dx != 0.0 && dx * cy == dy * cx && cx == t * dx
    ensures cy == t * dy
  {
    assert dx * (cy - t * dy) == dx * cy - dy * (t * dx);
  }

  lemma Coordinates(a: Point, b: Point, t: real)
    ensures Along(a, b, t).x == a.x + t * (b.x - a.x) && Along(a, b, t).y == a.y + t * (b.y - a.y)
  {
  }

  lemma SegmentInBox(r: Point, a: Point, b: Point)
    requires InSegment(r, a, b)
    ensures OnSegment(a, b, r) && CrossProduct(a, b, r) == 0.0
  {
    hide CrossProduct, Min, Max, Along;
    var t :| 0.0 <= t <= 1.0 && r == Along(a, b, t);
    Coordinates(a, b, t);
    AlongInBox(a.x, b.x, t);
    AlongInBox(a.y, b.y, t);
    CrossOnLine(a, b, t);
  }

  /** A coordinate inside [min, max] is reached at a fraction in [0, 1]. */
  lemma Fraction(a: real, b: real, c: real) returns (t: real)
    requires a != b && Min(a, b) <= c <= Max(a, b)
    ensures 0.0 <= t <= 1.0 && c - a == t * (b - a)
  {
    t := (c - a) / (b - a);
    DivCancel(c - a, b - a);
    assert t * (b - a) == c - a;
    var d := b - a;
    MulSign(t, d);
    MulSign(t - 1.0, d);
    assert (t - 1.0) * d == c - b;
  }

  lemma CollinearInBox(c: Point, a: Point, b: Point)
    requires CrossProduct(a, b, c) == 0.0 && OnSegment(a, b, c)
    ensures InSegment(c, a, b)
  {
    hide InSegment, Min, Max;
    if a.x != b.x {
      var t := Fraction(a.x, b.x, c.x);
      SameFraction(b.x - a.x, b.y - a.y, c.x - a.x, c.y - a.y, t);
      AtFraction(a, b, c, t);
    } else if a.y != b.y {
      var t := Fraction(a.y, b.y, c.y);
      SameFraction(b.y - a.y, b.x - a.x, c.y - a.y, c.x - a.x, t);
      AtFraction(a, b, c, t);
    } else {
      hide CrossProduct;
      InPoint(a.x, c.x);
      InPoint(a.y, c.y);
      AtFraction(a, b, c, 0.0);
    }
  }

  lemma InPoint(a: real, c: real)
    requires Min(a, a) <= c <= Max(a, a)
    ensures c == a
  {
  }

  lemma AtFraction(a: Point, b: Point, c: Point, t: real)
    requires 0.0 <= t <= 1.0 && c.x - a.x == t * (b.x - a.x) && c.y - a.y == t * (b.y - a.y)
    ensures InSegment(c, a, b)
  {
    assert c == Along(a, b, t);
  }

  // ----- Soundness -----

  /** A fraction d / (d - e) of opposite values lies strictly between 0 and 1. */
  lemma OppositeFraction(d: real, e: real)
    requires Opposite(d, e)
    ensures d - e != 0.0 && 0.0 <= d / (d - e) <= 1.0
  {
    var t := d / (d - e);
    DivCancel(d, d - e);
    MulSign(t, d - e);
    MulSign(t - 1.0, d - e);
    assert (t - 1.0) * (d - e) == e;
  }

  /** Two segments that straddle each other meet at an explicit point. */
  lemma ProperCrossing(p1: Point, p2: Point, q1: Point, q2: Point)
    requires Opposite(CrossProduct(q1, q2, p1), CrossProduct(q1, q2, p2))
    requires Opposite(CrossProduct(p1, p2, q1), CrossProduct(p1, p2, q2))
    ensures SharePoint(p1, p2, q1, q2)
  {
    var d1, d2 := CrossProduct(q1, q2, p1), CrossProduct(q1, q2, p2);
    var d3, d4 := CrossProduct(p1, p2, q1), CrossProduct(p1, p2, q2);
    OppositeFraction(d1, d2);
    OppositeFraction(d3, d4);
    var s, t := d1 / (d1 - d2), d3 / (d3 - d4);
    var ux, uy, vx, vy := p2.x - p1.x, p2.y - p1.y, q2.x - q1.x, q2.y - q1.y;
    var wx, wy := p1.x - q1.x, p1.y - q1.y;
    var d := ux * vy - uy * vx;
    assert d1 == vx * wy - vy * wx;
    assert d1 - d2 == d && d3 - d4 == -d;
    assert d3 == -(ux * wy - uy * wx);
    ThreeVectors(ux, uy, vx, vy, wx, wy);
    DivCancel(d1, d);
    DivCancel(d3, -d);
    assert t * d == -d3;
    SameAfterScaling(d, wx, s, ux, t, vx, d1, -d3);
    SameAfterScaling(d, wy, s, uy, t, vy, d1, -d3);
    assert Along(p1, p2, s) == Along(q1, q2, t);
    assert InSegment(Along(p1, p2, s), p1, p2);
    assert InSegment(Along(q1, q2, t), q1, q2);
  }

  lemma SameAfterScaling(d: real, w: real, s: real, u: real, t: real, v: real, m: real, n: real)
    requires d != 0.0 && s * d == m && t * d == n
    requires d * w + m * u == n * v
    ensures w + s * u == t * v
  {
    assert d * (w + s * u - t * v) == d * w + (s * d) * u - (t * d) * v;
  }

  lemma EndpointMeets(c: Point, a: Point, b: Point, other: Point)
    requires CrossProduct(a, b, c) == 0.0 && OnSegment(a, b, c)
    ensures InSegment(c, a, b) && InSegment(c, c, other) && InSegment(c, other, c)
  {
    CollinearInBox(c, a, b);
    assert c == Along(c, other, 0.0) && c == Along(other, c, 1.0);
  }

  lemma Sound(p1: Point, p2: Point, q1: Point, q2: Point)
    requires LineIntersect(p1, p2, q1, q2)
    ensures SharePoint(p1, p2, q1, q2)
  {
    if Opposite(CrossProduct(q1, q2, p1), CrossProduct(q1, q2, p2))
       && Opposite(CrossProduct(p1, p2, q1), CrossProduct(p1, p2, q2)) {
      ProperCrossing(p1, p2, q1, q2);
    } else if CrossProduct(q1, q2, p1) == 0.0 && OnSegment(q1, q2, p1) {
      EndpointMeets(p1, q1, q2, p2);
    } else if CrossProduct(q1, q2, p2) == 0.0 && OnSegment(q1, q2, p2) {
      EndpointMeets(p2, q1, q2, p1);
    } else if CrossProduct(p1, p2, q1) == 0.0 && OnSegment(p1, p2, q1) {
      EndpointMeets(q1, p1, p2, q2);
    } else {
      EndpointMeets(q2, p1, p2, q1);
    }
  }

  // ----- Completeness -----

  /** A weighted mean of d and e that vanishes: opposite signs, an end, or both zero. */
  lemma VanishingMean(d: real, e: real, s: real)
    requires 0.0 <= s <= 1.0 && d + s * (e - d) == 0.0
    ensures Opposite(d, e) || (d == 0.0 && e == 0.0) || (d == 0.0 && s == 0.0) || (e == 0.0 && s == 1.0)
  {
    var r := 1.0 - s;
    assert r * d + s * e == 0.0;
    MulSign(s, e);
    MulSign(r, d);
    if s == 0.0 {
      assert r * d == d;
    } else if s == 1.0 {
      assert s * e == e;
    }
  }

  /** Going a fraction s from parameter a to parameter b of a line. */
  lemma AlongBetween(p: Point, q: Point, a: real, b: real, s: real)
    ensures Along(Along(p, q, a), Along(p, q, b), s) == Along(p, q, a + s * (b - a))
  {
    Interpolate(p.x, q.x - p.x, a, b, s);
    Interpolate(p.y, q.y - p.y, a, b, s);
  }

  lemma Interpolate(p: real, d: real, a: real, b: real, s: real)
    ensures (p + a * d) + s * ((p + b * d) - (p + a * d)) == p + (a + s * (b - a)) * d
  {
    var e := b - a;
    assert b * d - a * d == e * d;
    assert s * (e * d) == (s * e) * d;
    assert (a + s * e) * d == a * d + (s * e) * d;
  }

  lemma AlongZero(p: Point, q: Point)
    ensures Along(p, q, 0.0) == p
  {
  }

  lemma AlongInjective(p: Point, q: Point, t: real, u: real)
    requires p != q && Along(p, q, t) == Along(p, q, u)
    ensures t == u
  {
    if p.x != q.x {
      CancelFactor(q.x - p.x, t, u);
    } else {
      CancelFactor(q.y - p.y, t, u);
    }
  }

  /** On one line, a common point of two segments forces an endpoint of one into the other. */
  lemma CollinearOverlap(p1: Point, p2: Point, q1: Point, q2: Point, s: real, t: real)
    requires 0.0 <= s <= 1.0 && 0.0 <= t <= 1.0 && Along(p1, p2, s) == Along(q1, q2, t)
    requires CrossProduct(q1, q2, p1) == 0.0 && CrossProduct(q1, q2, p2) == 0.0
    requires q1 != q2
    ensures LineIntersect(p1, p2, q1, q2)
  {
    hide Along, CrossProduct, OnSegment;
    var a := LineParameter(p1, q1, q2);
    var b := LineParameter(p2, q1, q2);
    AlongBetween(q1, q2, a, b, s);
    AlongInjective(q1, q2, t, a + s * (b - a));
    AlongInBox(a, b, s);
    if 0.0 <= a <= 1.0 {
      SegmentInBox(p1, q1, q2);
    } else if 0.0 <= b <= 1.0 {
      SegmentInBox(p2, q1, q2);
    } else {
      assert Min(a, b) <= 0.0 <= Max(a, b);
      var c := Fraction(a, b, 0.0);
      AlongBetween(q1, q2, a, b, c);
      AlongZero(q1, q2);
      SegmentInBox(q1, p1, p2);
    }
  }

  /** A point on the line through two different points is reached at some parameter. */
  lemma LineParameter(c: Point, a: Point, b: Point) returns (t: real)
    requires a != b && CrossProduct(a, b, c) == 0.0
    ensures c == Along(a, b, t)
  {
    if a.x != b.x {
      t := (c.x - a.x) / (b.x - a.x);
      DivCancel(c.x - a.x, b.x - a.x);
      SameFraction(b.x - a.x, b.y - a.y, c.x - a.x, c.y - a.y, t);
    } else {
      t := (c.y - a.y) / (b.y - a.y);
      DivCancel(c.y - a.y, b.y - a.y);
      SameFraction(b.y - a.y, b.x - a.x, c.y - a.y, c.x - a.x, t);
    }
  }

  lemma Complete(p1: Point, p2: Point, q1: Point, q2: Point)
    requires SharePoint(p1, p2, q1, q2)
    ensures LineIntersect(p1, p2, q1, q2)
  {
    hide Along, CrossProduct;
    var r :| InSegment(r, p1, p2) && InSegment(r, q1, q2);
    var s :| 0.0 <= s <= 1.0 && r == Along(p1, p2, s);
    var t :| 0.0 <= t <= 1.0 && r == Along(q1, q2, t);
    CrossOnLine(q1, q2, t);
    CrossAlong(q1, q2, p1, p2, s);
    CrossOnLine(p1, p2, s);
    CrossAlong(p1, p2, q1, q2, t);
    VanishingMean(CrossProduct(q1, q2, p1), CrossProduct(q1, q2, p2), s);
    VanishingMean(CrossProduct(p1, p2, q1), CrossProduct(p1, p2, q2), t);
    if r in {p1, p2, q1, q2} {
      MeetAtEndpoint(r, p1, p2, q1, q2);
    } else {
      assert p1 != p2 && q1 != q2 && 0.0 < s < 1.0 && 0.0 < t < 1.0 by {
        NotAnEndpoint(r, p1, p2, s);
        NotAnEndpoint(r, q1, q2, t);
      }
      if CrossProduct(q1, q2, p1) == 0.0 && CrossProduct(q1, q2, p2) == 0.0 {
        CollinearOverlap(p1, p2, q1, q2, s, t);
      } else if CrossProduct(p1, p2, q1) == 0.0 && CrossProduct(p1, p2, q2) == 0.0 {
        CollinearOverlap(q1, q2, p1, p2, t, s);
      }
    }
  }

  lemma NotAnEndpoint(r: Point, a: Point, b: Point, s: real)
    requires 0.0 <= s <= 1.0 && r == Along(a, b, s) && r != a && r != b
    ensures a != b && 0.0 < s < 1.0
  {
  }

  lemma MeetAtEndpoint(r: Point, p1: Point, p2: Point, q1: Point, q2: Point)
    requires InSegment(r, p1, p2) && InSegment(r, q1, q2) && r in {p1, p2, q1, q2}
    ensures LineIntersect(p1, p2, q1, q2)
  {
    SegmentInBox(r, p1, p2);
    SegmentInBox(r, q1, q2);
  }

  // ----- Main results -----

  /** The sign test decides exactly whether two closed segments meet, degenerate ones included. */
  lemma LineIntersectExact(p1: Point, p2: Point, q1: Point, q2: Point)
    ensures LineIntersect(p1, p2, q1, q2) <==> SharePoint(p1, p2, q1, q2)
  {
    if LineIntersect(p1, p2, q1, q2) {
      Sound(p1, p2, q1, q2);
    }
    if SharePoint(p1, p2, q1, q2) {
      Complete(p1, p2, q1, q2);
    }
  }

  /** Sampling a straight move at a further point on it neither loses nor invents a crossing. */
  lemma CrossingSurvivesResampling(w: Tripwire, prev: Point, mid: Point, curr: Point)
    requires InSegment(mid, prev, curr)
    ensures CheckCrossing(w, prev, curr) <==> CheckCrossing(w, prev, mid) || CheckCrossing(w, mid, curr)
  {
    LineIntersectExact(w.start, w.end, prev, curr);
    LineIntersectExact(w.start, w.end, prev, mid);
    LineIntersectExact(w.start, w.end, mid, curr);
    forall r ensures InSegment(r, prev, curr) <==> InSegment(r, prev, mid) || InSegment(r, mid, curr) {
      SegmentSplits(r, prev, mid, curr);
    }
  }

  lemma AlongAlong(a: Point, b: Point, m: real, k: real)
    ensures Along(a, Along(a, b, m), k) == Along(a, b, k * m)
    ensures Along(Along(a, b, m), b, k) == Along(a, b, m + k * (1.0 - m))
  {
    hide Along;
    NestedAt(a, b, Along(a, b, m), m, k, k * m, m + k * (1.0 - m));
  }

  lemma NestedAt(a: Point, b: Point, r: Point, m: real, k: real, s: real, u: real)
    requires r == Along(a, b, m) && s == k * m && u == m + k * (1.0 - m)
    ensures Along(a, r, k) == Along(a, b, s) && Along(r, b, k) == Along(a, b, u)
  {
    hide Step, Along;
    AlongSteps(a, b, m);
    Nest(a.x, b.x, r.x, m, k, s, u);
    Nest(a.y, b.y, r.y, m, k, s, u);
    AlongSteps(a, r, k);
    AlongSteps(r, b, k);
    AlongSteps(a, b, s);
    AlongSteps(a, b, u);
  }

  /** One coordinate of Along. */
  function Step(p: real, q: real, t: real): real {
    p + t * (q - p)
  }

  lemma AlongSteps(a: Point, b: Point, t: real)
    ensures Along(a, b, t) == Point(Step(a.x, b.x, t), Step(a.y, b.y, t))
  {
  }

  lemma Nest(p: real, q: real, r: real, m: real, k: real, s: real, u: real)
    requires r == Step(p, q, m) && s == k * m && u == m + k * (1.0 - m)
    ensures Step(p, r, k) == Step(p, q, s) && Step(r, q, k) == Step(p, q, u)
  {
    var d := q - p;
    Associate(k, m, d);
    Associate(k, 1.0 - m, d);
    Distribute(1.0, -m, d);
    Distribute(m, k * (1.0 - m), d);
  }

  lemma Associate(a: real, b: real, c: real)
    ensures a * (b * c) == (a * b) * c
  {
  }

  lemma Distribute(a: real, b: real, c: real)
    ensures (a + b) * c == a * c + b * c
  {
  }

  /** Part n of a positive whole d, as a fraction. */
  lemma Ratio(n: real, d: real) returns (k: real)
    requires 0.0 <= n <= d && 0.0 < d
    ensures 0.0 <= k <= 1.0 && k * d == n
  {
    k := n / d;
    DivCancel(n, d);
    MulSign(k, d);
    MulSign(k - 1.0, d);
    assert (k - 1.0) * d == n - d;
  }

  /** Going on from fraction m by a fraction k of what is left. */
  lemma Onward(m: real, k: real)
    requires 0.0 <= m <= 1.0 && 0.0 <= k <= 1.0
    ensures 0.0 <= m + k * (1.0 - m) <= 1.0
  {
    OnwardBy(m, k, 1.0 - m);
  }

  lemma OnwardBy(m: real, k: real, n: real)
    requires 0.0 <= m <= 1.0 && 0.0 <= k <= 1.0 && n == 1.0 - m
    ensures 0.0 <= m + k * n <= 1.0
  {
    FractionOf(k, n);
  }

  lemma PartOfSegment(r: Point, a: Point, b: Point, m: real)
    requires 0.0 <= m <= 1.0
    ensures InSegment(r, a, Along(a, b, m)) ==> InSegment(r, a, b)
    ensures InSegment(r, Along(a, b, m), b) ==> InSegment(r, a, b)
  {
    hide Along;
    var mid := Along(a, b, m);
    if InSegment(r, a, mid) {
      var k :| 0.0 <= k <= 1.0 && r == Along(a, mid, k);
      AlongAlong(a, b, m, k);
      FractionOf(k, m);
      assert r == Along(a, b, k * m);
    }
    if InSegment(r, mid, b) {
      var k :| 0.0 <= k <= 1.0 && r == Along(mid, b, k);
      AlongAlong(a, b, m, k);
      Onward(m, k);
    }
  }

  lemma SegmentSplits(r: Point, a: Point, mid: Point, b: Point)
    requires InSegment(mid, a, b)
    ensures InSegment(r, a, b) <==> InSegment(r, a, mid) || InSegment(r, mid, b)
  {
    var m :| 0.0 <= m <= 1.0 && mid == Along(a, b, m);
    PartOfSegment(r, a, b, m);
    if InSegment(r, a, b) {
      var t :| 0.0 <= t <= 1.0 && r == Along(a, b, t);
      SegmentPart(r, a, b, m, t);
    }
  }

  lemma SegmentPart(r: Point, a: Point, b: Point, m: real, t: real)
    requires 0.0 <= m <= 1.0 && 0.0 <= t <= 1.0 && r == Along(a, b, t)
    ensures InSegment(r, a, Along(a, b, m)) || InSegment(r, Along(a, b, m), b)
  {
    hide Along;
    var mid := Along(a, b, m);
    if t == m {
      assert r == Along(mid, b, 0.0) by { AlongAlong(a, b, m, 0.0); }
    } else if t < m {
      var k := Ratio(t, m);
      AlongAlong(a, b, m, k);
      assert r == Along(a, mid, k);
    } else {
      var k := Ratio(t - m, 1.0 - m);
      AlongAlong(a, b, m, k);
      assert m + k * (1.0 - m) == t;
      assert r == Along(mid, b, k);
    }
  }
}

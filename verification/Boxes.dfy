/** Intersection over union of detection boxes: computeIoU of services/event-proc/main.go. */
module Boxes {
  import opened Geometry
  import opened Reals

  type Box = seq<real>

  function Area(a: Box): real
    requires |a| >= 4
  {
    (a[2] - a[0]) * (a[3] - a[1])
  }

  /** The box common to a and b; inverted when they do not overlap. */
  function Meet(a: Box, b: Box): Box
    requires |a| >= 4 && |b| >= 4
  {
    [Max(a[0], b[0]), Max(a[1], b[1]), Min(a[2], b[2]), Min(a[3], b[3])]
  }

  function ComputeIoU(a: Box, b: Box): real {
    if |a| < 4 || |b| < 4 then 0.0
    else
      var m := Meet(a, b);
      if m[2] <= m[0] || m[3] <= m[1] then 0.0
      else
        var inter := Area(m);
        var union := Area(a) + Area(b) - inter;
        if union <= 0.0 then 0.0 else inter / union
  }

  /** The point (x, y) lies strictly inside the box. */
  predicate Interior(a: Box, x: real, y: real)
    requires |a| >= 4
  {
    a[0] < x < a[2] && a[1] < y < a[3]
  }

  ghost predicate Overlap(a: Box, b: Box) {
    |a| >= 4 && |b| >= 4 && exists x, y :: Interior(a, x, y) && Interior(b, x, y)
  }

  lemma OverlapByBounds(a: Box, b: Box)
    requires |a| >= 4 && |b| >= 4
    ensures Overlap(a, b) <==> Max(a[0], b[0]) < Min(a[2], b[2]) && Max(a[1], b[1]) < Min(a[3], b[3])
  {
    if Max(a[0], b[0]) < Min(a[2], b[2]) && Max(a[1], b[1]) < Min(a[3], b[3]) {
      var x := (Max(a[0], b[0]) + Min(a[2], b[2])) / 2.0;
      var y := (Max(a[1], b[1]) + Min(a[3], b[3])) / 2.0;
      assert Interior(a, x, y) && Interior(b, x, y);
    }
  }

  /** A rectangle inside another has the smaller area, and the same area only if they are equal. */
  lemma AreaGrows(w: real, h: real, w': real, h': real)
    requires 0.0 < w <= w' && 0.0 < h <= h'
    ensures 0.0 < w * h <= w' * h'
    ensures w * h == w' * h' ==> w == w' && h == h'
  {
    MulSign(w, h);
    assert w' * h' - w * h == w' * (h' - h) + (w' - w) * h;
    if h < h' { MulSign(w', h' - h); }
    if w < w' { MulSign(w' - w, h); }
  }

  lemma RatioOf(n: real, d: real)
    requires 0.0 < n <= d
    ensures 0.0 < n / d <= 1.0 && (n / d == 1.0 <==> n == d)
  {
    var q := n / d;
    assert q * d == n;
    if q > 1.0 { MulSign(q - 1.0, d); }
  }

  /** Once the overlap guard has passed the union is at least the intersection, so its own guard never holds. */
  lemma UnionArea(a: Box, b: Box)
    requires |a| >= 4 && |b| >= 4 && Meet(a, b)[0] < Meet(a, b)[2] && Meet(a, b)[1] < Meet(a, b)[3]
    ensures 0.0 < Area(Meet(a, b)) <= Area(a) + Area(b) - Area(Meet(a, b))
    ensures Area(Meet(a, b)) == Area(a) + Area(b) - Area(Meet(a, b)) <==> a[..4] == b[..4]
  {
    SameCoordinates(a, b);
    MeetArea(a, b);
    if a[..4] == b[..4] {
      SameArea(a, b);
    } else {
      hide Area;
      DifferentBoxes(a, b);
    }
  }

  /** The common rectangle is no larger than either box, and as large only if it is that box. */
  lemma MeetArea(a: Box, b: Box)
    requires |a| >= 4 && |b| >= 4 && Meet(a, b)[0] < Meet(a, b)[2] && Meet(a, b)[1] < Meet(a, b)[3]
    ensures var m := Meet(a, b);
            && 0.0 < Area(m) <= Area(a) && Area(m) <= Area(b)
            && (Area(m) == Area(a) ==> m[2] - m[0] == a[2] - a[0] && m[3] - m[1] == a[3] - a[1])
            && (Area(m) == Area(b) ==> m[2] - m[0] == b[2] - b[0] && m[3] - m[1] == b[3] - b[1])
  {
    MeetSides(a, b);
    hide Meet, Area;
    SmallerBox(Meet(a, b), a);
    SmallerBox(Meet(a, b), b);
  }

  lemma MeetSides(a: Box, b: Box)
    requires |a| >= 4 && |b| >= 4
    ensures var m := Meet(a, b);
            && m[2] - m[0] <= a[2] - a[0] && m[3] - m[1] <= a[3] - a[1]
            && m[2] - m[0] <= b[2] - b[0] && m[3] - m[1] <= b[3] - b[1]
  {
  }

  lemma SmallerBox(m: Box, a: Box)
    requires |m| >= 4 && |a| >= 4 && m[0] < m[2] && m[1] < m[3]
    requires m[2] - m[0] <= a[2] - a[0] && m[3] - m[1] <= a[3] - a[1]
    ensures 0.0 < Area(m) <= Area(a)
    ensures Area(m) == Area(a) ==> m[2] - m[0] == a[2] - a[0] && m[3] - m[1] == a[3] - a[1]
  {
    AreaGrows(m[2] - m[0], m[3] - m[1], a[2] - a[0], a[3] - a[1]);
  }

  /** If the common rectangle has the sides of both boxes, they have the same corners. */
  lemma DifferentBoxes(a: Box, b: Box)
    requires |a| >= 4 && |b| >= 4
    ensures var m := Meet(a, b);
            m[2] - m[0] == a[2] - a[0] == b[2] - b[0] && m[3] - m[1] == a[3] - a[1] == b[3] - b[1] ==>
              a[0] == b[0] && a[1] == b[1] && a[2] == b[2] && a[3] == b[3]
  {
  }

  lemma SameCoordinates(a: Box, b: Box)
    requires |a| >= 4 && |b| >= 4
    ensures a[..4] == b[..4] <==> a[0] == b[0] && a[1] == b[1] && a[2] == b[2] && a[3] == b[3]
  {
    assert a[..4] == [a[0], a[1], a[2], a[3]] && b[..4] == [b[0], b[1], b[2], b[3]];
  }

  lemma SameArea(a: Box, b: Box)
    requires |a| >= 4 && |b| >= 4 && a[0] == b[0] && a[1] == b[1] && a[2] == b[2] && a[3] == b[3]
    ensures Area(a) == Area(b) == Area(Meet(a, b))
  {
  }

  /**
   For arbitrary boxes, inverted ones included: the value is symmetric and in [0, 1]; it is positive exactly when
   the interiors overlap; and it is 1 exactly for equal proper boxes.
   */
  lemma IoUExact(a: Box, b: Box)
    ensures 0.0 <= ComputeIoU(a, b) <= 1.0 && ComputeIoU(a, b) == ComputeIoU(b, a)
    ensures ComputeIoU(a, b) > 0.0 <==> Overlap(a, b)
    ensures ComputeIoU(a, b) == 1.0
       <==> |a| >= 4 && |b| >= 4 && a[..4] == b[..4] && a[0] < a[2] && a[1] < a[3]
  {
    if |a| >= 4 && |b| >= 4 {
      assert Meet(a, b) == Meet(b, a);
      OverlapByBounds(a, b);
      SameCoordinates(a, b);
      hide Overlap, Area;
      if Overlap(a, b) {
        UnionArea(a, b);
        RatioOf(Area(Meet(a, b)), Area(a) + Area(b) - Area(Meet(a, b)));
      }
    }
  }

  /**
   For overlapping boxes the value is the area of the common region over the area of the union, the common region
   being exactly the points inside both.
   */
  lemma IoUIsAreaRatio(a: Box, b: Box)
    requires Overlap(a, b)
    ensures forall x, y :: Interior(Meet(a, b), x, y) <==> Interior(a, x, y) && Interior(b, x, y)
    ensures ComputeIoU(a, b) * (Area(a) + Area(b) - Area(Meet(a, b))) == Area(Meet(a, b)) > 0.0
  {
    OverlapByBounds(a, b);
    hide Overlap, Area;
    UnionArea(a, b);
    DivCancel(Area(Meet(a, b)), Area(a) + Area(b) - Area(Meet(a, b)));
  }
}

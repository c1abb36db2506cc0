/**
 Ray-casting polygon membership: PointInPolygon and its pair-based twin of services/event-proc.
 The specification is the parity of the edges crossed by the ray from pt towards larger x.
 */
module Polygon {
  import opened Geometry
  import opened Reals

  /** The edge test of the loop body, for the edge from polygon[i] = a to polygon[j] = b. */
  predicate Crosses(pt: Point, a: Point, b: Point) {
    && (a.y > pt.y) != (b.y > pt.y)
    && pt.x < (b.x - a.x) * (pt.y - a.y) / (b.y - a.y) + a.x
  }

  /** Parity of the crossed edges along an open path. */
  predicate PathParity(pt: Point, path: seq<Point>) {
    if |path| < 2 then false else Crosses(pt, path[0], path[1]) != PathParity(pt, path[1..])
  }

  /** Parity of the crossed edges around a closed polygon. */
  predicate Inside(pt: Point, polygon: seq<Point>) {
    polygon != [] && PathParity(pt, polygon + [polygon[0]])
  }

  method PointInPolygon(pt: Point, polygon: seq<Point>) returns (inside: bool)
    ensures inside == Inside(pt, polygon)
  {
    hide Crosses;
    var n := |polygon|;
    inside := false;
    var j := n - 1;
    var i := 0;
    while i < n
      invariant 0 <= i <= n
      invariant j == if i == 0 then n - 1 else i - 1
      invariant inside == LoopParity(pt, polygon, i)
    {
      if Crosses(pt, polygon[i], polygon[j]) {
        inside := !inside;
      }
      j := i;
      i := i + 1;
    }
    LoopIsInside(pt, polygon);
  }

  /** What the loop has accumulated after i edges: the closing edge first, then the path in order. */
  ghost predicate LoopParity(pt: Point, polygon: seq<Point>, i: nat)
    requires i <= |polygon|
  {
    i > 0 && (LoopParity(pt, polygon, i - 1)
      != Crosses(pt, polygon[i - 1], polygon[if i == 1 then |polygon| - 1 else i - 2]))
  }

  lemma {:induction false} LoopIsPath(pt: Point, polygon: seq<Point>, i: nat)
    requires 0 < i <= |polygon|
    ensures LoopParity(pt, polygon, i)
         == (Crosses(pt, polygon[0], polygon[|polygon| - 1]) != PathParity(pt, polygon[..i]))
  {
    hide Crosses;
    if i > 1 {
      LoopIsPath(pt, polygon, i - 1);
      assert polygon[..i] == polygon[..i - 1] + [polygon[i - 1]];
      ParityExtend(pt, polygon[..i - 1], polygon[i - 1]);
      CrossesSymmetric(pt, polygon[i - 1], polygon[i - 2]);
    }
  }

  lemma LoopIsInside(pt: Point, polygon: seq<Point>)
    ensures LoopParity(pt, polygon, |polygon|) == Inside(pt, polygon)
  {
    hide Crosses;
    if polygon != [] {
      LoopIsPath(pt, polygon, |polygon|);
      assert polygon[..|polygon|] == polygon;
      ParityExtend(pt, polygon, polygon[0]);
      CrossesSymmetric(pt, polygon[0], polygon[|polygon| - 1]);
    }
  }

  // ----- The edge test -----

  /** The abscissa at which the edge from a to b meets height y. */
  function MeetsAt(y: real, a: Point, b: Point): real
    requires a.y != b.y
  {
    (b.x - a.x) * (y - a.y) / (b.y - a.y) + a.x
  }

  /** The meeting abscissa x solves (b.y - a.y)(x - a.x) = (b.x - a.x)(y - a.y). */
  lemma MeetsAtSolves(y: real, a: Point, b: Point)
    requires a.y != b.y
    ensures (b.y - a.y) * (MeetsAt(y, a, b) - a.x) == (b.x - a.x) * (y - a.y)
  {
  }

  lemma MeetsAtSymmetric(y: real, a: Point, b: Point)
    requires a.y != b.y
    ensures MeetsAt(y, a, b) == MeetsAt(y, b, a)
  {
    var x, x' := MeetsAt(y, a, b), MeetsAt(y, b, a);
    MeetsAtSolves(y, a, b);
    MeetsAtSolves(y, b, a);
    OneSolution(a.x, a.y, b.x, b.y, y, x, x');
  }

  lemma OneSolution(ax: real, ay: real, bx: real, by': real, y: real, x: real, x': real)
    requires ay != by'
    requires (by' - ay) * (x - ax) == (bx - ax) * (y - ay)
    requires (ay - by') * (x' - bx) == (ax - bx) * (y - by')
    ensures x == x'
  {
    var d := by' - ay;
    assert d * (x - x') == (by' - ay) * (x - ax) + (ay - by') * (x' - bx) + (by' - ay) * (ax - bx);
    assert (bx - ax) * (y - ay) + (ax - bx) * (y - by') + (by' - ay) * (ax - bx) == 0.0;
    CancelFactor(d, x, x');
  }

  predicate Straddles(y: real, a: Point, b: Point) {
    (a.y > y) != (b.y > y)
  }

  lemma CrossesMeets(pt: Point, a: Point, b: Point)
    ensures Crosses(pt, a, b) <==> Straddles(pt.y, a, b) && pt.x < MeetsAt(pt.y, a, b)
  {
  }

  lemma CrossesSymmetric(pt: Point, a: Point, b: Point)
    ensures Crosses(pt, a, b) == Crosses(pt, b, a)
  {
    hide Crosses, MeetsAt;
    CrossesMeets(pt, a, b);
    CrossesMeets(pt, b, a);
    if a.y != b.y {
      MeetsAtSymmetric(pt.y, a, b);
    }
  }

  // ----- Parity along paths -----

  lemma {:induction false} ParityExtend(pt: Point, path: seq<Point>, v: Point)
    requires path != []
    ensures PathParity(pt, path + [v]) == (PathParity(pt, path) != Crosses(pt, path[|path| - 1], v))
  {
    if |path| > 1 {
      assert (path + [v])[1..] == path[1..] + [v];
      ParityExtend(pt, path[1..], v);
    }
  }

  /** Two paths joined at a shared vertex. */
  lemma {:induction false} ParityJoin(pt: Point, left: seq<Point>, v: Point, right: seq<Point>)
    ensures PathParity(pt, left + [v] + right) == (PathParity(pt, left + [v]) != PathParity(pt, [v] + right))
  {
    if left == [] {
      assert left + [v] + right == [v] + right;
    } else {
      assert (left + [v] + right)[1..] == left[1..] + [v] + right;
      assert (left + [v])[1..] == left[1..] + [v];
      ParityJoin(pt, left[1..], v, right);
      if |left| > 1 {
        assert (left + [v] + right)[1] == (left + [v])[1];
      }
    }
  }

  function Reverse(s: seq<Point>): (r: seq<Point>)
    ensures |r| == |s| && forall k :: 0 <= k < |s| ==> r[k] == s[|s| - 1 - k]
  {
    if s == [] then [] else Reverse(s[1..]) + [s[0]]
  }

  lemma {:induction false} ParityReverse(pt: Point, path: seq<Point>)
    ensures PathParity(pt, Reverse(path)) == PathParity(pt, path)
  {
    if |path| > 1 {
      ParityReverse(pt, path[1..]);
      ParityExtend(pt, Reverse(path[1..]), path[0]);
      CrossesSymmetric(pt, path[0], path[1]);
    }
  }

  // ----- Invariance under relabelling the vertices -----

  lemma RotationInvariant(pt: Point, polygon: seq<Point>, k: nat)
    requires k <= |polygon|
    ensures Inside(pt, polygon[k..] + polygon[..k]) == Inside(pt, polygon)
  {
    if 0 < k < |polygon| {
      var u, v := polygon[0], polygon[k];
      var left, right := polygon[1..k], polygon[k + 1..];
      assert polygon + [u] == [u] + left + [v] + (right + [u]);
      assert polygon[k..] + polygon[..k] + [v] == [v] + right + [u] + (left + [v]);
      assert [v] + right + [u] == [v] + (right + [u]) && [u] + left + [v] == [u] + (left + [v]);
      ParityJoin(pt, [u] + left, v, right + [u]);
      ParityJoin(pt, [v] + right, u, left + [v]);
    } else {
      assert polygon[k..] + polygon[..k] == polygon;
    }
  }

  lemma ReversalInvariant(pt: Point, polygon: seq<Point>)
    ensures Inside(pt, Reverse(polygon)) == Inside(pt, polygon)
  {
    if polygon != [] {
      var n := |polygon|;
      var closed := polygon + [polygon[0]];
      assert Reverse(closed) == [polygon[0]] + Reverse(polygon);
      ParityReverse(pt, closed);
      var r := Reverse(polygon);
      assert r[..n - 1] + [r[n - 1]] == r;
      assert r + [r[0]] == r[..n - 1] + [polygon[0]] + [r[0]];
      ParityExtend(pt, r, r[0]);
      assert ([polygon[0]] + r)[1..] == r;
      CrossesSymmetric(pt, polygon[0], r[0]);
    }
  }

  // ----- Cutting along a chord -----

  /** A chord between vertices i < j splits the polygon in two; membership is the exclusive or. */
  lemma ChordCut(pt: Point, polygon: seq<Point>, i: nat, j: nat)
    requires i < j < |polygon|
    ensures Inside(pt, polygon)
         == (Inside(pt, polygon[i..j + 1]) != Inside(pt, polygon[j..] + polygon[..i + 1]))
  {
    var u, v := polygon[i], polygon[j];
    var turned := polygon[i..] + polygon[..i];
    RotationInvariant(pt, polygon, i);
    var first, second := polygon[i..j + 1], polygon[j..] + polygon[..i + 1];
    var arc := polygon[j + 1..] + polygon[..i + 1];
    ChordArcs(polygon, i, j);
    hide Crosses;
    ParityJoin(pt, polygon[i..j], v, arc);
    ParityExtend(pt, first, u);
    ParityExtend(pt, second, v);
    CrossesSymmetric(pt, u, v);
  }

  lemma ChordArcs(polygon: seq<Point>, i: nat, j: nat)
    requires i < j < |polygon|
    ensures var arc := polygon[j + 1..] + polygon[..i + 1];
            && polygon[i..] + polygon[..i] + [polygon[i]] == polygon[i..j] + [polygon[j]] + arc
            && polygon[i..j + 1] == polygon[i..j] + [polygon[j]]
            && polygon[j..] + polygon[..i + 1] == [polygon[j]] + arc
  {
    assert polygon[j..] == [polygon[j]] + polygon[j + 1..];
    assert polygon[i..] == polygon[i..j] + polygon[j..];
    assert polygon[..i + 1] == polygon[..i] + [polygon[i]];
  }

  /** The triangles (p0, pk, pk+1) fanning out from vertex 0, for k from i on. */
  ghost predicate FanParity(pt: Point, polygon: seq<Point>, i: nat)
    requires 0 < i
    decreases |polygon| - i
  {
    i + 1 < |polygon|
    && (Inside(pt, [polygon[0], polygon[i], polygon[i + 1]]) != FanParity(pt, polygon, i + 1))
  }

  /** Membership in any polygon is the parity of the fan triangles that accept the point. */
  lemma {:induction false} FanFrom(pt: Point, polygon: seq<Point>, i: nat)
    requires 0 < i < |polygon|
    ensures Inside(pt, [polygon[0]] + polygon[i..]) == FanParity(pt, polygon, i)
    decreases |polygon| - i
  {
    hide Crosses;
    var whole := [polygon[0]] + polygon[i..];
    if i + 1 < |polygon| {
      FanFrom(pt, polygon, i + 1);
      ChordCut(pt, whole, 0, 2);
      assert whole[0..3] == [polygon[0], polygon[i], polygon[i + 1]];
      var rest := [polygon[0]] + polygon[i + 1..];
      var turned := whole[2..] + whole[..1];
      assert turned == rest[1..] + rest[..1];
      RotationInvariant(pt, rest, 1);
    } else {
      assert whole == [polygon[0], polygon[i]];
      TwoVertices(pt, polygon[0], polygon[i]);
    }
  }

  /** A polygon of two vertices walks its one edge there and back. */
  lemma TwoVertices(pt: Point, a: Point, b: Point)
    ensures !Inside(pt, [a, b])
  {
    hide Crosses;
    CrossesSymmetric(pt, a, b);
    ParityExtend(pt, [a, b], a);
    assert [a, b][1..] == [b];
    assert !PathParity(pt, [b]);
    assert PathParity(pt, [a, b]) == Crosses(pt, a, b);
  }

  lemma FanDecomposition(pt: Point, polygon: seq<Point>)
    requires |polygon| >= 2
    ensures Inside(pt, polygon) == FanParity(pt, polygon, 1)
  {
    assert polygon == [polygon[0]] + polygon[1..];
    FanFrom(pt, polygon, 1);
  }

  // ----- Geometric meaning -----

  /** On a straddling edge the abscissa comparison is the sign of the cross product. */
  lemma CrossesBySign(pt: Point, a: Point, b: Point)
    ensures Crosses(pt, a, b) == (
      if a.y <= pt.y < b.y then CrossProduct(a, b, pt) > 0.0
      else if b.y <= pt.y < a.y then CrossProduct(a, b, pt) < 0.0
      else false)
  {
    hide Crosses, MeetsAt;
    CrossesMeets(pt, a, b);
    if a.y != b.y {
      MeetsAtSolves(pt.y, a, b);
      var x := MeetsAt(pt.y, a, b);
      SideOfMeeting(b.y - a.y, b.x - a.x, pt.y - a.y, pt.x - a.x, x - a.x);
    }
  }

  lemma SideOfMeeting(d: real, w: real, h: real, g: real, m: real)
    requires d * m == w * h
    ensures d > 0.0 ==> (w * h - d * g > 0.0 <==> g < m)
    ensures d < 0.0 ==> (w * h - d * g < 0.0 <==> g < m)
  {
    assert w * h - d * g == d * (m - g);
    SignOfProduct(d, m - g);
  }

  /** The ends of a straddling edge bracket its meeting abscissa. */
  lemma MeetsBetween(y: real, a: Point, b: Point)
    requires Straddles(y, a, b)
    ensures Min(a.x, b.x) <= MeetsAt(y, a, b) <= Max(a.x, b.x)
  {
    MeetsAtSolves(y, a, b);
    BracketedBy(b.y - a.y, b.x - a.x, y - a.y, MeetsAt(y, a, b) - a.x);
  }

  /** If d * m == w * h with h a fraction of d, then m is that fraction of w. */
  lemma BracketedBy(d: real, w: real, h: real, m: real)
    requires d * m == w * h && d != 0.0 && (0.0 <= h <= d || d <= h <= 0.0)
    ensures 0.0 <= m <= w || w <= m <= 0.0
  {
    SignOfProduct(d, m);
    SignOfProduct(d, -m);
    SignOfProduct(d, w - m);
    SignOfProduct(d, m - w);
    assert d * (w - m) == w * (d - h);
    ProductSign(w, h);
    ProductSign(w, d - h);
    assert d * -m == -(w * h);
    assert d * (m - w) == -(w * (d - h));
  }

  /** Seen from the left of both ends an edge counts when it straddles; from the right it never does. */
  lemma EdgeFromTheSide(pt: Point, a: Point, b: Point)
    ensures pt.x < a.x && pt.x < b.x ==> Crosses(pt, a, b) == Straddles(pt.y, a, b)
    ensures a.x <= pt.x && b.x <= pt.x ==> !Crosses(pt, a, b)
    ensures (a.y > pt.y) == (b.y > pt.y) ==> !Crosses(pt, a, b)
  {
    hide Crosses, MeetsAt;
    CrossesMeets(pt, a, b);
    if Straddles(pt.y, a, b) {
      MeetsBetween(pt.y, a, b);
    }
  }

  lemma {:induction false} LeftOfPath(pt: Point, path: seq<Point>)
    requires path != [] && forall v :: v in path ==> pt.x < v.x
    ensures PathParity(pt, path) == Straddles(pt.y, path[0], path[|path| - 1])
  {
    hide Crosses;
    if |path| > 1 {
      EdgeFromTheSide(pt, path[0], path[1]);
      LeftOfPath(pt, path[1..]);
    }
  }

  lemma {:induction false} NoEdgeCounts(pt: Point, path: seq<Point>)
    requires (forall v :: v in path ==> v.x <= pt.x) || (forall v :: v in path ==> v.y > pt.y)
          || (forall v :: v in path ==> v.y <= pt.y)
    ensures !PathParity(pt, path)
  {
    hide Crosses;
    if |path| > 1 {
      EdgeFromTheSide(pt, path[0], path[1]);
      NoEdgeCounts(pt, path[1..]);
    }
  }

  /** Nothing outside the half-open bounding box of the vertices is accepted. */
  lemma RejectsOutsideBounds(pt: Point, polygon: seq<Point>)
    requires (forall v :: v in polygon ==> pt.x < v.x) || (forall v :: v in polygon ==> v.x <= pt.x)
          || (forall v :: v in polygon ==> pt.y < v.y) || (forall v :: v in polygon ==> v.y <= pt.y)
    ensures !Inside(pt, polygon)
  {
    if polygon != [] {
      var closed := polygon + [polygon[0]];
      assert forall v :: v in closed <==> v in polygon;
      if forall v :: v in polygon ==> pt.x < v.x {
        LeftOfPath(pt, closed);
      } else {
        NoEdgeCounts(pt, closed);
      }
    }
  }

  lemma TriangleParity(pt: Point, a: Point, b: Point, c: Point)
    ensures Inside(pt, [a, b, c]) == ((Crosses(pt, a, b) != Crosses(pt, b, c)) != Crosses(pt, c, a))
  {
    hide Crosses;
    ParityExtend(pt, [a, b, c], a);
    assert [a, b, c] == [a, b] + [c] && [a, b] == [a] + [b];
    ParityExtend(pt, [a, b], c);
    ParityExtend(pt, [a], b);
  }

  /** An axis-aligned rectangle accepts exactly its half-open box. */
  lemma RectangleExact(pt: Point, x0: real, y0: real, x1: real, y1: real)
    requires x0 < x1 && y0 < y1
    ensures Inside(pt, [Point(x0, y0), Point(x1, y0), Point(x1, y1), Point(x0, y1)])
        <==> x0 <= pt.x < x1 && y0 <= pt.y < y1
  {
    var a, b, c, d := Point(x0, y0), Point(x1, y0), Point(x1, y1), Point(x0, y1);
    assert [a, b, c, d] == [a, b, c] + [d] && [a, b, c] == [a, b] + [c] && [a, b] == [a] + [b];
    ParityExtend(pt, [a, b, c, d], a);
    ParityExtend(pt, [a, b, c], d);
    ParityExtend(pt, [a, b], c);
    ParityExtend(pt, [a], b);
    CrossesBySign(pt, b, c);
    CrossesBySign(pt, d, a);
    SignOfProduct(y1 - y0, x1 - pt.x);
    SignOfProduct(y0 - y1, x0 - pt.x);
    assert CrossProduct(b, c, pt) == (y1 - y0) * (x1 - pt.x);
    assert CrossProduct(d, a, pt) == (y0 - y1) * (x0 - pt.x);
  }

  /** Height of pt as the mean of the corners weighted by the opposite cross products. */
  lemma Barycentric(pt: Point, a: Point, b: Point, c: Point)
    ensures CrossProduct(b, c, pt) + CrossProduct(c, a, pt) + CrossProduct(a, b, pt) == CrossProduct(a, b, c)
    ensures CrossProduct(b, c, pt) * (a.y - pt.y) + CrossProduct(c, a, pt) * (b.y - pt.y)
          + CrossProduct(a, b, pt) * (c.y - pt.y) == 0.0
  {
  }

  /** The edge test in terms of the cross product w and the heights p, q of the ends above pt. */
  predicate Counts(w: real, p: real, q: real) {
    if p <= 0.0 < q then w > 0.0 else if q <= 0.0 < p then w < 0.0 else false
  }

  /** One corner on its own side: the two edges that straddle cancel exactly when pt is outside. */
  lemma LoneCorner(u: real, v: real, w: real, p: real, q: real, r: real)
    requires u * p + v * q + w * r == 0.0 && u + v + w > 0.0
    requires (p <= 0.0 && q <= 0.0 && r > 0.0) || (p > 0.0 && q > 0.0 && r <= 0.0)
    ensures u > 0.0 && v > 0.0 && w > 0.0 ==> Counts(u, q, r) != Counts(v, r, p)
    ensures u < 0.0 || v < 0.0 || w < 0.0 ==> Counts(u, q, r) == Counts(v, r, p)
  {
    ProductSign(u, p);
    ProductSign(v, q);
    ProductSign(w, r);
    SignOfProduct(r, w);
    SignOfProduct(r, -w);
    SignOfProduct(p, u);
    SignOfProduct(p, -u);
    SignOfProduct(q, v);
    SignOfProduct(q, -v);
    assert r * -w == -(w * r) && p * -u == -(u * p) && q * -v == -(v * q);
  }

  lemma TriangleSigns(u: real, v: real, w: real, p: real, q: real, r: real)
    requires u * p + v * q + w * r == 0.0 && u + v + w > 0.0
    requires !(p == 0.0 && q == 0.0 && r == 0.0)
    ensures u > 0.0 && v > 0.0 && w > 0.0 ==> (Counts(w, p, q) != Counts(u, q, r)) != Counts(v, r, p)
    ensures u < 0.0 || v < 0.0 || w < 0.0 ==> !((Counts(w, p, q) != Counts(u, q, r)) != Counts(v, r, p))
  {
    if (p > 0.0) == (q > 0.0) && (q > 0.0) == (r > 0.0) {
      SameSide(u, v, w, p, q, r);
    } else if (p > 0.0) == (q > 0.0) {
      LoneCorner(u, v, w, p, q, r);
    } else if (q > 0.0) == (r > 0.0) {
      LoneCorner(v, w, u, q, r, p);
    } else {
      LoneCorner(w, u, v, r, p, q);
    }
  }

  lemma SameSide(u: real, v: real, w: real, p: real, q: real, r: real)
    requires u * p + v * q + w * r == 0.0
    requires !(p == 0.0 && q == 0.0 && r == 0.0)
    requires (p > 0.0 && q > 0.0 && r > 0.0) || (p <= 0.0 && q <= 0.0 && r <= 0.0)
    ensures !(u > 0.0 && v > 0.0 && w > 0.0)
  {
  }

  lemma FlatTriangle(a: Point, b: Point, c: Point)
    requires a.y == b.y && b.y == c.y
    ensures CrossProduct(a, b, c) == 0.0
  {
    assert (b.x - a.x) * 0.0 == 0.0 && 0.0 * (c.x - a.x) == 0.0;
  }

  /** pt lies strictly on the inner side of all three edges of a triangle of either orientation. */
  predicate InnerSide(pt: Point, a: Point, b: Point, c: Point) {
    var d := CrossProduct(a, b, c);
    if d > 0.0 then CrossProduct(a, b, pt) > 0.0 && CrossProduct(b, c, pt) > 0.0 && CrossProduct(c, a, pt) > 0.0
    else CrossProduct(a, b, pt) < 0.0 && CrossProduct(b, c, pt) < 0.0 && CrossProduct(c, a, pt) < 0.0
  }

  /** pt lies strictly on the outer side of some edge. */
  predicate OuterSide(pt: Point, a: Point, b: Point, c: Point) {
    var d := CrossProduct(a, b, c);
    if d > 0.0 then CrossProduct(a, b, pt) < 0.0 || CrossProduct(b, c, pt) < 0.0 || CrossProduct(c, a, pt) < 0.0
    else CrossProduct(a, b, pt) > 0.0 || CrossProduct(b, c, pt) > 0.0 || CrossProduct(c, a, pt) > 0.0
  }

  lemma CrossReversed(a: Point, b: Point, p: Point)
    ensures CrossProduct(b, a, p) == -CrossProduct(a, b, p)
  {
  }

  lemma CrossRotated(a: Point, b: Point, c: Point)
    ensures CrossProduct(c, b, a) == -CrossProduct(a, b, c)
  {
  }

  /** A proper triangle, in either orientation, accepts its whole interior and rejects its whole exterior. */
  lemma TriangleExact(pt: Point, a: Point, b: Point, c: Point)
    requires CrossProduct(a, b, c) != 0.0
    ensures InnerSide(pt, a, b, c) ==> Inside(pt, [a, b, c])
    ensures OuterSide(pt, a, b, c) ==> !Inside(pt, [a, b, c])
  {
    hide Crosses, CrossProduct, Inside;
    if CrossProduct(a, b, c) > 0.0 {
      CounterclockwiseTriangle(pt, a, b, c);
    } else {
      CrossRotated(a, b, c);
      CrossReversed(a, b, pt);
      CrossReversed(b, c, pt);
      CrossReversed(c, a, pt);
      CounterclockwiseTriangle(pt, c, b, a);
      ReversalInvariant(pt, [a, b, c]);
      assert Reverse([a, b, c]) == [c, b, a];
    }
  }

  lemma CounterclockwiseTriangle(pt: Point, a: Point, b: Point, c: Point)
    requires CrossProduct(a, b, c) > 0.0
    ensures CrossProduct(a, b, pt) > 0.0 && CrossProduct(b, c, pt) > 0.0 && CrossProduct(c, a, pt) > 0.0
        ==> Inside(pt, [a, b, c])
    ensures CrossProduct(a, b, pt) < 0.0 || CrossProduct(b, c, pt) < 0.0 || CrossProduct(c, a, pt) < 0.0
        ==> !Inside(pt, [a, b, c])
  {
    hide Crosses, CrossProduct;
    if a.y == b.y && b.y == c.y { FlatTriangle(a, b, c); }
    Barycentric(pt, a, b, c);
    TriangleParity(pt, a, b, c);
    CrossesBySign(pt, a, b);
    CrossesBySign(pt, b, c);
    CrossesBySign(pt, c, a);
    TriangleSigns(CrossProduct(b, c, pt), CrossProduct(c, a, pt), CrossProduct(a, b, pt),
                  a.y - pt.y, b.y - pt.y, c.y - pt.y);
  }

  // ----- The pair-based twin -----

  /** polygonToFloat64 */
  method PolygonToPairs(polygon: seq<Point>) returns (pairs: seq<(real, real)>)
    ensures Points(pairs) == polygon
  {
    pairs := [];
    for i := 0 to |polygon|
      invariant |pairs| == i
      invariant forall k :: 0 <= k < i ==> pairs[k] == (polygon[k].x, polygon[k].y)
    {
      pairs := pairs + [(polygon[i].x, polygon[i].y)];
    }
  }

  predicate PairCrosses(pt: (real, real), a: (real, real), b: (real, real)) {
    && (a.1 > pt.1) != (b.1 > pt.1)
    && pt.0 < (b.0 - a.0) * (pt.1 - a.1) / (b.1 - a.1) + a.0
  }

  function Points(pairs: seq<(real, real)>): (polygon: seq<Point>)
    ensures |polygon| == |pairs|
    ensures forall k :: 0 <= k < |pairs| ==> pairs[k] == (polygon[k].x, polygon[k].y)
  {
    if pairs == [] then [] else [Point(pairs[0].0, pairs[0].1)] + Points(pairs[1..])
  }

  lemma SameEdgeTest(pt: Point, a: Point, b: Point)
    ensures PairCrosses((pt.x, pt.y), (a.x, a.y), (b.x, b.y)) == Crosses(pt, a, b)
  {
  }

  lemma LoopStart(pt: Point, polygon: seq<Point>)
    ensures !LoopParity(pt, polygon, 0)
  {
  }

  lemma LoopStep(pt: Point, polygon: seq<Point>, i: nat)
    requires i < |polygon|
    ensures LoopParity(pt, polygon, i + 1)
         == (LoopParity(pt, polygon, i) != Crosses(pt, polygon[i], polygon[if i == 0 then |polygon| - 1 else i - 1]))
  {
    hide Crosses;
  }

  /** pointInPolygon of services/event-proc/main.go computes what PointInPolygon does. */
  method PointInPairs(pt: (real, real), pairs: seq<(real, real)>) returns (inside: bool)
    ensures inside == Inside(Point(pt.0, pt.1), Points(pairs))
  {
    hide Crosses, PairCrosses, LoopParity, Inside;
    ghost var p, polygon := Point(pt.0, pt.1), Points(pairs);
    LoopStart(p, polygon);
    var n := |pairs|;
    inside := false;
    var j := n - 1;
    var i := 0;
    while i < n
      invariant 0 <= i <= n
      invariant j == if i == 0 then n - 1 else i - 1
      invariant inside == LoopParity(p, polygon, i)
    {
      SameEdgeTest(p, polygon[i], polygon[j]);
      LoopStep(p, polygon, i);
      if PairCrosses(pt, pairs[i], pairs[j]) {
        inside := !inside;
      }
      j := i;
      i := i + 1;
    }
    LoopIsInside(p, polygon);
  }
}

/** Half-plane clipping and the cells it builds (tools/terrazzo-assets/main.swift), over exact reals. */
module MineralCells {
  import opened PlaneArithmetic

  datatype Point = Point(x: real, y: real)

  /** The points where `normal` times the point is at most `limit`. */
  datatype HalfPlane = HalfPlane(normal: Point, limit: real)

  function Distance(h: HalfPlane, p: Point): real {
    h.normal.x * p.x + h.normal.y * p.y - h.limit
  }

  predicate Inside(h: HalfPlane, p: Point) {
    Distance(h, p) <= 0.0
  }

  // ---- what one clip emits ----

  /** Where an edge whose ends are at signed distances a and b meets the boundary. */
  function Crossing(previous: Point, point: Point, a: real, b: real): Point
    requires a - b != 0.0
  {
    var fraction := a / (a - b);
    Point(previous.x + (point.x - previous.x) * fraction, previous.y + (point.y - previous.y) * fraction)
  }

  function Cut(h: HalfPlane, previous: Point, point: Point): Point
    requires Inside(h, previous) != Inside(h, point)
  {
    Crossing(previous, point, Distance(h, previous), Distance(h, point))
  }

  function Emitted(h: HalfPlane, previous: Point, point: Point): seq<Point> {
    (if Inside(h, point) != Inside(h, previous) then [Cut(h, previous, point)] else [])
    + (if Inside(h, point) then [point] else [])
  }

  /** Walking a path that starts at `previous`. */
  function Walked(h: HalfPlane, previous: Point, points: seq<Point>): seq<Point>
    decreases points
  {
    if points == [] then [] else Emitted(h, previous, points[0]) + Walked(h, points[0], points[1..])
  }

  function Last(start: Point, points: seq<Point>): Point {
    if points == [] then start else points[|points| - 1]
  }

  /** The closed polygon cut down to the half-plane. */
  function Clipped(h: HalfPlane, points: seq<Point>): seq<Point> {
    if points == [] then [] else Walked(h, Last(points[0], points), points)
  }

  lemma WalkedStep(h: HalfPlane, previous: Point, points: seq<Point>, i: nat, done: seq<Point>)
    requires i < |points|
    ensures done + Walked(h, previous, points[i..]) ==
            (done + Emitted(h, previous, points[i])) + Walked(h, points[i], points[i + 1..])
  {
    assert points[i..][0] == points[i] && points[i..][1..] == points[i + 1..];
  }

  lemma EmittedIsAppended(h: HalfPlane, previous: Point, point: Point, done: seq<Point>, next: seq<Point>, result: seq<Point>)
    requires Inside(h, point) == Inside(h, previous) ==> next == done
    requires Inside(h, point) != Inside(h, previous) ==> next == done + [Cut(h, previous, point)]
    requires result == if Inside(h, point) then next + [point] else next
    ensures result == done + Emitted(h, previous, point)
  {
  }

  /** Clipping as the program does it; the crossing never divides by zero. */
  method Clip(points: seq<Point>, h: HalfPlane) returns (result: seq<Point>)
    ensures result == Clipped(h, points)
  {
    if points == [] { return []; }
    var previous := points[|points| - 1];
    result := [];
    var previousDistance := Distance(h, previous);
    for i := 0 to |points|
      invariant previousDistance == Distance(h, previous)
      invariant result + Walked(h, previous, points[i..]) == Clipped(h, points)
    {
      var point := points[i];
      var distance := Distance(h, point);
      WalkedStep(h, previous, points, i, result);
      ghost var done := result;
      if (distance <= 0.0) != (previousDistance <= 0.0) {
        result := result + [Crossing(previous, point, previousDistance, distance)];
        assert result == done + [Cut(h, previous, point)];
      }
      ghost var next := result;
      if distance <= 0.0 { result := result + [point]; }
      EmittedIsAppended(h, previous, point, done, next, result);
      previous, previousDistance := point, distance;
    }
  }

  // ---- the geometry of a polygon around a site ----

  function Cross(c: Point, p: Point, q: Point): real {
    Winding(p.x - c.x, p.y - c.y, q.x - c.x, q.y - c.y)
  }

  /** Along the path every step turns left, or not at all, as seen from c. */
  predicate Turns(c: Point, start: Point, points: seq<Point>)
    decreases points
  {
    points == [] || (Cross(c, start, points[0]) >= 0.0 && Turns(c, points[0], points[1..]))
  }

  predicate TurnsAround(c: Point, polygon: seq<Point>) {
    polygon != [] && Turns(c, Last(polygon[0], polygon), polygon)
  }

  predicate Mixes(c: Point, p: Point, q: Point, z: Point, a: real, b: real) {
    && a >= 0.0 && b >= 0.0
    && z.x - c.x == a * (p.x - c.x) + b * (q.x - c.x)
    && z.y - c.y == a * (p.y - c.y) + b * (q.y - c.y)
  }

  ghost predicate InCone(c: Point, p: Point, q: Point, z: Point) {
    exists a: real, b: real :: Mixes(c, p, q, z, a, b)
  }

  ghost predicate InTriangle(c: Point, p: Point, q: Point, z: Point) {
    exists a: real, b: real :: Mixes(c, p, q, z, a, b) && a + b <= 1.0
  }

  /** In one of the triangles the path spans with c. */
  ghost predicate InFan(c: Point, start: Point, points: seq<Point>, z: Point)
    decreases points
  {
    points != [] && (InTriangle(c, start, points[0], z) || InFan(c, points[0], points[1..], z))
  }

  /** In the polygon, seen as the triangles its edges span with c. */
  ghost predicate Covers(c: Point, polygon: seq<Point>, z: Point) {
    polygon != [] && InFan(c, Last(polygon[0], polygon), polygon, z)
  }

  // ---- paths can be split and closed paths rotated ----

  lemma {:induction false} WalkedConcat(h: HalfPlane, start: Point, a: seq<Point>, b: seq<Point>)
    ensures Walked(h, start, a + b) == Walked(h, start, a) + Walked(h, Last(start, a), b)
    decreases a
  {
    if a == [] {
      assert a + b == b;
    } else {
      assert (a + b)[1..] == a[1..] + b;
      WalkedConcat(h, a[0], a[1..], b);
    }
  }

  lemma {:induction false} TurnsConcat(c: Point, start: Point, a: seq<Point>, b: seq<Point>)
    ensures Turns(c, start, a + b) <==> Turns(c, start, a) && Turns(c, Last(start, a), b)
    decreases a
  {
    if a == [] {
      assert a + b == b;
    } else {
      assert (a + b)[1..] == a[1..] + b;
      TurnsConcat(c, a[0], a[1..], b);
    }
  }

  lemma {:induction false} InFanConcat(c: Point, start: Point, a: seq<Point>, b: seq<Point>, z: Point)
    ensures InFan(c, start, a + b, z) <==> InFan(c, start, a, z) || InFan(c, Last(start, a), b, z)
    decreases a
  {
    if a == [] {
      assert a + b == b;
    } else {
      assert (a + b)[1..] == a[1..] + b;
      InFanConcat(c, a[0], a[1..], b, z);
    }
  }

  /** Starting a closed polygon elsewhere changes neither its turning nor what it covers. */
  lemma Rotation(c: Point, a: seq<Point>, b: seq<Point>, z: Point)
    requires a != []
    ensures TurnsAround(c, a + b) <==> Turns(c, Last(a[0], a), b + a)
    ensures Covers(c, a + b, z) <==> InFan(c, Last(a[0], a), b + a, z)
  {
    var v := Last(a[0], a);
    var e := Last(v, b);
    assert Last((a + b)[0], a + b) == e && Last(e, a) == v;
    TurnsConcat(c, e, a, b);
    TurnsConcat(c, v, b, a);
    InFanConcat(c, e, a, b, z);
    InFanConcat(c, v, b, a, z);
  }

  // ---- cones and triangles ----

  lemma ConeHolds(c: Point, p: Point, q: Point, z: Point, a: real, b: real)
    requires Mixes(c, p, q, z, a, b)
    ensures InCone(c, p, q, z) && (a + b <= 1.0 ==> InTriangle(c, p, q, z))
  {
  }

  lemma Middle(h: HalfPlane, c: Point, o: Point, p: Point, q: Point) returns (s: real, t: real)
    requires Distance(h, c) < 0.0 && Distance(h, o) >= 0.0 && Distance(h, p) >= 0.0 && Distance(h, q) >= 0.0
    requires Cross(c, o, p) >= 0.0 && Cross(c, p, q) >= 0.0
    ensures Cross(c, o, q) >= 0.0 && Mixes(c, o, q, p, s, t)
  {
    Beyond(h, c, o);
    Beyond(h, c, p);
    Beyond(h, c, q);
    s, t := Between(h.normal.x, h.normal.y, o.x - c.x, o.y - c.y, p.x - c.x, p.y - c.y, q.x - c.x, q.y - c.y);
  }

  lemma MixSecond(c: Point, o: Point, p: Point, q: Point, z: Point, a: real, b: real, s: real, t: real)
    requires Mixes(c, o, p, z, a, b) && Mixes(c, o, q, p, s, t)
    ensures Mixes(c, o, q, z, a + b * s, b * t)
  {
    Regroup(a, b, s, t, o.x - c.x, p.x - c.x, q.x - c.x, z.x - c.x);
    Regroup(a, b, s, t, o.y - c.y, p.y - c.y, q.y - c.y, z.y - c.y);
    NotNegative(b, s);
    NotNegative(b, t);
  }

  lemma MixSwap(c: Point, p: Point, q: Point, z: Point, a: real, b: real)
    ensures Mixes(c, p, q, z, a, b) <==> Mixes(c, q, p, z, b, a)
  {
  }

  /** Moving the second ray onwards, or the first ray back, only widens the cone. */
  lemma ConeWidens(h: HalfPlane, c: Point, o: Point, p: Point, q: Point, z: Point)
    requires Distance(h, c) < 0.0 && Distance(h, o) >= 0.0 && Distance(h, p) >= 0.0 && Distance(h, q) >= 0.0
    requires Cross(c, o, p) >= 0.0 && Cross(c, p, q) >= 0.0
    ensures Cross(c, o, q) >= 0.0
    ensures InCone(c, o, p, z) || InCone(c, p, q, z) ==> InCone(c, o, q, z)
  {
    var s, t := Middle(h, c, o, p, q);
    if InCone(c, o, p, z) {
      var a, b :| Mixes(c, o, p, z, a, b);
      MixSecond(c, o, p, q, z, a, b, s, t);
    } else if InCone(c, p, q, z) {
      var a, b :| Mixes(c, p, q, z, a, b);
      MixSwap(c, p, q, z, a, b);
      MixSwap(c, o, q, p, s, t);
      MixSecond(c, q, p, o, z, b, a, t, s);
      MixSwap(c, q, o, z, b + a * t, a * s);
    }
  }

  lemma Beyond(h: HalfPlane, c: Point, p: Point)
    ensures Along(h.normal.x, h.normal.y, p.x - c.x, p.y - c.y) == Distance(h, p) - Distance(h, c)
  {
  }

  /** A cone cut off by the line through two boundary points is their triangle. */
  lemma ConeCutOff(h: HalfPlane, c: Point, o: Point, y: Point, z: Point)
    requires Distance(h, c) < 0.0 && Distance(h, o) == 0.0 && Distance(h, y) == 0.0 && Inside(h, z)
    requires InCone(c, o, y, z)
    ensures InTriangle(c, o, y, z)
  {
    var a, b :| Mixes(c, o, y, z, a, b);
    MixedDistance(h, c, o, y, z, a, b);
    var d := Distance(h, c);
    assert Distance(h, z) - d == (a + b) * (0.0 - d);
    if a + b > 1.0 { assert (a + b - 1.0) * (0.0 - d) > 0.0; }
    ConeHolds(c, o, y, z, a, b);
  }

  lemma MixedDistance(h: HalfPlane, c: Point, p: Point, q: Point, z: Point, a: real, b: real)
    requires Mixes(c, p, q, z, a, b)
    ensures Distance(h, z) - Distance(h, c) ==
            a * (Distance(h, p) - Distance(h, c)) + b * (Distance(h, q) - Distance(h, c))
  {
    Beyond(h, c, z);
    Beyond(h, c, p);
    Beyond(h, c, q);
    Dot(h.normal.x, h.normal.y, p.x - c.x, p.y - c.y, q.x - c.x, q.y - c.y, z.x - c.x, z.y - c.y, 1.0, a, b);
  }

  // ---- where an edge is cut ----

  /** The crossing lies on the boundary, between the two ends. */
  lemma CutIsBetween(h: HalfPlane, p: Point, q: Point) returns (t: real)
    requires Inside(h, p) != Inside(h, q)
    ensures 0.0 <= t <= 1.0 && (Inside(h, p) ==> t < 1.0) && (Inside(h, q) ==> t > 0.0)
    ensures Cut(h, p, q) == Point(p.x + (q.x - p.x) * t, p.y + (q.y - p.y) * t)
    ensures Distance(h, Cut(h, p, q)) == 0.0
  {
    var a, b := Distance(h, p), Distance(h, q);
    t := a / (a - b);
    Fraction(a, b);
    AlongEdge(h.normal.x, h.normal.y, p.x, p.y, q.x, q.y, t);
  }

  lemma Fraction(a: real, b: real)
    requires (a <= 0.0) != (b <= 0.0)
    ensures a - b != 0.0 && 0.0 <= a / (a - b) <= 1.0 && a + (b - a) * (a / (a - b)) == 0.0
    ensures a <= 0.0 ==> a / (a - b) < 1.0
    ensures b <= 0.0 ==> a / (a - b) > 0.0
  {
    var t := a / (a - b);
    assert t * (a - b) == a;
    if b <= 0.0 { Quotients(a, a - b); }
  }

  lemma AlongEdge(nx: real, ny: real, px: real, py: real, qx: real, qy: real, t: real)
    ensures nx * (px + (qx - px) * t) + ny * (py + (qy - py) * t) ==
            (nx * px + ny * py) + ((nx * qx + ny * qy) - (nx * px + ny * py)) * t
  {
    assert nx * ((qx - px) * t) == (nx * qx - nx * px) * t;
    assert ny * ((qy - py) * t) == (ny * qy - ny * py) * t;
  }

  /** Nothing is lost or gained by half-planes that both ends satisfy. */
  lemma CutStaysInside(h: HalfPlane, other: HalfPlane, p: Point, q: Point)
    requires Inside(h, p) != Inside(h, q) && Inside(other, p) && Inside(other, q)
    ensures Inside(other, Cut(h, p, q)) && Inside(h, Cut(h, p, q))
  {
    var t := CutIsBetween(h, p, q);
    AlongEdge(other.normal.x, other.normal.y, p.x, p.y, q.x, q.y, t);
    Average(Distance(other, p), Distance(other, q), t);
  }

  lemma Average(a: real, b: real, t: real)
    requires a <= 0.0 && b <= 0.0 && 0.0 <= t <= 1.0
    ensures a + (b - a) * t <= 0.0
  {
    assert a + (b - a) * t == a * (1.0 - t) + b * t;
    NotNegative(0.0 - a, 1.0 - t);
    NotNegative(0.0 - b, t);
  }

  // ---- what one clip keeps ----

  predicate OnSegment(p: Point, q: Point, x: Point, t: real) {
    0.0 <= t <= 1.0 && x == Point(p.x + (q.x - p.x) * t, p.y + (q.y - p.y) * t)
  }

  lemma MixFirstPart(c: Point, p: Point, q: Point, x: Point, t: real, z: Point, a: real, k: real)
    requires OnSegment(p, q, x, t) && Mixes(c, p, q, z, a, k * t) && k >= 0.0 && a - k * (1.0 - t) >= 0.0
    ensures Mixes(c, p, x, z, a - k * (1.0 - t), k)
  {
    Shifted(p.x, q.x, c.x, t);
    Shifted(p.y, q.y, c.y, t);
    SplitFirst(a, k, t, p.x - c.x, q.x - c.x, x.x - c.x, z.x - c.x);
    SplitFirst(a, k, t, p.y - c.y, q.y - c.y, x.y - c.y, z.y - c.y);
  }

  lemma MixSecondPart(c: Point, p: Point, q: Point, x: Point, t: real, z: Point, k: real, b: real)
    requires OnSegment(p, q, x, t) && Mixes(c, p, q, z, k * (1.0 - t), b) && k >= 0.0 && b - k * t >= 0.0
    ensures Mixes(c, x, q, z, k, b - k * t)
  {
    Shifted(p.x, q.x, c.x, t);
    Shifted(p.y, q.y, c.y, t);
    SplitSecond(k, b, t, p.x - c.x, q.x - c.x, x.x - c.x, z.x - c.x);
    SplitSecond(k, b, t, p.y - c.y, q.y - c.y, x.y - c.y, z.y - c.y);
  }

  lemma SameWeight(k: real, t: real, a: real)
    ensures a - k * (1.0 - t) + k == a + k * t
  {
  }

  lemma InFirstPart(c: Point, p: Point, q: Point, x: Point, t: real, z: Point, a: real, b: real)
    requires OnSegment(p, q, x, t) && Mixes(c, p, q, z, a, b) && a + b <= 1.0
    requires t > 0.0 && a * t >= b * (1.0 - t)
    ensures InTriangle(c, p, x, z)
  {
    var k := Share(b, a, t, 1.0 - t);
    MixFirstPart(c, p, q, x, t, z, a, k);
    SameWeight(k, t, a);
    ConeHolds(c, p, x, z, a - k * (1.0 - t), k);
  }

  lemma InSecondPart(c: Point, p: Point, q: Point, x: Point, t: real, z: Point, a: real, b: real)
    requires OnSegment(p, q, x, t) && Mixes(c, p, q, z, a, b) && a + b <= 1.0
    requires t < 1.0 && a * t <= b * (1.0 - t)
    ensures InTriangle(c, x, q, z)
  {
    var k := Share(a, b, 1.0 - t, t);
    MixSecondPart(c, p, q, x, t, z, k, b);
    SameWeight(k, 1.0 - t, b);
    ConeHolds(c, x, q, z, k, b - k * t);
  }

  /** A point on one side of a triangle cuts it into two. */
  lemma TriangleSplits(c: Point, p: Point, q: Point, x: Point, t: real, z: Point)
    requires OnSegment(p, q, x, t) && InTriangle(c, p, q, z)
    ensures InTriangle(c, p, x, z) || InTriangle(c, x, q, z)
  {
    var a, b :| Mixes(c, p, q, z, a, b) && a + b <= 1.0;
    if t > 0.0 && a * t >= b * (1.0 - t) {
      InFirstPart(c, p, q, x, t, z, a, b);
    } else {
      InSecondPart(c, p, q, x, t, z, a, b);
    }
  }

  lemma Shifted(p: real, q: real, c: real, t: real)
    ensures p + (q - p) * t - c == (p - c) + ((q - c) - (p - c)) * t
  {
  }

  lemma SegmentTurns(c: Point, p: Point, q: Point, x: Point, t: real)
    requires OnSegment(p, q, x, t) && Cross(c, p, q) >= 0.0
    ensures Cross(c, p, x) >= 0.0 && Cross(c, x, q) >= 0.0
  {
    var px, py, qx, qy := p.x - c.x, p.y - c.y, q.x - c.x, q.y - c.y;
    Shifted(p.x, q.x, c.x, t);
    Shifted(p.y, q.y, c.y, t);
    TurnShares(px, py, qx, qy, t);
    NotNegative(t, Cross(c, p, q));
    NotNegative(1.0 - t, Cross(c, p, q));
  }

  lemma TurnShares(px: real, py: real, qx: real, qy: real, t: real)
    ensures px * (py + (qy - py) * t) - py * (px + (qx - px) * t) == t * (px * qy - py * qx)
    ensures (px + (qx - px) * t) * qy - (py + (qy - py) * t) * qx == (1.0 - t) * (px * qy - py * qx)
  {
    assert px * ((qy - py) * t) == t * (px * qy) - t * (px * py);
    assert py * ((qx - px) * t) == t * (py * qx) - t * (py * px);
    assert ((qx - px) * t) * qy == t * (qx * qy) - t * (px * qy);
    assert ((qy - py) * t) * qx == t * (qy * qx) - t * (py * qx);
  }

  /** The last point emitted, where the walk stands at `at`: the vertex itself, or the crossing it left by. */
  predicate Stands(h: HalfPlane, c: Point, o: Point, at: Point) {
    if Inside(h, at) then o == at else Distance(h, o) == 0.0 && Cross(c, o, at) >= 0.0
  }

  lemma StepOut(h: HalfPlane, c: Point, p: Point, q: Point, z: Point)
    requires Distance(h, c) < 0.0 && Inside(h, p) && !Inside(h, q) && Cross(c, p, q) >= 0.0
    ensures Emitted(h, p, q) == [Cut(h, p, q)] && Stands(h, c, Cut(h, p, q), q) && Cross(c, p, Cut(h, p, q)) >= 0.0
    ensures InTriangle(c, p, q, z) ==> InTriangle(c, p, Cut(h, p, q), z) || InCone(c, Cut(h, p, q), q, z)
  {
    var t := CutIsBetween(h, p, q);
    SegmentTurns(c, p, q, Cut(h, p, q), t);
    if InTriangle(c, p, q, z) { TriangleSplits(c, p, q, Cut(h, p, q), t, z); }
  }

  lemma StepAlong(h: HalfPlane, c: Point, o: Point, p: Point, q: Point, z: Point)
    requires Distance(h, c) < 0.0 && !Inside(h, p) && !Inside(h, q) && Cross(c, p, q) >= 0.0 && Stands(h, c, o, p)
    ensures Emitted(h, p, q) == [] && Stands(h, c, o, q)
    ensures InTriangle(c, p, q, z) || InCone(c, o, p, z) ==> InCone(c, o, q, z)
  {
    ConeWidens(h, c, o, p, q, z);
  }

  lemma StepIn(h: HalfPlane, c: Point, o: Point, p: Point, q: Point, z: Point)
    requires Distance(h, c) < 0.0 && !Inside(h, p) && Inside(h, q) && Cross(c, p, q) >= 0.0 && Stands(h, c, o, p)
    ensures Emitted(h, p, q) == [Cut(h, p, q), q]
    ensures Cross(c, o, Cut(h, p, q)) >= 0.0 && Cross(c, Cut(h, p, q), q) >= 0.0
    ensures Inside(h, z) && (InTriangle(c, p, q, z) || InCone(c, o, p, z)) ==>
              InTriangle(c, o, Cut(h, p, q), z) || InTriangle(c, Cut(h, p, q), q, z)
  {
    var t := CutIsBetween(h, p, q);
    var y := Cut(h, p, q);
    SegmentTurns(c, p, q, y, t);
    if InTriangle(c, p, q, z) { TriangleSplits(c, p, q, y, t, z); }
    ConeWidens(h, c, o, p, y, z);
    if Inside(h, z) && InCone(c, o, y, z) { ConeCutOff(h, c, o, y, z); }
  }

  /** Walking a path that turns left around c gives a path that turns left around c. */
  lemma {:induction false} WalkTurns(h: HalfPlane, c: Point, o: Point, p: Point, points: seq<Point>)
    requires Distance(h, c) < 0.0 && Turns(c, p, points) && Stands(h, c, o, p)
    ensures Turns(c, o, Walked(h, p, points))
    ensures Stands(h, c, Last(o, Walked(h, p, points)), Last(p, points))
    decreases points
  {
    if points != [] {
      var q, rest := points[0], points[1..];
      if Inside(h, p) && Inside(h, q) {
        WalkTurns(h, c, q, q, rest);
      } else if Inside(h, p) {
        StepOut(h, c, p, q, c);
        WalkTurns(h, c, Cut(h, p, q), q, rest);
      } else if Inside(h, q) {
        StepIn(h, c, o, p, q, c);
        WalkTurns(h, c, q, q, rest);
        TurnsConcat(c, o, [Cut(h, p, q), q], Walked(h, q, rest));
      } else {
        StepAlong(h, c, o, p, q, c);
        assert Walked(h, p, points) == Walked(h, q, rest);
        WalkTurns(h, c, o, q, rest);
      }
    }
  }

  /** What the path covers inside the half-plane, the walked path still covers, if it ends inside. */
  lemma {:induction false} WalkCovers(h: HalfPlane, c: Point, o: Point, p: Point, points: seq<Point>, z: Point)
    requires Distance(h, c) < 0.0 && Turns(c, p, points) && Stands(h, c, o, p)
    requires Inside(h, Last(p, points)) && Inside(h, z)
    requires InFan(c, p, points, z) || (!Inside(h, p) && InCone(c, o, p, z))
    ensures InFan(c, o, Walked(h, p, points), z)
    decreases points
  {
    if points != [] {
      var q, rest := points[0], points[1..];
      if Inside(h, p) && Inside(h, q) {
        if !InTriangle(c, p, q, z) { WalkCovers(h, c, q, q, rest, z); }
      } else if Inside(h, p) {
        StepOut(h, c, p, q, z);
        if !InTriangle(c, p, Cut(h, p, q), z) { WalkCovers(h, c, Cut(h, p, q), q, rest, z); }
      } else if Inside(h, q) {
        StepIn(h, c, o, p, q, z);
        InFanConcat(c, o, [Cut(h, p, q), q], Walked(h, q, rest), z);
        if InFan(c, q, rest, z) { WalkCovers(h, c, q, q, rest, z); }
      } else {
        StepAlong(h, c, o, p, q, z);
        assert Walked(h, p, points) == Walked(h, q, rest);
        WalkCovers(h, c, o, q, rest, z);
      }
    }
  }

  // ---- one clip of a whole polygon ----

  lemma WalkEndsInside(h: HalfPlane, start: Point, points: seq<Point>)
    requires points != [] && Inside(h, Last(start, points))
    ensures Walked(h, start, points) != [] && Last(start, Walked(h, start, points)) == Last(start, points)
  {
    var n := |points| - 1;
    assert points == points[..n] + [points[n]];
    WalkedConcat(h, start, points[..n], [points[n]]);
  }

  /** Clipping, started after a vertex that stays. */
  lemma ClippedRotated(h: HalfPlane, points: seq<Point>, k: nat) returns (a: seq<Point>, b: seq<Point>)
    requires k < |points| && Inside(h, points[k])
    ensures Clipped(h, points) == a + b && a != [] && Last(a[0], a) == points[k]
    ensures Walked(h, points[k], points[k + 1..] + points[..k + 1]) == b + a
  {
    var front, back := points[..k + 1], points[k + 1..];
    var e := Last(points[0], points);
    assert front + back == points && Last(points[k], back) == e && Last(e, front) == points[k];
    WalkedConcat(h, e, front, back);
    WalkedConcat(h, points[k], back, front);
    a, b := Walked(h, e, front), Walked(h, points[k], back);
    WalkEndsInside(h, e, front);
  }

  /** A polygon that turns left around c still does, and covers what it covered inside the half-plane. */
  lemma ClipKeepsCover(h: HalfPlane, c: Point, points: seq<Point>, k: nat, z: Point)
    requires Distance(h, c) < 0.0 && TurnsAround(c, points) && k < |points| && Inside(h, points[k])
    ensures TurnsAround(c, Clipped(h, points))
    ensures Covers(c, points, z) && Inside(h, z) ==> Covers(c, Clipped(h, points), z)
  {
    var a, b := ClippedRotated(h, points, k);
    var front, back, v := points[..k + 1], points[k + 1..], points[k];
    assert points == front + back && Last(front[0], front) == v;
    Rotation(c, front, back, z);
    Rotation(c, a, b, z);
    WalkTurns(h, c, v, v, back + front);
    if Covers(c, points, z) && Inside(h, z) {
      assert Last(v, back + front) == v;
      WalkCovers(h, c, v, v, back + front, z);
    }
  }

  /** Every vertex of the clipped polygon lies in the half-plane, and in any other that held them all. */
  lemma {:induction false} WalkStaysInside(h: HalfPlane, other: HalfPlane, start: Point, points: seq<Point>)
    requires Inside(other, start) && forall p :: p in points ==> Inside(other, p)
    ensures forall p :: p in Walked(h, start, points) ==> Inside(h, p) && Inside(other, p)
    decreases points
  {
    if points != [] {
      if Inside(h, start) != Inside(h, points[0]) { CutStaysInside(h, other, start, points[0]); }
      WalkStaysInside(h, other, points[0], points[1..]);
    }
  }

  /** Clipping yields vertices of the half-plane only, leaves every half-plane that held the input holding the
      output, and keeps each vertex that was already inside. */
  lemma ClipStaysInside(h: HalfPlane, other: HalfPlane, points: seq<Point>)
    requires forall p :: p in points ==> Inside(other, p)
    ensures forall p :: p in Clipped(h, points) ==> Inside(h, p) && Inside(other, p)
    ensures forall p :: p in points && Inside(h, p) ==> p in Clipped(h, points)
  {
    if points != [] {
      LastIsVertex(points);
      WalkStaysInside(h, other, Last(points[0], points), points);
      WalkKeepsInside(h, Last(points[0], points), points);
    }
  }

  lemma {:induction false} WalkKeepsInside(h: HalfPlane, start: Point, points: seq<Point>)
    ensures forall p :: p in points && Inside(h, p) ==> p in Walked(h, start, points)
    decreases points
  {
    if points != [] {
      WalkKeepsInside(h, points[0], points[1..]);
      assert points == [points[0]] + points[1..];
    }
  }

  // ---- a polygon and the half-planes it was cut by ----

  ghost predicate Region(planes: seq<HalfPlane>, z: Point) {
    forall h :: h in planes ==> Inside(h, z)
  }

  ghost predicate Within(planes: seq<HalfPlane>, c: Point) {
    forall h :: h in planes ==> Distance(h, c) < 0.0
  }

  /** The polygon is drawn left-handed around c, has no vertex outside the region and covers all of it. */
  ghost predicate Outlines(c: Point, planes: seq<HalfPlane>, polygon: seq<Point>) {
    && Within(planes, c)
    && TurnsAround(c, polygon)
    && (forall p :: p in polygon ==> Region(planes, p))
    && (forall z :: Region(planes, z) ==> Covers(c, polygon, z))
  }

  lemma TriangleStaysInside(h: HalfPlane, c: Point, p: Point, q: Point, z: Point)
    requires Inside(h, c) && Inside(h, p) && Inside(h, q) && InTriangle(c, p, q, z)
    ensures Inside(h, z)
  {
    var a, b :| Mixes(c, p, q, z, a, b) && a + b <= 1.0;
    MixedDistance(h, c, p, q, z, a, b);
    WeightedMean(Distance(h, c), Distance(h, p), Distance(h, q), a, b);
  }

  lemma WeightedMean(dc: real, dp: real, dq: real, a: real, b: real)
    requires dc <= 0.0 && dp <= 0.0 && dq <= 0.0 && a >= 0.0 && b >= 0.0 && a + b <= 1.0
    ensures dc + a * (dp - dc) + b * (dq - dc) <= 0.0
  {
    NotNegative(1.0 - a - b, 0.0 - dc);
    NotNegative(a, 0.0 - dp);
    NotNegative(b, 0.0 - dq);
    assert dc + a * (dp - dc) + b * (dq - dc) == (1.0 - a - b) * dc + a * dp + b * dq;
  }

  lemma {:induction false} FanStaysInside(h: HalfPlane, c: Point, start: Point, points: seq<Point>, z: Point)
    requires Inside(h, c) && Inside(h, start) && (forall p :: p in points ==> Inside(h, p)) && InFan(c, start, points, z)
    ensures Inside(h, z)
    decreases points
  {
    if InTriangle(c, start, points[0], z) {
      TriangleStaysInside(h, c, start, points[0], z);
    } else {
      FanStaysInside(h, c, points[0], points[1..], z);
    }
  }

  /** An outline covers exactly its region. */
  lemma OutlineIsExact(c: Point, planes: seq<HalfPlane>, polygon: seq<Point>, z: Point)
    requires Outlines(c, planes, polygon)
    ensures Covers(c, polygon, z) <==> Region(planes, z)
  {
    if Covers(c, polygon, z) {
      LastIsVertex(polygon);
      forall h | h in planes ensures Inside(h, z) {
        FanStaysInside(h, c, Last(polygon[0], polygon), polygon, z);
      }
    }
  }

  function Step(c: Point, d: Point, s: real): Point {
    Point(c.x + s * d.x, c.y + s * d.y)
  }

  /** The way from c along d stays inside up to e. */
  ghost predicate Clear(h: HalfPlane, c: Point, d: Point, e: real) {
    forall s: real :: 0.0 < s <= e ==> Inside(h, Step(c, d, s))
  }

  /** A little way from a point strictly inside, in any direction, is still inside. */
  lemma {:induction false} Room(planes: seq<HalfPlane>, c: Point, d: Point) returns (e: real)
    requires Within(planes, c)
    ensures e > 0.0 && forall h :: h in planes ==> Clear(h, c, d, e)
    decreases planes
  {
    if planes == [] {
      e := 1.0;
    } else {
      assert forall h :: h in planes[1..] ==> h in planes;
      var rest := Room(planes[1..], c, d);
      var first := RoomInOne(planes[0], c, d);
      e := if rest < first then rest else first;
      forall h | h in planes ensures Clear(h, c, d, e) {
        assert h == planes[0] || h in planes[1..];
      }
    }
  }

  lemma RoomInOne(h: HalfPlane, c: Point, d: Point) returns (e: real)
    requires Distance(h, c) < 0.0
    ensures e > 0.0 && Clear(h, c, d, e)
  {
    var slope := Along(h.normal.x, h.normal.y, d.x, d.y);
    if slope <= 0.0 {
      e := 1.0;
    } else {
      e := (0.0 - Distance(h, c)) / slope;
      Quotients(0.0 - Distance(h, c), slope);
    }
    forall s: real | 0.0 < s <= e ensures Inside(h, Step(c, d, s)) {
      Moved(h, c, d, s);
      Reaches(Distance(h, c), slope, s, e);
    }
  }

  lemma Moved(h: HalfPlane, c: Point, d: Point, s: real)
    ensures Distance(h, Step(c, d, s)) == Distance(h, c) + s * Along(h.normal.x, h.normal.y, d.x, d.y)
  {
    Product(h.normal.x, c.x, s, d.x);
    Product(h.normal.y, c.y, s, d.y);
  }

  lemma Product(n: real, c: real, s: real, d: real)
    ensures n * (c + s * d) == n * c + s * (n * d)
  {
  }

  lemma Reaches(d: real, slope: real, s: real, e: real)
    requires d < 0.0 && 0.0 < s <= e && (slope > 0.0 ==> e == (0.0 - d) / slope)
    ensures d + s * slope <= 0.0
  {
    if slope > 0.0 {
      assert e * slope == 0.0 - d;
      NotNegative(e - s, slope);
    } else {
      NotNegative(s, 0.0 - slope);
    }
  }

  lemma BeyondTriangle(h: HalfPlane, c: Point, p: Point, q: Point, z: Point)
    requires Distance(h, c) < 0.0 && !Inside(h, p) && !Inside(h, q) && InTriangle(c, p, q, z)
    ensures Distance(h, z) >= Distance(h, c)
  {
    var a, b :| Mixes(c, p, q, z, a, b);
    MixedDistance(h, c, p, q, z, a, b);
    NotNegative(a, Distance(h, p) - Distance(h, c));
    NotNegative(b, Distance(h, q) - Distance(h, c));
  }

  /** If every vertex lies beyond the boundary, nothing covered lies farther inside than c does. */
  lemma {:induction false} BeyondCoversNothingBehind(h: HalfPlane, c: Point, start: Point, points: seq<Point>, z: Point)
    requires Distance(h, c) < 0.0 && !Inside(h, start) && (forall p :: p in points ==> !Inside(h, p))
    requires InFan(c, start, points, z)
    ensures Distance(h, z) >= Distance(h, c)
    decreases points
  {
    if InTriangle(c, start, points[0], z) {
      BeyondTriangle(h, c, start, points[0], z);
    } else {
      BeyondCoversNothingBehind(h, c, points[0], points[1..], z);
    }
  }

  lemma LastIsVertex(polygon: seq<Point>)
    requires polygon != []
    ensures Last(polygon[0], polygon) in polygon
  {
  }

  lemma SomeVertexStays(h: HalfPlane, c: Point, planes: seq<HalfPlane>, polygon: seq<Point>)
    requires Outlines(c, planes, polygon) && Distance(h, c) < 0.0
    ensures exists p :: p in polygon && Inside(h, p)
  {
    LastIsVertex(polygon);
    var d := Point(0.0 - h.normal.x, 0.0 - h.normal.y);
    var e := Room(planes, c, d);
    var z := Step(c, d, e);
    assert Region(planes, z) by {
      forall g | g in planes ensures Inside(g, z) { assert Clear(g, c, d, e); }
    }
    Backwards(h, c, d, e);
    if forall p :: p in polygon ==> !Inside(h, p) {
      BeyondCoversNothingBehind(h, c, Last(polygon[0], polygon), polygon, z);
      assert false;
    }
  }

  /** Against its normal, one gets farther inside a half-plane. */
  lemma Backwards(h: HalfPlane, c: Point, d: Point, e: real)
    requires e > 0.0 && d == Point(0.0 - h.normal.x, 0.0 - h.normal.y)
    ensures h.normal == Point(0.0, 0.0) || Distance(h, Step(c, d, e)) < Distance(h, c)
  {
    Moved(h, c, d, e);
    if h.normal != Point(0.0, 0.0) {
      NormIsPositive(h.normal.x, h.normal.y);
      Opposite(h.normal.x, h.normal.y, d.x, d.y);
      Negative(e, Along(h.normal.x, h.normal.y, d.x, d.y));
    }
  }

  lemma Opposite(nx: real, ny: real, dx: real, dy: real)
    requires dx == 0.0 - nx && dy == 0.0 - ny
    ensures Along(nx, ny, dx, dy) == 0.0 - Norm(nx, ny)
  {
  }

  /** Clipping an outline by a half-plane that strictly holds the site gives the outline of the smaller region. */
  lemma ClipKeepsOutline(h: HalfPlane, c: Point, planes: seq<HalfPlane>, polygon: seq<Point>)
    requires Outlines(c, planes, polygon) && Distance(h, c) < 0.0
    ensures Outlines(c, planes + [h], Clipped(h, polygon))
  {
    SomeVertexStays(h, c, planes, polygon);
    var k :| 0 <= k < |polygon| && Inside(h, polygon[k]);
    LastIsVertex(polygon);
    ClipKeepsCover(h, c, polygon, k, c);
    forall other | other in planes + [h]
      ensures forall p :: p in Clipped(h, polygon) ==> Inside(other, p)
    {
      if other in planes {
        WalkStaysInside(h, other, Last(polygon[0], polygon), polygon);
      } else {
        var all := HalfPlane(Point(0.0, 0.0), 0.0);
        WalkStaysInside(h, all, Last(polygon[0], polygon), polygon);
      }
    }
    forall z | Region(planes + [h], z) ensures Covers(c, Clipped(h, polygon), z) {
      assert h in planes + [h];
      assert Region(planes, z) by {
        forall other | other in planes ensures Inside(other, z) { assert other in planes + [h]; }
      }
      ClipKeepsCover(h, c, polygon, k, z);
    }
  }

  // ---- the cell of one site ----

  /** Where a slot's site lies within the slot: two numbers in [0, 1). */
  datatype Jitter = Jitter(u: real, v: real)

  /** The grid: the side of one slot, each slot's jitter, and which slots hold a site. */
  datatype Field = Field(step: real, jitter: (int, int) -> Jitter, live: (int, int) -> bool)

  predicate InUnit(j: Jitter) {
    0.0 <= j.u < 1.0 && 0.0 <= j.v < 1.0
  }

  ghost predicate Sound(f: Field) {
    f.step > 0.0 && forall row: int, column: int :: InUnit(f.jitter(row, column))
  }

  function Place(slot: int, jitter: real, step: real): real {
    (slot as real + 0.04 + jitter * 0.92) * step
  }

  function Site(f: Field, row: int, column: int): Point {
    Point(Place(column, f.jitter(row, column).u, f.step), Place(row, f.jitter(row, column).v, f.step))
  }

  /** The half-plane of the points at least as close to `center` as to `other`. */
  function Bisector(center: Point, other: Point): HalfPlane {
    var normal := Point(other.x - center.x, other.y - center.y);
    var midpoint := Point((other.x + center.x) / 2.0, (other.y + center.y) / 2.0);
    HalfPlane(normal, normal.x * midpoint.x + normal.y * midpoint.y)
  }

  function Apart(p: Point, q: Point): real {
    Norm(p.x - q.x, p.y - q.y)
  }

  lemma BisectorMeansCloser(center: Point, other: Point, z: Point)
    ensures 2.0 * Distance(Bisector(center, other), z) == Apart(z, center) - Apart(z, other)
    ensures Inside(Bisector(center, other), z) <==> Apart(z, center) <= Apart(z, other)
  {
    OneAxis(center.x, other.x, z.x);
    OneAxis(center.y, other.y, z.y);
  }

  lemma OneAxis(c: real, o: real, z: real)
    ensures 2.0 * ((o - c) * z - (o - c) * ((o + c) / 2.0)) == Times(z - c, z - c) - Times(z - o, z - o)
  {
    assert (o - c) * ((o + c) / 2.0) * 2.0 == (o - c) * (o + c);
  }

  lemma DistinctAreApart(p: Point, q: Point)
    requires p != q
    ensures Apart(p, q) > 0.0 && Apart(p, p) == 0.0
  {
    NormIsPositive(p.x - q.x, p.y - q.y);
  }

  /** A site stands in its own slot, at least a twenty-fifth of the slot's side away from every edge of it, and the jitter
      takes it evenly from one end of what is left to the other. */
  lemma PlaceExactly(slot: int, jitter: real, step: real)
    requires step > 0.0 && 0.0 <= jitter < 1.0
    ensures Place(slot, 0.0, step) == (slot as real + 0.04) * step
    ensures Place(slot, jitter, step) - Place(slot, 0.0, step) == jitter * (0.92 * step)
    ensures (slot as real + 0.04) * step <= Place(slot, jitter, step) < (slot as real + 0.96) * step
  {
    var a, b := slot as real + 0.04, jitter * 0.92;
    assert (a + b) * step == a * step + b * step;
    assert b * step == jitter * (0.92 * step);
    Scaled(0.0, b, 0.92, step);
    assert (slot as real + 0.96) * step == a * step + 0.92 * step;
  }

  lemma Scaled(low: real, x: real, high: real, step: real)
    requires step > 0.0 && low <= x < high
    ensures low * step <= x * step < high * step
  {
  }

  /** Sites of different slots differ, so each bisector strictly holds its own site. */
  lemma SitesDiffer(f: Field, row: int, column: int, dy: int, dx: int)
    requires Sound(f) && (dx != 0 || dy != 0)
    ensures Site(f, row + dy, column + dx) != Site(f, row, column)
  {
    var own, other := f.jitter(row, column), f.jitter(row + dy, column + dx);
    assert InUnit(own) && InUnit(other);
    if dx != 0 {
      SlotsDiffer(column, column + dx, own.u, other.u, f.step);
    } else {
      SlotsDiffer(row, row + dy, own.v, other.v, f.step);
    }
  }

  lemma BisectorHoldsOwnSite(c: Point, o: Point)
    requires c != o
    ensures Distance(Bisector(c, o), c) < 0.0
  {
    BisectorMeansCloser(c, o, c);
    DistinctAreApart(c, o);
  }

  lemma SlotsDiffer(i: int, j: int, u: real, v: real, step: real)
    requires i != j && 0.0 <= u < 1.0 && 0.0 <= v < 1.0 && step > 0.0
    ensures Place(i, u, step) != Place(j, v, step)
  {
    var a, b := i as real + 0.04 + u * 0.92, j as real + 0.04 + v * 0.92;
    assert a != b by { if i < j { assert i as real <= j as real - 1.0; } else { assert j as real <= i as real - 1.0; } }
    if a * step == b * step { Cancel(a, b, step); }
  }

  function Corners(c: Point, reach: real): seq<Point> {
    [Point(c.x - reach, c.y - reach), Point(c.x + reach, c.y - reach),
     Point(c.x + reach, c.y + reach), Point(c.x - reach, c.y + reach)]
  }

  function Sides(c: Point, reach: real): seq<HalfPlane> {
    [HalfPlane(Point(1.0, 0.0), c.x + reach), HalfPlane(Point(-1.0, 0.0), reach - c.x),
     HalfPlane(Point(0.0, 1.0), c.y + reach), HalfPlane(Point(0.0, -1.0), reach - c.y)]
  }

  predicate Near(c: Point, reach: real, z: Point) {
    c.x - reach <= z.x <= c.x + reach && c.y - reach <= z.y <= c.y + reach
  }

  lemma SidesAreNear(c: Point, reach: real, z: Point)
    ensures Region(Sides(c, reach), z) <==> Near(c, reach, z)
  {
    var s := Sides(c, reach);
    assert s[0] in s && s[1] in s && s[2] in s && s[3] in s;
  }

  /** Half the sum and half the difference of two coordinates, in units of the reach. */
  lemma Halves(u: real, v: real, r: real) returns (a: real, b: real)
    requires r > 0.0 && 0.0 <= u <= r && 0.0 - u <= v <= u
    ensures a >= 0.0 && b >= 0.0 && a + b <= 1.0 && a * r + b * r == u && b * r - a * r == v
  {
    a, b := ((u - v) / 2.0) / r, ((u + v) / 2.0) / r;
    Quotients((u - v) / 2.0, r);
    Quotients((u + v) / 2.0, r);
    assert a * r == (u - v) / 2.0 && b * r == (u + v) / 2.0;
    assert (a + b) * r == u;
    Factor(1.0 - a - b, r);
  }

  lemma FourEdges(c: Point, s: seq<Point>, z: Point)
    requires |s| == 4
    ensures Covers(c, s, z) <==> InTriangle(c, s[3], s[0], z) || InTriangle(c, s[0], s[1], z)
                                 || InTriangle(c, s[1], s[2], z) || InTriangle(c, s[2], s[3], z)
    ensures TurnsAround(c, s) <==> Cross(c, s[3], s[0]) >= 0.0 && Cross(c, s[0], s[1]) >= 0.0
                                   && Cross(c, s[1], s[2]) >= 0.0 && Cross(c, s[2], s[3]) >= 0.0
  {
    assert s[1..][0] == s[1] && s[1..][1..][0] == s[2] && s[1..][1..][1..][0] == s[3];
    assert s[1..][1..][1..][1..] == [];
    var a, b := s[1..][1..], s[1..];
    assert a[1..] == [s[3]] && [s[3]][1..] == [];
    assert InFan(c, s[2], [s[3]], z) <==> InTriangle(c, s[2], s[3], z);
    assert Turns(c, s[2], [s[3]]) <==> Cross(c, s[2], s[3]) >= 0.0;
    assert InFan(c, s[1], a, z) <==> InTriangle(c, s[1], s[2], z) || InTriangle(c, s[2], s[3], z);
    assert InFan(c, s[0], b, z) <==> InTriangle(c, s[0], s[1], z) || InFan(c, s[1], a, z);
    assert Turns(c, s[1], a) <==> Cross(c, s[1], s[2]) >= 0.0 && Cross(c, s[2], s[3]) >= 0.0;
    assert Turns(c, s[0], b) <==> Cross(c, s[0], s[1]) >= 0.0 && Turns(c, s[1], a);
  }

  lemma QuarterLeft(c: Point, r: real, z: Point)
    requires r > 0.0 && Near(c, r, z) && c.x - z.x >= z.y - c.y >= z.x - c.x
    ensures InTriangle(c, Point(c.x - r, c.y + r), Point(c.x - r, c.y - r), z)
  {
    var a, b := Halves(c.x - z.x, c.y - z.y, r);
    ConeHolds(c, Point(c.x - r, c.y + r), Point(c.x - r, c.y - r), z, a, b);
  }

  lemma QuarterBelow(c: Point, r: real, z: Point)
    requires r > 0.0 && Near(c, r, z) && c.y - z.y >= z.x - c.x >= z.y - c.y
    ensures InTriangle(c, Point(c.x - r, c.y - r), Point(c.x + r, c.y - r), z)
  {
    var a, b := Halves(c.y - z.y, z.x - c.x, r);
    ConeHolds(c, Point(c.x - r, c.y - r), Point(c.x + r, c.y - r), z, a, b);
  }

  lemma QuarterRight(c: Point, r: real, z: Point)
    requires r > 0.0 && Near(c, r, z) && z.x - c.x >= z.y - c.y >= c.x - z.x
    ensures InTriangle(c, Point(c.x + r, c.y - r), Point(c.x + r, c.y + r), z)
  {
    var a, b := Halves(z.x - c.x, z.y - c.y, r);
    ConeHolds(c, Point(c.x + r, c.y - r), Point(c.x + r, c.y + r), z, a, b);
  }

  lemma QuarterAbove(c: Point, r: real, z: Point)
    requires r > 0.0 && Near(c, r, z) && z.y - c.y >= z.x - c.x >= c.y - z.y
    ensures InTriangle(c, Point(c.x + r, c.y + r), Point(c.x - r, c.y + r), z)
  {
    var a, b := Halves(z.y - c.y, c.x - z.x, r);
    ConeHolds(c, Point(c.x + r, c.y + r), Point(c.x - r, c.y + r), z, a, b);
  }

  /** Each quarter of the square is the triangle of one edge. */
  lemma SquareIsCovered(c: Point, reach: real, z: Point)
    requires reach > 0.0 && Near(c, reach, z)
    ensures Covers(c, Corners(c, reach), z)
  {
    FourEdges(c, Corners(c, reach), z);
    if c.x - z.x >= z.y - c.y >= z.x - c.x {
      QuarterLeft(c, reach, z);
    } else if c.y - z.y >= z.x - c.x >= z.y - c.y {
      QuarterBelow(c, reach, z);
    } else if z.x - c.x >= z.y - c.y >= c.x - z.x {
      QuarterRight(c, reach, z);
    } else {
      QuarterAbove(c, reach, z);
    }
  }

  lemma SquareTurns(c: Point, reach: real)
    requires reach > 0.0
    ensures TurnsAround(c, Corners(c, reach))
  {
    var s := Corners(c, reach);
    FourEdges(c, s, c);
    Positive(reach, reach);
    assert Cross(c, s[3], s[0]) == 2.0 * (reach * reach);
    assert Cross(c, s[0], s[1]) == 2.0 * (reach * reach);
    assert Cross(c, s[1], s[2]) == 2.0 * (reach * reach);
    assert Cross(c, s[2], s[3]) == 2.0 * (reach * reach);
  }

  lemma SquareIsOutline(c: Point, reach: real)
    requires reach > 0.0
    ensures Outlines(c, Sides(c, reach), Corners(c, reach))
  {
    SquareTurns(c, reach);
    forall p | p in Corners(c, reach) ensures Region(Sides(c, reach), p) { SidesAreNear(c, reach, p); }
    forall z | Region(Sides(c, reach), z) ensures Covers(c, Corners(c, reach), z) {
      SidesAreNear(c, reach, z);
      SquareIsCovered(c, reach, z);
    }
  }

  const SPAN := 5

  predicate Competes(f: Field, row: int, column: int, dy: int, dx: int) {
    (dx != 0 || dy != 0) && f.live(row + dy, column + dx)
  }

  /** The bisectors met by the inner loop before it reaches `stop`. */
  function RowPlanes(f: Field, row: int, column: int, dy: int, stop: int): seq<HalfPlane>
    requires stop >= 0 - SPAN
    decreases stop + SPAN
  {
    if stop == 0 - SPAN then [] else
      RowPlanes(f, row, column, dy, stop - 1)
      + if Competes(f, row, column, dy, stop - 1)
        then [Bisector(Site(f, row, column), Site(f, row + dy, column + stop - 1))] else []
  }

  /** The sides of the starting square and the bisectors met by the outer loop before it reaches `stop`. */
  function CellPlanes(f: Field, row: int, column: int, stop: int): seq<HalfPlane>
    requires stop >= 0 - SPAN
    decreases stop + SPAN
  {
    if stop == 0 - SPAN then Sides(Site(f, row, column), f.step * 5.0)
    else CellPlanes(f, row, column, stop - 1) + RowPlanes(f, row, column, stop - 1, SPAN + 1)
  }

  /** At least as close to the cell's own site as to the site of a neighbouring slot, if it has one. */
  predicate Prefers(f: Field, row: int, column: int, dy: int, dx: int, z: Point) {
    Competes(f, row, column, dy, dx) ==>
      Apart(z, Site(f, row, column)) <= Apart(z, Site(f, row + dy, column + dx))
  }

  ghost predicate InCell(f: Field, row: int, column: int, z: Point) {
    && Near(Site(f, row, column), f.step * 5.0, z)
    && forall dy: int, dx: int :: -5 <= dy <= 5 && -5 <= dx <= 5 ==> Prefers(f, row, column, dy, dx, z)
  }

  lemma ApartExactly(p: Point, q: Point)
    ensures Apart(p, q) == (p.x - q.x) * (p.x - q.x) + (p.y - q.y) * (p.y - q.y)
  {
  }

  /** What a neighbour takes away: the points strictly closer to its own site, and only if it is another slot and holds a
      site. */
  lemma PrefersExactly(f: Field, row: int, column: int, dy: int, dx: int, z: Point)
    ensures Prefers(f, row, column, dy, dx, z) <==>
              || (dx == 0 && dy == 0) || !f.live(row + dy, column + dx)
              || Apart(z, Site(f, row, column)) <= Apart(z, Site(f, row + dy, column + dx))
  {
  }

  /** The square a cell is cut from reaches five slots to each side of its site. */
  lemma NearExactly(c: Point, step: real, z: Point)
    ensures Near(c, step * 5.0, z) <==> && c.x - 5.0 * step <= z.x <= c.x + 5.0 * step
                                        && c.y - 5.0 * step <= z.y <= c.y + 5.0 * step
  {
  }

  lemma RegionConcat(a: seq<HalfPlane>, b: seq<HalfPlane>, z: Point)
    ensures Region(a + b, z) <==> Region(a, z) && Region(b, z)
  {
    assert forall h :: h in a + b <==> h in a || h in b;
  }

  lemma RegionOne(h: HalfPlane, z: Point)
    ensures Region([h], z) <==> Inside(h, z)
  {
    assert h in [h];
  }

  ghost predicate PrefersInRow(f: Field, row: int, column: int, dy: int, stop: int, z: Point) {
    forall dx: int :: 0 - SPAN <= dx < stop ==> Prefers(f, row, column, dy, dx, z)
  }

  ghost predicate PrefersWholeRow(f: Field, row: int, column: int, dy: int, z: Point) {
    PrefersInRow(f, row, column, dy, SPAN + 1, z)
  }

  ghost predicate PrefersInRows(f: Field, row: int, column: int, stop: int, z: Point) {
    forall dy: int :: 0 - SPAN <= dy < stop ==> PrefersWholeRow(f, row, column, dy, z)
  }

  lemma RowStep(f: Field, row: int, column: int, dy: int, dx: int, z: Point)
    requires dx >= 0 - SPAN
    ensures Region(RowPlanes(f, row, column, dy, dx + 1), z) <==>
            Region(RowPlanes(f, row, column, dy, dx), z) && Prefers(f, row, column, dy, dx, z)
  {
    var h := Bisector(Site(f, row, column), Site(f, row + dy, column + dx));
    var rest := RowPlanes(f, row, column, dy, dx);
    BisectorMeansCloser(Site(f, row, column), Site(f, row + dy, column + dx), z);
    if Competes(f, row, column, dy, dx) {
      RegionOne(h, z);
      RegionConcat(rest, [h], z);
    } else {
      assert rest + [] == rest;
    }
  }

  lemma {:induction false} RowRegion(f: Field, row: int, column: int, dy: int, stop: int, z: Point)
    requires stop >= 0 - SPAN
    ensures Region(RowPlanes(f, row, column, dy, stop), z) <==> PrefersInRow(f, row, column, dy, stop, z)
    decreases stop + SPAN
  {
    if stop > 0 - SPAN {
      RowRegion(f, row, column, dy, stop - 1, z);
      RowStep(f, row, column, dy, stop - 1, z);
    }
  }

  lemma RowsStep(f: Field, row: int, column: int, dy: int, z: Point)
    requires dy >= 0 - SPAN
    ensures PrefersInRows(f, row, column, dy + 1, z) <==>
            PrefersInRows(f, row, column, dy, z) && PrefersWholeRow(f, row, column, dy, z)
  {
  }

  lemma {:induction false} CellRegion(f: Field, row: int, column: int, stop: int, z: Point)
    requires stop >= 0 - SPAN
    ensures Region(CellPlanes(f, row, column, stop), z) <==>
            Near(Site(f, row, column), f.step * 5.0, z) && PrefersInRows(f, row, column, stop, z)
    decreases stop + SPAN
  {
    if stop == 0 - SPAN {
      SidesAreNear(Site(f, row, column), f.step * 5.0, z);
    } else {
      var dy := stop - 1;
      CellRegion(f, row, column, dy, z);
      RowRegion(f, row, column, dy, SPAN + 1, z);
      RegionConcat(CellPlanes(f, row, column, dy), RowPlanes(f, row, column, dy, SPAN + 1), z);
      RowsStep(f, row, column, dy, z);
    }
  }

  lemma RowsAreCell(f: Field, row: int, column: int, z: Point)
    ensures InCell(f, row, column, z) <==>
            Near(Site(f, row, column), f.step * 5.0, z) && PrefersInRows(f, row, column, SPAN + 1, z)
  {
    if PrefersInRows(f, row, column, SPAN + 1, z) {
      forall dy: int, dx: int | 0 - SPAN <= dy <= SPAN && 0 - SPAN <= dx <= SPAN
        ensures Prefers(f, row, column, dy, dx, z)
      {
        assert PrefersWholeRow(f, row, column, dy, z);
      }
    }
  }

  /** The outline after the inner loop's step, whether or not the slot holds a site. */
  predicate Clips(f: Field, row: int, column: int, dy: int, dx: int, polygon: seq<Point>, next: seq<Point>) {
    next == if Competes(f, row, column, dy, dx)
            then Clipped(Bisector(Site(f, row, column), Site(f, row + dy, column + dx)), polygon) else polygon
  }

  lemma StepKeepsOutline(f: Field, row: int, column: int, dy: int, dx: int, before: seq<HalfPlane>,
                         polygon: seq<Point>, next: seq<Point>)
    requires Sound(f) && dx >= 0 - SPAN && Clips(f, row, column, dy, dx, polygon, next)
    requires Outlines(Site(f, row, column), before + RowPlanes(f, row, column, dy, dx), polygon)
    ensures Outlines(Site(f, row, column), before + RowPlanes(f, row, column, dy, dx + 1), next)
  {
    var rest := RowPlanes(f, row, column, dy, dx);
    if Competes(f, row, column, dy, dx) {
      var center, other := Site(f, row, column), Site(f, row + dy, column + dx);
      SitesDiffer(f, row, column, dy, dx);
      BisectorHoldsOwnSite(center, other);
      ClipKeepsOutline(Bisector(center, other), center, before + rest, polygon);
      assert (before + rest) + [Bisector(center, other)] == before + (rest + [Bisector(center, other)]);
    } else {
      assert rest + [] == rest;
    }
  }

  lemma OutlineIsCell(f: Field, row: int, column: int, polygon: seq<Point>)
    requires Outlines(Site(f, row, column), CellPlanes(f, row, column, SPAN + 1), polygon)
    ensures TurnsAround(Site(f, row, column), polygon)
    ensures forall p :: p in polygon ==> InCell(f, row, column, p)
    ensures forall z :: Covers(Site(f, row, column), polygon, z) <==> InCell(f, row, column, z)
  {
    var planes := CellPlanes(f, row, column, SPAN + 1);
    forall z
      ensures Region(planes, z) <==> InCell(f, row, column, z)
      ensures Covers(Site(f, row, column), polygon, z) <==> InCell(f, row, column, z)
    {
      OutlineIsExact(Site(f, row, column), planes, polygon, z);
      CellRegion(f, row, column, SPAN + 1, z);
      RowsAreCell(f, row, column, z);
    }
  }

  /** The cell's polygon, from the square clipped by every bisector in turn. The polygon covers exactly the
      points of the square at least as close to the site as to every neighbouring site, winds left-handed
      around the site, and has every vertex in the cell. */
  method Cell(f: Field, row: int, column: int) returns (polygon: seq<Point>)
    requires Sound(f)
    ensures TurnsAround(Site(f, row, column), polygon)
    ensures forall p :: p in polygon ==> InCell(f, row, column, p)
    ensures forall z :: Covers(Site(f, row, column), polygon, z) <==> InCell(f, row, column, z)
  {
    var center := Site(f, row, column);
    var reach := f.step * 5.0;
    polygon := [Point(center.x - reach, center.y - reach), Point(center.x + reach, center.y - reach),
                Point(center.x + reach, center.y + reach), Point(center.x - reach, center.y + reach)];
    SquareIsOutline(center, reach);
    for dy := 0 - SPAN to SPAN + 1
      invariant Outlines(center, CellPlanes(f, row, column, dy), polygon)
    {
      ghost var before := CellPlanes(f, row, column, dy);
      assert before + [] == before;
      for dx := 0 - SPAN to SPAN + 1
        invariant Outlines(center, before + RowPlanes(f, row, column, dy, dx), polygon)
      {
        ghost var previous := polygon;
        if Competes(f, row, column, dy, dx) {
          var other := Site(f, row + dy, column + dx);
          polygon := Clip(polygon, Bisector(center, other));
        }
        StepKeepsOutline(f, row, column, dy, dx, before, previous, polygon);
      }
    }
    OutlineIsCell(f, row, column, polygon);
  }
}

/**
 * The geometry primitives of src/geometry: `Vec2`, `Circle` and `Arc` as values.
 * Every operation of the source computes a fresh object, so each becomes a
 * datatype member function.
 *
 * Coordinates are exact reals. `Math.sqrt`, `Math.atan2` and `Math.PI` cannot be
 * computed exactly, so the model takes them as a `MathLib` value; `Lawful`
 * states the facts about them that the proofs rely on.
 */
module Geometry {
  import opened Wrappers

  /** The three members of JavaScript's `Math` the source calls. */
  datatype MathLib = MathLib(sqrt: real -> real, atan2: (real, real) -> real, pi: real)

  /** The range facts of the real square root, arc tangent and pi. */
  ghost predicate Lawful(m: MathLib) {
    && 3.14159 < m.pi < 3.1416
    && (forall x: real :: 0.0 <= x ==> 0.0 <= m.sqrt(x) && m.sqrt(x) * m.sqrt(x) == x)
    && (forall y: real, x: real :: -m.pi < m.atan2(y, x) <= m.pi)
    // Turning a non-zero vector by half a turn moves its arc tangent by pi.
    && (forall y: real, x: real :: (y != 0.0 || x != 0.0) ==>
          m.atan2(-y, -x) == if m.atan2(y, x) > 0.0 then m.atan2(y, x) - m.pi else m.atan2(y, x) + m.pi)
  }

  lemma SqrtOfSquare(m: MathLib, x: real)
    requires Lawful(m) && 0.0 <= x
    ensures m.sqrt(x * x) == x
  {
    var s := m.sqrt(x * x);
    assert 0.0 <= s && s * s == x * x;
    if s != x {
      SquareStrictlyMonotone(if s < x then s else x, if s < x then x else s);
    }
  }

  lemma SquareStrictlyMonotone(a: real, b: real)
    requires 0.0 <= a < b
    ensures a * a < b * b
  {
    var e := b - a;
    assert b * b == a * a + 2.0 * a * e + e * e;
    assert e * e > 0.0;
    assert a * e >= 0.0;
  }

  function Abs(x: real): real {
    if x < 0.0 then -x else x
  }

  datatype Vec2 = Vec2(x: real, y: real) {

    function Sub(v: Vec2): Vec2 {
      Vec2(x - v.x, y - v.y)
    }

    function Add(v: Vec2): Vec2 {
      Vec2(x + v.x, y + v.y)
    }

    function Scale(s: real): Vec2 {
      Vec2(x * s, y * s)
    }

    /** Squared Euclidean distance: what `distance` takes the square root of. */
    function SquaredDistance(v: Vec2): real {
      (x - v.x) * (x - v.x) + (y - v.y) * (y - v.y)
    }

    function Distance(m: MathLib, v: Vec2): real {
      m.sqrt(SquaredDistance(v))
    }

    /** The angle turned from this vector to `v`, in [0, 2 pi). */
    function Angle(m: MathLib, v: Vec2): real {
      var result := m.atan2(v.y, v.x) - m.atan2(y, x);
      if result < 0.0 then result + 2.0 * m.pi else result
    }

    function Magnitude(m: MathLib): real {
      m.sqrt(x * x + y * y)
    }

    function Dot(v: Vec2): real {
      x * v.x + y * v.y
    }

    function Neg(): Vec2 {
      Vec2(-x, -y)
    }
  }

  const Origin := Vec2(0.0, 0.0)

  /** `new Vec2(0, -1)`: the reference direction of every arc angle. */
  const Up := Vec2(0.0, -1.0)

  lemma {:induction false} SubAddRoundTrip(a: Vec2, b: Vec2)
    ensures a.Sub(b).Add(b) == a
  {
  }

  lemma ScaleByOne(a: Vec2)
    ensures a.Scale(1.0) == a
  {
  }

  lemma DistanceSymmetric(m: MathLib, a: Vec2, b: Vec2)
    ensures a.Distance(m, b) == b.Distance(m, a)
  {
    assert a.SquaredDistance(b) == b.SquaredDistance(a);
  }

  lemma DistanceToSelf(m: MathLib, a: Vec2)
    requires Lawful(m)
    ensures a.Distance(m, a) == 0.0
  {
    assert a.SquaredDistance(a) == 0.0 * 0.0;
    SqrtOfSquare(m, 0.0);
  }

  lemma MagnitudeIsDistanceToOrigin(m: MathLib, a: Vec2)
    ensures a.Magnitude(m) == a.Distance(m, Origin)
  {
    assert a.SquaredDistance(Origin) == a.x * a.x + a.y * a.y;
  }

  lemma AngleRange(m: MathLib, a: Vec2, v: Vec2)
    requires Lawful(m)
    ensures 0.0 <= a.Angle(m, v) < 2.0 * m.pi
  {
    assert -m.pi < m.atan2(v.y, v.x) <= m.pi;
    assert -m.pi < m.atan2(a.y, a.x) <= m.pi;
  }

  lemma AngleToSelf(m: MathLib, a: Vec2)
    ensures a.Angle(m, a) == 0.0
  {
  }

  /** The angle of the opposite direction, half a turn further round. */
  function Opposite(m: MathLib, angle: real): real {
    if angle < m.pi then angle + m.pi else angle - m.pi
  }

  /** Seen from `p` towards `c`, the angle is half a turn from the one seen from `c` towards `p`. */
  lemma AngleOfReverse(m: MathLib, a: Vec2, p: Vec2, c: Vec2)
    requires Lawful(m) && p != c
    ensures a.Angle(m, c.Sub(p)) == Opposite(m, a.Angle(m, p.Sub(c)))
  {
    var v := p.Sub(c);
    assert v.x != 0.0 || v.y != 0.0;
    assert c.Sub(p) == v.Neg();
    AngleOfOpposite(m, a, v);
  }

  lemma AngleOfOpposite(m: MathLib, a: Vec2, v: Vec2)
    requires Lawful(m) && v != Origin
    ensures a.Angle(m, v.Neg()) == Opposite(m, a.Angle(m, v))
  {
    assert v.y != 0.0 || v.x != 0.0;
    var t := m.atan2(v.y, v.x);
    assert m.atan2(-v.y, -v.x) == if t > 0.0 then t - m.pi else t + m.pi;
    AngleRange(m, a, v);
    AngleRange(m, a, v.Neg());
  }

  datatype Circle = Circle(center: Vec2, radius: real) {

    /** The test of paulbourke.net/geometry/circlesphere: neither apart nor nested. */
    function Intersects(m: MathLib, other: Circle): bool {
      var distance := center.Distance(m, other.center);
      if distance > radius + other.radius then false
      else if distance < Abs(radius - other.radius) then false
      else true
    }

    /**
     * The two crossing points of the circle boundaries. `None` stands for the
     * NaN points the source computes when the centres coincide (it divides by
     * the centre distance).
     */
    function IntersectionPoints(m: MathLib, other: Circle): Option<(Vec2, Vec2)> {
      var d := center.Distance(m, other.center);
      if d == 0.0 then None
      else
        var h := HalfChord(m, other);
        var p2 := ChordMidpoint(m, other);
        Some((CrossingPoint(center, other.center, p2, d, h), CrossingPoint(center, other.center, p2, d, -h)))
    }

    /** The boundary of the circle passes through `p`. */
    predicate Through(p: Vec2) {
      p.SquaredDistance(center) == radius * radius
    }

    /** `a`: the distance from this centre to the chord, along the centre line. */
    function ChordOffset(m: MathLib, other: Circle): real
      requires center.Distance(m, other.center) != 0.0
    {
      var d := center.Distance(m, other.center);
      (radius * radius - other.radius * other.radius + d * d) / (2.0 * d)
    }

    /** `h`: half the length of the common chord. */
    function HalfChord(m: MathLib, other: Circle): real
      requires center.Distance(m, other.center) != 0.0
    {
      var a := ChordOffset(m, other);
      m.sqrt(radius * radius - a * a)
    }

    /** `P2`: the midpoint of the common chord, on the centre line. */
    function ChordMidpoint(m: MathLib, other: Circle): Vec2
      requires center.Distance(m, other.center) != 0.0
    {
      var d := center.Distance(m, other.center);
      other.center.Sub(center).Scale(ChordOffset(m, other) / d).Add(center)
    }
  }

  /**
   * `(x3, y3)` for `k = h` and `(x4, y4)` for `k = -h`: the point `k` across
   * the centre line from `p0` to `p1` (length `d`), seen from the chord midpoint `p2`.
   */
  function CrossingPoint(p0: Vec2, p1: Vec2, p2: Vec2, d: real, k: real): Vec2
    requires d != 0.0
  {
    Vec2(p2.x + k * (p1.y - p0.y) / d, p2.y - k * (p1.x - p0.x) / d)
  }

  /** A segment of a contour: a circle arc from `startAngle` to `endAngle`. */
  datatype Arc = Arc(center: Vec2, startAngle: real, endAngle: real, radius: real)

  lemma IntersectsSymmetric(m: MathLib, a: Circle, b: Circle)
    ensures a.Intersects(m, b) == b.Intersects(m, a)
  {
    DistanceSymmetric(m, a.center, b.center);
  }

  lemma SqrtMonotone(m: MathLib, x: real, y: real)
    requires Lawful(m) && 0.0 <= x && 0.0 <= y
    ensures x < y <==> m.sqrt(x) < m.sqrt(y)
  {
    var sx, sy := m.sqrt(x), m.sqrt(y);
    assert 0.0 <= sx && sx * sx == x;
    assert 0.0 <= sy && sy * sy == y;
    if sx < sy {
      SquareStrictlyMonotone(sx, sy);
    } else if sy < sx {
      SquareStrictlyMonotone(sy, sx);
    }
  }

  /**
   * Two circles with non-negative radii intersect exactly when the squared
   * centre distance lies between the squared difference and the squared sum of
   * the radii: a statement free of square roots.
   */
  lemma IntersectsBySquares(m: MathLib, a: Circle, b: Circle)
    requires Lawful(m) && 0.0 <= a.radius && 0.0 <= b.radius
    ensures a.Intersects(m, b) <==>
      (a.radius - b.radius) * (a.radius - b.radius) <= a.center.SquaredDistance(b.center)
                                                    <= (a.radius + b.radius) * (a.radius + b.radius)
  {
    var sd := a.center.SquaredDistance(b.center);
    var sum := a.radius + b.radius;
    var diff := Abs(a.radius - b.radius);
    assert diff * diff == (a.radius - b.radius) * (a.radius - b.radius);
    SqrtOfSquare(m, sum);
    SqrtOfSquare(m, diff);
    SqrtMonotone(m, sum * sum, sd);
    SqrtMonotone(m, sd, diff * diff);
  }

  lemma IntersectionPointsStraddleCentreLine(m: MathLib, a: Circle, b: Circle)
    requires a.IntersectionPoints(m, b).Some?
    ensures var (p3, p4) := a.IntersectionPoints(m, b).value;
      && p3.Add(p4).Scale(0.5) == a.ChordMidpoint(m, b)
      && p3.Sub(p4).Dot(b.center.Sub(a.center)) == 0.0
      && p3.Sub(a.ChordMidpoint(m, b)).Dot(b.center.Sub(a.center)) == 0.0
  {
    var p0, p1 := a.center, b.center;
    var d := p0.Distance(m, p1);
    var h := a.HalfChord(m, b);
    var dx, dy := p1.x - p0.x, p1.y - p0.y;
    var u, w := h * dy / d, h * dx / d;
    var p2 := a.ChordMidpoint(m, b);
    var (p3, p4) := a.IntersectionPoints(m, b).value;
    assert p3 == Vec2(p2.x + u, p2.y - w);
    NegatedOffset(h, dx, dy, d);
    assert p4 == Vec2(p2.x - u, p2.y + w);
    AcrossCentreLine(h, dx, dy, d);
    Straddle(p2, u, w, b.center.Sub(a.center));
  }

  lemma NegatedOffset(h: real, dx: real, dy: real, d: real)
    requires d != 0.0
    ensures (-h) * dy / d == -(h * dy / d) && (-h) * dx / d == -(h * dx / d)
  {
  }

  /** The offset `h (dy, -dx) / d` is perpendicular to `(dx, dy)`. */
  lemma AcrossCentreLine(h: real, dx: real, dy: real, d: real)
    requires d != 0.0
    ensures (h * dy / d) * dx == (h * dx / d) * dy
  {
    assert (h * dy / d) * dx == h * dy * dx / d;
    assert (h * dx / d) * dy == h * dx * dy / d;
  }

  /** Two points placed symmetrically about `p2`, across the direction `v`. */
  lemma Straddle(p2: Vec2, u: real, w: real, v: Vec2)
    requires u * v.x == w * v.y
    ensures var p3, p4 := Vec2(p2.x + u, p2.y - w), Vec2(p2.x - u, p2.y + w);
      && p3.Add(p4).Scale(0.5) == p2
      && p3.Sub(p4).Dot(v) == 0.0
      && p3.Sub(p2).Dot(v) == 0.0
  {
  }

  lemma TangentCirclesMeetOnce(m: MathLib, a: Circle, b: Circle)
    requires a.IntersectionPoints(m, b).Some?
    requires a.HalfChord(m, b) == 0.0
    ensures a.IntersectionPoints(m, b).value.0 == a.IntersectionPoints(m, b).value.1
  {
  }

  /**
   * When `intersects` holds, the chord offset `a` never exceeds the radius, so
   * the square root taken for `h` is of a non-negative number.
   */
  lemma ChordExists(r0: real, r1: real, d: real, a: real)
    requires 0.0 < d && Abs(r0 - r1) <= d <= r0 + r1
    requires a == (r0 * r0 - r1 * r1 + d * d) / (2.0 * d)
    ensures 0.0 <= r0 * r0 - a * a
  {
    QuotientTimesDivisor(r0 * r0 - r1 * r1 + d * d, 2.0 * d);
    ChordBound(r0, r1, d, a);
  }

  lemma QuotientTimesDivisor(n: real, q: real)
    requires q != 0.0
    ensures (n / q) * q == n
  {
  }

  lemma ChordBound(r0: real, r1: real, d: real, a: real)
    requires 0.0 < d && Abs(r0 - r1) <= d <= r0 + r1
    requires a * (2.0 * d) == r0 * r0 - r1 * r1 + d * d
    ensures 0.0 <= r0 * r0 - a * a
  {
    TriangleProductNonNegative(r0, r1, d);
    ChordFactorization(r0, r1, d);
    DoubledOffsetSquared(a, d, r0 * r0 - r1 * r1 + d * d);
    CancelSquareFactor(d, r0 * r0, a * a);
  }

  lemma TriangleProductNonNegative(r0: real, r1: real, d: real)
    requires Abs(r0 - r1) <= d <= r0 + r1
    ensures 0.0 <= ((r1 - d + r0) * (r1 + d - r0)) * ((d + r0 - r1) * (d + r0 + r1))
  {
    ProductNonNegative(r1 - d + r0, r1 + d - r0);
    ProductNonNegative(d + r0 - r1, d + r0 + r1);
    ProductNonNegative((r1 - d + r0) * (r1 + d - r0), (d + r0 - r1) * (d + r0 + r1));
  }

  lemma DoubledOffsetSquared(a: real, d: real, n: real)
    requires a * (2.0 * d) == n
    ensures 4.0 * (d * d) * (a * a) == n * n
  {
    assert (a * (2.0 * d)) * (a * (2.0 * d)) == n * n;
  }

  /** Dividing both sides of `4 d^2 x >= 4 d^2 y` by `d` twice. */
  lemma CancelSquareFactor(d: real, x: real, y: real)
    requires 0.0 < d && 0.0 <= 4.0 * (d * d) * x - 4.0 * (d * d) * y
    ensures y <= x
  {
    assert 4.0 * (d * d) * x - 4.0 * (d * d) * y == d * (d * (4.0 * (x - y)));
    PositiveFactor(d, d * (4.0 * (x - y)));
    PositiveFactor(d, 4.0 * (x - y));
  }

  lemma ProductNonNegative(x: real, y: real)
    requires 0.0 <= x && 0.0 <= y
    ensures 0.0 <= x * y
  {
  }

  lemma PositiveFactor(q: real, e: real)
    requires 0.0 < q && 0.0 <= q * e
    ensures 0.0 <= e
  {
  }

  /** 4 d^2 r0^2 - (r0^2 - r1^2 + d^2)^2 as a product of the four triangle terms. */
  lemma ChordFactorization(r0: real, r1: real, d: real)
    ensures var n := r0 * r0 - r1 * r1 + d * d;
      4.0 * (d * d) * (r0 * r0) - n * n
        == ((r1 - d + r0) * (r1 + d - r0)) * ((d + r0 - r1) * (d + r0 + r1))
  {
  }

  /** A point written in the frame of the centre line: along it by `a`, across it by `h`. */
  lemma FrameDistance(a: real, h: real, u: real, w: real)
    requires u * u + w * w == 1.0
    ensures (a * u + h * w) * (a * u + h * w) + (a * w - h * u) * (a * w - h * u) == a * a + h * h
  {
    assert (a * u + h * w) * (a * u + h * w) == a * a * (u * u) + 2.0 * a * h * (u * w) + h * h * (w * w);
    assert (a * w - h * u) * (a * w - h * u) == a * a * (w * w) - 2.0 * a * h * (u * w) + h * h * (u * u);
  }

  lemma SquaredDistanceNonNegative(p: Vec2, q: Vec2)
    ensures 0.0 <= p.SquaredDistance(q)
  {
  }

  lemma SqrtFacts(m: MathLib, x: real)
    requires Lawful(m) && 0.0 <= x
    ensures 0.0 <= m.sqrt(x) && m.sqrt(x) * m.sqrt(x) == x
  {
  }

  lemma ZeroFactor(q: real, e: real)
    requires q != 0.0 && q * e == 0.0
    ensures e == 0.0
  {
    assert e == (q * e) / q;
  }

  /** The centre line direction scaled to unit length. */
  lemma UnitDirection(dx: real, dy: real, d: real)
    requires 0.0 < d && dx * dx + dy * dy == d * d
    ensures (dx / d) * (dx / d) + (dy / d) * (dy / d) == 1.0
  {
    var u, w := dx / d, dy / d;
    assert u * d == dx && w * d == dy;
    assert d * (d * (u * u + w * w - 1.0)) == (u * d) * (u * d) + (w * d) * (w * d) - d * d;
    ZeroFactor(d, d * (u * u + w * w - 1.0));
    ZeroFactor(d, u * u + w * w - 1.0);
  }

  /** One coordinate of a crossing point, rewritten in terms of the unit direction. */
  lemma FrameCoordinate(c: real, k: real, j: real, a: real, h: real, d: real, u: real, w: real)
    requires d != 0.0 && u == k / d && w == j / d
    ensures k * (a / d) + c + h * j / d == c + (a * u + h * w)
    ensures k * (a / d) + c - h * j / d == c + (a * u - h * w)
  {
  }

  lemma UnitTimesDistance(k: real, d: real)
    requires d != 0.0
    ensures d * (k / d) == k
  {
  }

  /**
   * A point at offset `a` along the unit direction `(u, w)` from `p0` and `h`
   * across it: its squared distances to `p0` and to `p1 = p0 + d (u, w)`.
   */
  lemma CrossingDistances(p0: Vec2, p1: Vec2, u: real, w: real, d: real, a: real, h: real, p: Vec2)
    requires u * u + w * w == 1.0
    requires p1 == Vec2(p0.x + d * u, p0.y + d * w)
    requires p == Vec2(p0.x + (a * u + h * w), p0.y + (a * w - h * u))
    ensures p.SquaredDistance(p0) == a * a + h * h
    ensures p.SquaredDistance(p1) == (a - d) * (a - d) + h * h
  {
    FrameDistance(a, h, u, w);
    assert p.x - p1.x == (a - d) * u + h * w && p.y - p1.y == (a - d) * w - h * u;
    FrameDistance(a - d, h, u, w);
  }

  /** Both points `intersectionPoints` returns lie on both circles. */
  lemma IntersectionPointsOnBothCircles(m: MathLib, c0: Circle, c1: Circle)
    requires Lawful(m) && c0.Intersects(m, c1) && c0.IntersectionPoints(m, c1).Some?
    ensures var (p3, p4) := c0.IntersectionPoints(m, c1).value;
      c0.Through(p3) && c0.Through(p4) && c1.Through(p3) && c1.Through(p4)
  {
    var d, a, h := ChordFacts(m, c0, c1);
    NegationSquares(h);
    CrossingPointOnBothCircles(m, c0, c1, d, a, h);
    CrossingPointOnBothCircles(m, c0, c1, d, a, -h);
  }

  lemma CrossingPointOnBothCircles(m: MathLib, c0: Circle, c1: Circle, d: real, a: real, k: real)
    requires 0.0 < d && d == c0.center.Distance(m, c1.center) && a == c0.ChordOffset(m, c1)
    requires d * d == c0.center.SquaredDistance(c1.center)
    requires a * a + k * k == c0.radius * c0.radius && (a - d) * (a - d) + k * k == c1.radius * c1.radius
    ensures var p := CrossingPoint(c0.center, c1.center, c0.ChordMidpoint(m, c1), d, k);
      p.SquaredDistance(c0.center) == c0.radius * c0.radius && p.SquaredDistance(c1.center) == c1.radius * c1.radius
  {
    CrossingOnBothCircles(c0.center, c1.center, c0.radius, c1.radius, d, a, k, c0.ChordMidpoint(m, c1));
  }

  /**
   * The point `h` across the centre line from the chord midpoint, at offset
   * `a` from `p0`, lies on both circles when `a` and `h` satisfy the two
   * circle equations.
   */
  lemma CrossingOnBothCircles(p0: Vec2, p1: Vec2, r0: real, r1: real, d: real, a: real, h: real, p2: Vec2)
    requires 0.0 < d && d * d == p0.SquaredDistance(p1)
    requires a * a + h * h == r0 * r0 && (a - d) * (a - d) + h * h == r1 * r1
    requires p2 == p1.Sub(p0).Scale(a / d).Add(p0)
    ensures var p := CrossingPoint(p0, p1, p2, d, h);
      p.SquaredDistance(p0) == r0 * r0 && p.SquaredDistance(p1) == r1 * r1
  {
    var p := CrossingPoint(p0, p1, p2, d, h);
    var u, w := CentreLineFrame(p0, p1, d);
    FramePoint(p0, p1, d, a, h, u, w, p2, p);
    CrossingDistances(p0, p1, u, w, d, a, h, p);
  }

  lemma ChordOffsetOfCircles(m: MathLib, c0: Circle, c1: Circle, h: real)
    requires c0.center.Distance(m, c1.center) != 0.0
    requires var a := c0.ChordOffset(m, c1); h * h == c0.radius * c0.radius - a * a
    ensures var d, a := c0.center.Distance(m, c1.center), c0.ChordOffset(m, c1);
      (a - d) * (a - d) + h * h == c1.radius * c1.radius
  {
    ChordOffsetRelation(c0.radius, c1.radius, c0.center.Distance(m, c1.center), c0.ChordOffset(m, c1), h);
  }

  lemma DistanceFacts(m: MathLib, p: Vec2, q: Vec2) returns (d: real)
    requires Lawful(m)
    ensures d == p.Distance(m, q) && 0.0 <= d && d * d == p.SquaredDistance(q)
  {
    SquaredDistanceNonNegative(p, q);
    SqrtFacts(m, p.SquaredDistance(q));
    d := p.Distance(m, q);
  }

  lemma HalfChordFacts(m: MathLib, c0: Circle, c1: Circle) returns (h: real)
    requires Lawful(m) && c0.Intersects(m, c1) && c0.center.Distance(m, c1.center) != 0.0
    ensures h == c0.HalfChord(m, c1)
    ensures var a := c0.ChordOffset(m, c1); h * h == c0.radius * c0.radius - a * a
  {
    ChordOffsetFits(m, c0, c1);
    SqrtFacts(m, c0.radius * c0.radius - c0.ChordOffset(m, c1) * c0.ChordOffset(m, c1));
    h := c0.HalfChord(m, c1);
  }

  lemma NegationSquares(h: real)
    ensures (-h) * (-h) == h * h
  {
  }

  /** The centre distance, chord offset and half chord of two intersecting circles. */
  lemma ChordFacts(m: MathLib, c0: Circle, c1: Circle) returns (d: real, a: real, h: real)
    requires Lawful(m) && c0.Intersects(m, c1) && c0.IntersectionPoints(m, c1).Some?
    ensures d == c0.center.Distance(m, c1.center) && a == c0.ChordOffset(m, c1) && h == c0.HalfChord(m, c1)
    ensures 0.0 < d && d * d == c0.center.SquaredDistance(c1.center)
    ensures a * a + h * h == c0.radius * c0.radius
    ensures (a - d) * (a - d) + h * h == c1.radius * c1.radius
  {
    d := DistanceFacts(m, c0.center, c1.center);
    assert d != 0.0;
    a := c0.ChordOffset(m, c1);
    h := HalfChordFacts(m, c0, c1);
    ChordOffsetOfCircles(m, c0, c1, h);
  }

  /** The unit direction `(u, w)` of the centre line from `p0` to `p1`, at distance `d`. */
  lemma CentreLineFrame(p0: Vec2, p1: Vec2, d: real) returns (u: real, w: real)
    requires 0.0 < d && d * d == p0.SquaredDistance(p1)
    ensures u == (p1.x - p0.x) / d && w == (p1.y - p0.y) / d
    ensures u * u + w * w == 1.0
    ensures p1 == Vec2(p0.x + d * u, p0.y + d * w)
  {
    var dx, dy := p1.x - p0.x, p1.y - p0.y;
    u, w := dx / d, dy / d;
    UnitDirection(dx, dy, d);
    UnitTimesDistance(dx, d);
    UnitTimesDistance(dy, d);
  }

  /** One crossing point, rewritten with the unit direction of the centre line. */
  lemma FramePoint(p0: Vec2, p1: Vec2, d: real, a: real, h: real, u: real, w: real, p2: Vec2, p: Vec2)
    requires d != 0.0 && u == (p1.x - p0.x) / d && w == (p1.y - p0.y) / d
    requires p2 == p1.Sub(p0).Scale(a / d).Add(p0) && p == CrossingPoint(p0, p1, p2, d, h)
    ensures p == Vec2(p0.x + (a * u + h * w), p0.y + (a * w - h * u))
  {
    var dx, dy := p1.x - p0.x, p1.y - p0.y;
    assert p2 == Vec2(dx * (a / d) + p0.x, dy * (a / d) + p0.y);
    assert p == Vec2(dx * (a / d) + p0.x + h * dy / d, dy * (a / d) + p0.y - h * dx / d);
    FrameCoordinate(p0.x, dx, dy, a, h, d, u, w);
    FrameCoordinate(p0.y, dy, dx, a, h, d, w, u);
  }

  /** `(a - d)^2 + h^2 = r1^2` follows from `h^2 = r0^2 - a^2` and the definition of `a`. */
  lemma ChordOffsetRelation(r0: real, r1: real, d: real, a: real, h: real)
    requires d != 0.0 && a == (r0 * r0 - r1 * r1 + d * d) / (2.0 * d) && h * h == r0 * r0 - a * a
    ensures (a - d) * (a - d) + h * h == r1 * r1
  {
    QuotientTimesDivisor(r0 * r0 - r1 * r1 + d * d, 2.0 * d);
  }

  /** For intersecting circles the square root in `HalfChord` is of a non-negative number. */
  lemma ChordOffsetFits(m: MathLib, c0: Circle, c1: Circle)
    requires Lawful(m) && c0.Intersects(m, c1) && c0.center.Distance(m, c1.center) != 0.0
    ensures var a := c0.ChordOffset(m, c1); 0.0 <= c0.radius * c0.radius - a * a
  {
    SqrtFacts(m, c0.center.SquaredDistance(c1.center));
    ChordExists(c0.radius, c1.radius, c0.center.Distance(m, c1.center), c0.ChordOffset(m, c1));
  }
}

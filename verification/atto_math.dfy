/** Vector maths and collision primitives of the engine (AttoMath.h and the
    non-triangulation half of AttoMath.cpp). Coordinates are exact reals: the
    f32 rounding of the engine is not part of this model. */
module AttoMath {
  import opened Wrappers

  datatype Vec2 = Vec2(x: real, y: real) {
    function Plus(o: Vec2): Vec2 { Vec2(x + o.x, y + o.y) }
    function Minus(o: Vec2): Vec2 { Vec2(x - o.x, y - o.y) }
    function Times(s: real): Vec2 { Vec2(x * s, y * s) }
    function Negated(): Vec2 { Vec2(-x, -y) }
  }

  const ZERO: Vec2 := Vec2(0.0, 0.0)

  function Dot(a: Vec2, b: Vec2): real { a.x * b.x + a.y * b.y }

  function DistanceSquared(a: Vec2, b: Vec2): real { Dot(a.Minus(b), a.Minus(b)) }

  function Sq(x: real): real { x * x }

  function Min(a: real, b: real): real { if a < b then a else b }

  function Max(a: real, b: real): real { if a < b then b else a }

  /////////////////////////////////////////////////////////////////////////////
  // Inline helpers of AttoMath.h

  /** Linear interpolation `a + (b - a) * t`. */
  function Lerp(a: real, b: real, t: real): (r: real)
    ensures t == 0.0 ==> r == a
    ensures t == 1.0 ==> r == b
  {
    a + (b - a) * t
  }

  /** For a parameter in [0, 1] the interpolant stays between the end points. */
  lemma LerpBetween(a: real, b: real, t: real)
    requires a <= b && 0.0 <= t <= 1.0
    ensures a <= Lerp(a, b, t) <= b
  {
    assert 0.0 <= (b - a) * t by { NonNegProduct(b - a, t); }
    assert (b - a) * t <= b - a by { NonNegProduct(b - a, 1.0 - t); }
  }

  lemma NonNegProduct(u: real, v: real)
    requires 0.0 <= u && 0.0 <= v
    ensures 0.0 <= u * v
  {
  }

  const DEFAULT_EPSILON: real := 0.0001

  function Abs(x: real): real { if x < 0.0 then -x else x }

  /** `|a - b| < epsilon`: the two values lie in each other's open epsilon-interval. */
  function ApproxEqual(a: real, b: real, epsilon: real := DEFAULT_EPSILON): (r: bool)
    ensures r <==> a - epsilon < b < a + epsilon
  {
    Abs(a - b) < epsilon
  }

  lemma ApproxEqualSymmetric(a: real, b: real, epsilon: real)
    ensures ApproxEqual(a, b, epsilon) == ApproxEqual(b, a, epsilon)
  {
  }

  /** With the default epsilon every value is approximately equal to itself; with
      an arbitrary epsilon that holds exactly when epsilon is positive. */
  lemma ApproxEqualReflexive(a: real, epsilon: real)
    ensures ApproxEqual(a, a)
    ensures ApproxEqual(a, a, epsilon) <==> epsilon > 0.0
  {
  }

  /** ClampLength, its non-normalising branch only: a vector whose squared length
      is at most `maxLength * maxLength` comes back unchanged. The other branch
      rescales through a square root and is reported as `None`. */
  function ClampLength(v: Vec2, maxLength: real): (r: Option<Vec2>)
    ensures r.Some? <==> Dot(v, v) <= maxLength * maxLength
    ensures r.Some? ==> r.value == v && Dot(r.value, r.value) <= maxLength * maxLength
  {
    if Dot(v, v) > maxLength * maxLength then None else Some(v)
  }

  /////////////////////////////////////////////////////////////////////////////
  // Value types

  /** A collision result: depth, the two contact points and the separating normal. */
  datatype Manifold = Manifold(penetration: real, pointA: Vec2, pointB: Vec2, normal: Vec2)

  const ZERO_MANIFOLD: Manifold := Manifold(0.0, ZERO, ZERO, ZERO)

  /** The four axis-aligned unit vectors. */
  predicate IsAxisUnit(n: Vec2) {
    n == Vec2(1.0, 0.0) || n == Vec2(-1.0, 0.0) || n == Vec2(0.0, 1.0) || n == Vec2(0.0, -1.0)
  }

  datatype Circle = Circle(pos: Vec2, rad: real) {
    /** Circle::Intersects: strict comparison of squared centre distance and squared radius sum. */
    predicate Intersects(other: Circle) {
      DistanceSquared(pos, other.pos) < Sq(rad + other.rad)
    }
  }

  lemma CircleIntersectsSymmetric(a: Circle, b: Circle)
    ensures a.Intersects(b) <==> b.Intersects(a)
  {
    assert a.pos.Minus(b.pos) == b.pos.Minus(a.pos).Negated();
  }

  /** Circles whose centres are exactly one radius sum apart only touch. */
  lemma TouchingCirclesDoNotIntersect(a: Circle, b: Circle)
    requires DistanceSquared(a.pos, b.pos) == Sq(a.rad + b.rad)
    ensures !a.Intersects(b)
  {
  }

  /** For positive radii the squared-distance test means exactly that some point
      lies strictly inside both circles. */
  lemma {:induction false} CircleIntersectsIffCommonPoint(a: Circle, b: Circle)
    requires a.rad > 0.0 && b.rad > 0.0
    ensures a.Intersects(b) <==>
      exists p :: DistanceSquared(p, a.pos) < Sq(a.rad) && DistanceSquared(p, b.pos) < Sq(b.rad)
  {
    if a.Intersects(b) {
      var p := CommonPointOf(a, b);
    }
    if p :| DistanceSquared(p, a.pos) < Sq(a.rad) && DistanceSquared(p, b.pos) < Sq(b.rad) {
      CommonPointGivesIntersection(a, b, p);
    }
  }

  lemma DotScaled(d: Vec2, t: real)
    ensures Dot(d.Times(t), d.Times(t)) == t * t * Dot(d, d)
  {
  }

  lemma ScaledBelow(k: real, u: real, v: real)
    requires k > 0.0 && u < v
    ensures k * u < k * v
  {
  }

  /** The point of the centre segment that splits it in the ratio of the radii. */
  lemma CommonPointOf(a: Circle, b: Circle) returns (p: Vec2)
    requires a.rad > 0.0 && b.rad > 0.0
    requires a.Intersects(b)
    ensures DistanceSquared(p, a.pos) < Sq(a.rad) && DistanceSquared(p, b.pos) < Sq(b.rad)
  {
    var r := a.rad + b.rad;
    var d := b.pos.Minus(a.pos);
    DistanceIsSymmetric(a.pos, b.pos);
    var s, t := Shares(a.rad, b.rad);
    p := a.pos.Plus(d.Times(s));
    assert p.Minus(a.pos) == d.Times(s);
    PointInside(p, a.pos, d, s, r, a.rad);
    ShareOfRest(a.pos, b.pos, s, t);
    PointInside(p, b.pos, d, -t, r, b.rad);
  }

  lemma DistanceIsSymmetric(u: Vec2, v: Vec2)
    ensures Dot(v.Minus(u), v.Minus(u)) == DistanceSquared(u, v)
  {
    assert u.Minus(v) == v.Minus(u).Negated();
  }

  /** The shares of `x` and `y` in their sum. */
  lemma Shares(x: real, y: real) returns (s: real, t: real)
    requires x > 0.0 && y > 0.0
    ensures s * (x + y) == x && t * (x + y) == y && s + t == 1.0
  {
    var r := x + y;
    s, t := x / r, y / r;
    assert s + t == (x + y) / r;
  }

  /** A point `s * d` away from `c`, where `d` is shorter than `r`, lies
      strictly within |s * r| of `c`. */
  lemma PointInside(p: Vec2, c: Vec2, d: Vec2, s: real, r: real, rad: real)
    requires p.Minus(c) == d.Times(s) && Dot(d, d) < r * r
    requires rad > 0.0 && (s * r == rad || s * r == -rad)
    ensures DistanceSquared(p, c) < Sq(rad)
  {
    DotScaled(d, s);
    assert s * s > 0.0;
    ScaledBelow(s * s, Dot(d, d), r * r);
    assert s * s * (r * r) == (s * r) * (s * r);
  }

  /** Going the share `s` of the way from `from` to `to` leaves the share
      `t` = 1 - s of it still to go. */
  lemma ShareOfRest(from: Vec2, to: Vec2, s: real, t: real)
    requires s + t == 1.0
    ensures from.Plus(to.Minus(from).Times(s)).Minus(to) == to.Minus(from).Times(-t)
  {
    assert s == 1.0 - t;
  }

  /** Scaling a vector shorter than `r` by `s` gives one shorter than `s * r`. */
  lemma ScaledInside(d: Vec2, s: real, r: real, rad: real)
    requires Dot(d, d) < r * r && s * r == rad && rad != 0.0
    ensures Dot(d.Times(s), d.Times(s)) < rad * rad
  {
    DotScaled(d, s);
    assert s * s > 0.0;
    ScaledBelow(s * s, Dot(d, d), r * r);
    assert s * s * (r * r) == (s * r) * (s * r);
  }

  lemma CauchySchwarz(u: Vec2, v: Vec2)
    ensures Sq(Dot(u, v)) <= Dot(u, u) * Dot(v, v)
  {
    var c := u.x * v.y - u.y * v.x;
    assert Dot(u, u) * Dot(v, v) - Sq(Dot(u, v)) == c * c;
  }

  lemma ProductBelow(x: real, y: real, xBound: real, yBound: real)
    requires 0.0 <= x < xBound && 0.0 <= y < yBound
    ensures x * y < xBound * yBound
  {
    assert x * y <= x * yBound;
    assert x * yBound < xBound * yBound;
  }

  lemma SquareBelow(w: real, k: real)
    requires k > 0.0 && Sq(w) < Sq(k)
    ensures -k < w < k
  {
  }

  lemma DotOfDifference(u: Vec2, v: Vec2)
    ensures Dot(v.Minus(u), v.Minus(u)) == Dot(u, u) + Dot(v, v) - 2.0 * Dot(u, v)
  {
  }

  lemma SquareOfProduct(x: real, y: real)
    ensures Sq(x) * Sq(y) == Sq(x * y)
  {
  }

  lemma SquareOfSum(x: real, y: real)
    ensures Sq(x + y) == Sq(x) + Sq(y) + 2.0 * (x * y)
  {
  }

  lemma CommonPointGivesIntersection(a: Circle, b: Circle, p: Vec2)
    requires a.rad > 0.0 && b.rad > 0.0
    requires DistanceSquared(p, a.pos) < Sq(a.rad) && DistanceSquared(p, b.pos) < Sq(b.rad)
    ensures a.Intersects(b)
  {
    var u := p.Minus(a.pos);
    var v := p.Minus(b.pos);
    assert a.pos.Minus(b.pos) == v.Minus(u);
    DotOfDifference(u, v);
    CrossTermBound(u, v, a.rad, b.rad);
    SquareOfSum(a.rad, b.rad);
  }

  /** Two vectors shorter than `ra` and `rb` have a dot product above -ra * rb. */
  lemma CrossTermBound(u: Vec2, v: Vec2, ra: real, rb: real)
    requires ra > 0.0 && rb > 0.0 && Dot(u, u) < Sq(ra) && Dot(v, v) < Sq(rb)
    ensures -(ra * rb) < Dot(u, v)
  {
    CauchySchwarz(u, v);
    assert 0.0 <= Dot(u, u) && 0.0 <= Dot(v, v);
    ProductBelow(Dot(u, u), Dot(v, v), Sq(ra), Sq(rb));
    SquareOfProduct(ra, rb);
    BelowChain(Sq(Dot(u, v)), Dot(u, u) * Dot(v, v), Sq(ra) * Sq(rb), Sq(ra * rb));
    assert ra * rb > 0.0;
    SquareBelow(Dot(u, v), ra * rb);
  }

  lemma BelowChain(a: real, b: real, c: real, d: real)
    requires a <= b && b < c && c == d
    ensures a < d
  {
  }

  /////////////////////////////////////////////////////////////////////////////
  // Axis-aligned boxes

  datatype BoxBounds = BoxBounds(min: Vec2, max: Vec2) {

    /** BoxBounds::Translate: both corners move, so the size is kept and a point
        lies in the old box exactly when the moved point lies in the new one. */
    function Translate(translation: Vec2): (r: BoxBounds)
      ensures r.max.Minus(r.min) == max.Minus(min)
      ensures forall p :: Contains(p) <==> r.Contains(p.Plus(translation))
    {
      BoxBounds(min.Plus(translation), max.Plus(translation))
    }

    /** BoxBounds::Intersects: closed intervals overlap on both axes. */
    predicate Intersects(other: BoxBounds) {
      (max.x >= other.min.x && min.x <= other.max.x) &&
      (max.y >= other.min.y && min.y <= other.max.y)
    }

    /** BoxBounds::Contains: inclusive on every side. */
    predicate Contains(point: Vec2) {
      (point.x >= min.x && point.x <= max.x) &&
      (point.y >= min.y && point.y <= max.y)
    }

    predicate IsProper() {
      min.x <= max.x && min.y <= max.y
    }

    function XOverlap(other: BoxBounds): real {
      Min(max.x, other.max.x) - Max(min.x, other.min.x)
    }

    function YOverlap(other: BoxBounds): real {
      Min(max.y, other.max.y) - Max(min.y, other.min.y)
    }

    /** BoxBounds::Collision: on overlap, resolve along the axis of smaller overlap
        (the y axis on a tie); the normal's sign is decided by comparing the two
        max edges. Without overlap the manifold is handed back untouched. */
    function Collision(other: BoxBounds, manifold: Manifold): (r: (bool, Manifold))
      ensures r.0 <==> Intersects(other)
      ensures !r.0 ==> r.1 == manifold
      ensures r.0 ==> IsAxisUnit(r.1.normal)
      ensures r.0 && IsProper() && other.IsProper() ==> r.1.penetration >= 0.0
      ensures r.0 ==> r.1.penetration == Min(XOverlap(other), YOverlap(other))
      ensures r.0 ==> r.1.pointA == manifold.pointA && r.1.pointB == manifold.pointB
      ensures r.0 && XOverlap(other) < YOverlap(other) ==>
        r.1.normal.y == 0.0 && (r.1.normal.x == -1.0 <==> max.x > other.max.x)
      ensures r.0 && XOverlap(other) >= YOverlap(other) ==>
        r.1.normal.x == 0.0 && (r.1.normal.y == -1.0 <==> max.y > other.max.y)
    {
      if Intersects(other) then
        var xOverlap := XOverlap(other);
        var yOverlap := YOverlap(other);
        if xOverlap < yOverlap then
          var normal := if max.x > other.max.x then Vec2(-1.0, 0.0) else Vec2(1.0, 0.0);
          (true, manifold.(normal := normal, penetration := xOverlap))
        else
          var normal := if max.y > other.max.y then Vec2(0.0, -1.0) else Vec2(0.0, 1.0);
          (true, manifold.(normal := normal, penetration := yOverlap))
      else
        (false, manifold)
    }
  }

  lemma BoxIntersectsSymmetric(a: BoxBounds, b: BoxBounds)
    ensures a.Intersects(b) <==> b.Intersects(a)
  {
  }

  /** Boxes that only share an edge still intersect (the test is inclusive). */
  lemma BoxSharedEdgeIntersects(a: BoxBounds, b: BoxBounds)
    requires a.IsProper() && b.IsProper()
    requires a.max.x == b.min.x && a.min.y <= b.max.y && b.min.y <= a.max.y
    ensures a.Intersects(b)
  {
  }

  /** A proper box contains both of its corners. */
  lemma BoxContainsCorners(b: BoxBounds)
    requires b.IsProper()
    ensures b.Contains(b.min) && b.Contains(b.max)
  {
  }

  /** For proper boxes, Intersects means exactly that some point lies in both. */
  lemma {:induction false} BoxIntersectsIffCommonPoint(a: BoxBounds, b: BoxBounds)
    requires a.IsProper() && b.IsProper()
    ensures a.Intersects(b) <==> exists p :: a.Contains(p) && b.Contains(p)
  {
    if a.Intersects(b) {
      var p := Vec2(Max(a.min.x, b.min.x), Max(a.min.y, b.min.y));
      assert a.Contains(p) && b.Contains(p);
    }
  }

  /** The normal times the penetration pushes the other box out to touching along
      the chosen x axis, provided neither box is nested in the other on that axis. */
  lemma BoxCollisionSeparatesOnX(a: BoxBounds, b: BoxBounds, m: Manifold)
    requires a.IsProper() && b.IsProper()
    requires a.Intersects(b) && a.XOverlap(b) < a.YOverlap(b)
    requires a.max.x > b.max.x ==> a.min.x >= b.min.x
    requires a.max.x <= b.max.x ==> a.min.x <= b.min.x
    ensures var moved := b.Translate(a.Collision(b, m).1.normal.Times(a.Collision(b, m).1.penetration));
      moved.XOverlap(a) == 0.0
  {
  }

  /** The same on the y axis, which is the axis chosen on a tie. */
  lemma BoxCollisionSeparatesOnY(a: BoxBounds, b: BoxBounds, m: Manifold)
    requires a.IsProper() && b.IsProper()
    requires a.Intersects(b) && a.XOverlap(b) >= a.YOverlap(b)
    requires a.max.y > b.max.y ==> a.min.y >= b.min.y
    requires a.max.y <= b.max.y ==> a.min.y <= b.min.y
    ensures var moved := b.Translate(a.Collision(b, m).1.normal.Times(a.Collision(b, m).1.penetration));
      moved.YOverlap(a) == 0.0
  {
  }

  /////////////////////////////////////////////////////////////////////////////
  // Triangles and polygons

  /** The 2D cross product `u.x * v.y - u.y * v.x`. */
  function Determinant(u: Vec2, v: Vec2): real {
    u.x * v.y - u.y * v.x
  }

  lemma DeterminantAntisymmetric(u: Vec2, v: Vec2)
    ensures Determinant(u, v) == -Determinant(v, u)
    ensures Determinant(u, u) == 0.0
  {
  }

  /** Strict point-in-triangle test: the point is on the negative side of all three edges. */
  predicate CollisionTrianglePoint(a: Vec2, b: Vec2, c: Vec2, point: Vec2) {
    Determinant(b.Minus(a), point.Minus(a)) < 0.0 &&
    Determinant(c.Minus(b), point.Minus(b)) < 0.0 &&
    Determinant(a.Minus(c), point.Minus(c)) < 0.0
  }

  /** Only a clockwise triangle (negative signed area) can contain a point, and a
      vertex of the triangle is never reported as inside it. */
  lemma {:induction false} TrianglePointNeedsClockwise(a: Vec2, b: Vec2, c: Vec2, point: Vec2)
    ensures CollisionTrianglePoint(a, b, c, point) ==> Determinant(b.Minus(a), c.Minus(a)) < 0.0
    ensures !CollisionTrianglePoint(a, b, c, a)
  {
    var sum := Determinant(b.Minus(a), point.Minus(a)) + Determinant(c.Minus(b), point.Minus(b))
      + Determinant(a.Minus(c), point.Minus(c));
    assert sum == Determinant(b.Minus(a), c.Minus(a));
  }

  /** The test does not depend on which vertex the triangle starts at. */
  lemma TrianglePointRotation(a: Vec2, b: Vec2, c: Vec2, point: Vec2)
    ensures CollisionTrianglePoint(a, b, c, point) <==> CollisionTrianglePoint(b, c, a, point)
  {
  }

  const POLYGON_CAPACITY: nat := 8

  datatype PolygonCollider = PolygonCollider(vertices: seq<Vec2>)

  /** The FixedList<vec2, 8> bound: a polygon never holds more than eight vertices. */
  type Polygon = p: PolygonCollider | |p.vertices| <= POLYGON_CAPACITY witness PolygonCollider([])

  /** Every vertex shifted by the translation; the vertex count is kept. */
  function Translated(poly: Polygon, translation: Vec2): (r: Polygon)
    ensures |r.vertices| == |poly.vertices|
    ensures forall i :: 0 <= i < |r.vertices| ==> r.vertices[i] == poly.vertices[i].Plus(translation)
  {
    PolygonCollider(seq(|poly.vertices|, i requires 0 <= i < |poly.vertices| => poly.vertices[i].Plus(translation)))
  }

  /** Translating back by the opposite vector restores the polygon. */
  lemma TranslatedInverse(poly: Polygon, translation: Vec2)
    ensures Translated(Translated(poly, translation), translation.Negated()) == poly
  {
    var back := Translated(Translated(poly, translation), translation.Negated());
    assert back.vertices == poly.vertices;
  }

  /** PolygonCollider::Translate: the loop over the vertex list, run on a copy
      of the vertices. */
  method TranslatePolygon(poly: Polygon, translation: Vec2) returns (r: Polygon)
    ensures r == Translated(poly, translation)
  {
    var vertices := poly.vertices;
    var count := |vertices|;
    for i := 0 to count
      invariant |vertices| == count
      invariant forall j :: 0 <= j < i ==> vertices[j] == poly.vertices[j].Plus(translation)
      invariant forall j :: i <= j < count ==> vertices[j] == poly.vertices[j]
    {
      vertices := vertices[i := vertices[i].Plus(translation)];
    }
    r := PolygonCollider(vertices);
  }
}

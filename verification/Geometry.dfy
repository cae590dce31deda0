/** The intersections of src/math.c and the vector algebra of include/ccore/math.h they use, over exact reals.
    A square root is passed in as the non-negative number with the given square. */
module Geometry {
  import opened Basics

  datatype Vec3 = Vec3(x: real, y: real, z: real)

  function Dot(a: Vec3, b: Vec3): real { a.x * b.x + a.y * b.y + a.z * b.z }

  function SqMag(a: Vec3): real { a.x * a.x + a.y * a.y + a.z * a.z }

  function Add(a: Vec3, b: Vec3): Vec3 { Vec3(a.x + b.x, a.y + b.y, a.z + b.z) }

  function Sub(a: Vec3, b: Vec3): Vec3 { Vec3(a.x - b.x, a.y - b.y, a.z - b.z) }

  function Mul(a: Vec3, b: real): Vec3 { Vec3(a.x * b, a.y * b, a.z * b) }

  function Div(a: Vec3, b: real): Vec3
    requires b != 0.0
  {
    Vec3(a.x / b, a.y / b, a.z / b)
  }

  ghost predicate IsRoot(root: real, x: real) { root >= 0.0 && root * root == x }

  /** Vectors shorter than this are not normalised: 5 * DBL_EPSILON. */
  const SHORT: real := 5.0 / 4503599627370496.0

  /** vec3_unit, for a vector of magnitude `mag`. */
  function Unit(v: Vec3, mag: real): Vec3 {
    if mag == 0.0 || mag < SHORT then v else Div(v, mag)
  }

  // ---- a line and a sphere -------------------------------------------------------------------------------

  function Delta(u: Vec3, o: Vec3, c: Vec3, r: real): real {
    Dot(u, Sub(o, c)) * Dot(u, Sub(o, c)) - SqMag(Sub(o, c)) + r * r
  }

  predicate Accepted(d: real, dist: real, confined: bool) { (d >= 0.0 && d <= dist) || !confined }

  /** Where on the line the points are that vec3_int_sph finds, in order. */
  function Distances(mid: real, delta: real, sqDelta: real, dist: real, confined: bool): seq<real> {
    if delta < 0.0 then []
    else if delta == 0.0 then One(mid, dist, confined)
    else One(mid - sqDelta, dist, confined) + One(mid + sqDelta, dist, confined)
  }

  function One(d: real, dist: real, confined: bool): seq<real> {
    if Accepted(d, dist, confined) then [d] else []
  }

  function At(o: Vec3, v: Vec3, t: real): Vec3 { Add(o, Mul(v, t)) }

  function Points(o: Vec3, u: Vec3, ds: seq<real>): seq<Vec3> {
    seq(|ds|, i requires 0 <= i < |ds| => At(o, u, ds[i]))
  }

  function Hits(o: Vec3, v: Vec3, c: Vec3, r: real, confined: bool, dist: real, sqDelta: real): seq<Vec3> {
    var u := Unit(v, dist);
    Points(o, u, Distances(-Dot(u, Sub(o, c)), Delta(u, o, c, r), sqDelta, dist, confined))
  }

  /** What is in the two places of `out` when `points` were found; a place without one holds NaNs. */
  function Filled(points: seq<Vec3>, i: nat): Option<Vec3> {
    if i < |points| then Some(points[i]) else None
  }

  /** vec3_int_sph. */
  method IntersectSphere(o: Vec3, v: Vec3, c: Vec3, r: real, confined: bool, dist: real, sqDelta: real,
                         out: array?<Option<Vec3>>)
    returns (valid: nat)
    requires IsRoot(dist, SqMag(v))
    requires var delta := Delta(Unit(v, dist), o, c, r); delta >= 0.0 ==> IsRoot(sqDelta, delta)
    requires out != null ==> out.Length == 2
    modifies if out == null then {} else {out}
    ensures var hits := Hits(o, v, c, r, confined, dist, sqDelta);
      valid == |hits| && (out != null ==> out[0] == Filled(hits, 0) && out[1] == Filled(hits, 1))
  {
    var u := Unit(v, dist);
    var oToC := Sub(o, c);
    var uOC := Dot(u, oToC);
    var delta := uOC * uOC - SqMag(oToC) + r * r;
    if out != null {
      out[0] := None;
      out[1] := None;
    }
    if delta < 0.0 {
      return 0;
    }
    if delta == 0.0 {
      var d := -uOC;
      if (d >= 0.0 && d <= dist) || !confined {
        if out != null {
          out[0] := Some(Add(o, Mul(u, d)));
        }
        return 1;
      }
      return 0;
    }
    var mult: seq<real> := [-1.0, 1.0];
    valid := 0;
    ghost var found: seq<real> := [];
    for i := 0 to 2
      invariant found == (if i > 0 then One(-uOC - sqDelta, dist, confined) else [])
                       + (if i > 1 then One(-uOC + sqDelta, dist, confined) else [])
      invariant valid == |found| <= i
      invariant out != null ==> out[0] == Filled(Points(o, u, found), 0) && out[1] == Filled(Points(o, u, found), 1)
    {
      var d := -uOC + mult[i] * sqDelta;
      if (d >= 0.0 && d <= dist) || !confined {
        if out != null {
          out[valid] := Some(Add(o, Mul(u, d)));
        }
        found := found + [d];
        valid := valid + 1;
      }
    }
  }

  /** `p` is on the line through `o` along `v`; when confined, on the segment from `o` to `o + v`. */
  ghost predicate OnLine(o: Vec3, v: Vec3, confined: bool, p: Vec3) {
    exists t: real :: p == At(o, v, t) && (confined ==> 0.0 <= t <= 1.0)
  }

  ghost predicate OnSphere(c: Vec3, r: real, p: Vec3) { SqMag(Sub(p, c)) == r * r }

  /** Exactly the common points, without repeats and in increasing order along `v`. */
  ghost predicate Right(hits: seq<Vec3>, o: Vec3, v: Vec3, c: Vec3, r: real, confined: bool) {
    && (forall p :: p in hits <==> OnLine(o, v, confined, p) && OnSphere(c, r, p))
    && (forall i, j :: 0 <= i < j < |hits| ==> Dot(v, Sub(hits[j], hits[i])) > 0.0)
  }

  lemma SqMagAlong(w: Vec3, u: Vec3, d: real)
    ensures SqMag(Add(w, Mul(u, d))) == SqMag(w) + 2.0 * d * Dot(u, w) + d * d * SqMag(u)
  {
  }

  lemma UnitMeans(v: Vec3, dist: real)
    requires IsRoot(dist, SqMag(v)) && dist >= SHORT
    ensures var u := Unit(v, dist); SqMag(u) == 1.0 && Mul(u, dist) == v && Dot(v, u) == dist
  {
    var k := 1.0 / dist;
    assert k * dist == 1.0;
    assert Unit(v, dist) == Mul(v, k);
  }

  /** The distances are the accepted ones whose offset from the middle squares to delta, in increasing order. */
  lemma DistancesMean(mid: real, delta: real, sqDelta: real, dist: real, confined: bool)
    requires delta >= 0.0 ==> IsRoot(sqDelta, delta)
    ensures var ds := Distances(mid, delta, sqDelta, dist, confined);
      && (forall d :: d in ds <==> Accepted(d, dist, confined) && (d - mid) * (d - mid) == delta)
      && (forall i, j :: 0 <= i < j < |ds| ==> ds[i] < ds[j])
  {
    var ds := Distances(mid, delta, sqDelta, dist, confined);
    forall d ensures d in ds <==> Accepted(d, dist, confined) && (d - mid) * (d - mid) == delta {
      SquareIs(d - mid, delta, sqDelta);
      assert d in One(mid, dist, confined) <==> Accepted(d, dist, confined) && d == mid;
      assert d in One(mid - sqDelta, dist, confined) <==> Accepted(d, dist, confined) && d == mid - sqDelta;
      assert d in One(mid + sqDelta, dist, confined) <==> Accepted(d, dist, confined) && d == mid + sqDelta;
    }
  }

  lemma SquareIs(x: real, delta: real, s: real)
    requires delta >= 0.0 ==> IsRoot(s, delta)
    ensures x * x == delta <==> delta >= 0.0 && (x == s || x == -s)
    ensures delta == 0.0 ==> s == 0.0
  {
    SquarePositive(x);
    SquarePositive(s);
    if delta >= 0.0 {
      var a, b := x - s, x + s;
      assert a * b == x * x - delta;
      ZeroProduct(a, b);
    }
  }

  lemma SquarePositive(x: real)
    ensures x * x >= 0.0 && (x * x == 0.0 <==> x == 0.0)
  {
    ZeroProduct(x, x);
  }

  lemma ZeroProduct(a: real, b: real)
    ensures a * b == 0.0 <==> a == 0.0 || b == 0.0
  {
  }

  /** The point at distance `d` along the unit vector is the point at `d / dist` along the vector itself. */
  lemma UnitAt(o: Vec3, v: Vec3, dist: real, d: real, confined: bool)
    requires IsRoot(dist, SqMag(v)) && dist >= SHORT
    ensures At(o, Unit(v, dist), d) == At(o, v, d / dist)
    ensures Accepted(d, dist, confined) <==> (confined ==> 0.0 <= d / dist <= 1.0)
  {
    var t := d / dist;
    var u := Unit(v, dist);
    assert t * dist == d;
    UnitMeans(v, dist);
    Scale(u, dist, t);
    assert d >= 0.0 <==> t >= 0.0;
    assert d <= dist <==> t <= 1.0;
  }

  lemma Scale(u: Vec3, m: real, t: real)
    ensures Mul(Mul(u, m), t) == Mul(u, t * m)
  {
  }

  /** A point of the line is on the sphere exactly when its offset from the middle squares to delta. */
  lemma SphereAt(o: Vec3, u: Vec3, c: Vec3, r: real, d: real)
    requires SqMag(u) == 1.0
    ensures var e := d - (-Dot(u, Sub(o, c))); OnSphere(c, r, At(o, u, d)) <==> e * e == Delta(u, o, c, r)
  {
    var w := Sub(o, c);
    assert Sub(At(o, u, d), c) == Add(w, Mul(u, d));
    SqMagAlong(w, u, d);
  }

  lemma DistanceIff(o: Vec3, v: Vec3, c: Vec3, r: real, confined: bool, dist: real, sqDelta: real, d: real)
    requires IsRoot(dist, SqMag(v)) && dist >= SHORT
    requires var delta := Delta(Unit(v, dist), o, c, r); delta >= 0.0 ==> IsRoot(sqDelta, delta)
    ensures var u := Unit(v, dist);
      d in Distances(-Dot(u, Sub(o, c)), Delta(u, o, c, r), sqDelta, dist, confined) <==>
        Accepted(d, dist, confined) && OnSphere(c, r, At(o, u, d))
  {
    var u := Unit(v, dist);
    UnitMeans(v, dist);
    SphereAt(o, u, c, r, d);
    IsDistance(-Dot(u, Sub(o, c)), Delta(u, o, c, r), sqDelta, dist, confined, d, OnSphere(c, r, At(o, u, d)));
  }

  lemma IsDistance(mid: real, delta: real, sqDelta: real, dist: real, confined: bool, d: real, on: bool)
    requires delta >= 0.0 ==> IsRoot(sqDelta, delta)
    requires var e := d - mid; on <==> e * e == delta
    ensures d in Distances(mid, delta, sqDelta, dist, confined) <==> Accepted(d, dist, confined) && on
  {
    DistancesMean(mid, delta, sqDelta, dist, confined);
  }

  lemma LineToUnit(o: Vec3, v: Vec3, confined: bool, dist: real, p: Vec3) returns (d: real)
    requires IsRoot(dist, SqMag(v)) && dist >= SHORT && OnLine(o, v, confined, p)
    ensures Accepted(d, dist, confined) && p == At(o, Unit(v, dist), d)
  {
    var t :| p == At(o, v, t) && (confined ==> 0.0 <= t <= 1.0);
    d := t * dist;
    assert d / dist == t;
    UnitAt(o, v, dist, d, confined);
  }

  lemma UnitToLine(o: Vec3, v: Vec3, confined: bool, dist: real, d: real)
    requires IsRoot(dist, SqMag(v)) && dist >= SHORT && Accepted(d, dist, confined)
    ensures OnLine(o, v, confined, At(o, Unit(v, dist), d))
  {
    UnitAt(o, v, dist, d, confined);
  }

  lemma PointIff(o: Vec3, u: Vec3, ds: seq<real>, p: Vec3)
    ensures p in Points(o, u, ds) <==> exists d :: d in ds && p == At(o, u, d)
  {
    if d :| d in ds && p == At(o, u, d) {
      var i :| 0 <= i < |ds| && ds[i] == d;
      assert Points(o, u, ds)[i] == p;
    }
  }

  lemma HitsOnBoth(o: Vec3, v: Vec3, c: Vec3, r: real, confined: bool, dist: real, sqDelta: real, p: Vec3)
    requires IsRoot(dist, SqMag(v)) && dist >= SHORT
    requires var delta := Delta(Unit(v, dist), o, c, r); delta >= 0.0 ==> IsRoot(sqDelta, delta)
    requires p in Hits(o, v, c, r, confined, dist, sqDelta)
    ensures OnLine(o, v, confined, p) && OnSphere(c, r, p)
  {
    var u := Unit(v, dist);
    var ds := Distances(-Dot(u, Sub(o, c)), Delta(u, o, c, r), sqDelta, dist, confined);
    PointIff(o, u, ds, p);
    var d :| d in ds && p == At(o, u, d);
    DistanceIff(o, v, c, r, confined, dist, sqDelta, d);
    UnitToLine(o, v, confined, dist, d);
  }

  lemma BothAreHits(o: Vec3, v: Vec3, c: Vec3, r: real, confined: bool, dist: real, sqDelta: real, p: Vec3)
    requires IsRoot(dist, SqMag(v)) && dist >= SHORT
    requires var delta := Delta(Unit(v, dist), o, c, r); delta >= 0.0 ==> IsRoot(sqDelta, delta)
    requires OnLine(o, v, confined, p) && OnSphere(c, r, p)
    ensures p in Hits(o, v, c, r, confined, dist, sqDelta)
  {
    var u := Unit(v, dist);
    var d := LineToUnit(o, v, confined, dist, p);
    DistanceIff(o, v, c, r, confined, dist, sqDelta, d);
    PointIff(o, u, Distances(-Dot(u, Sub(o, c)), Delta(u, o, c, r), sqDelta, dist, confined), p);
  }

  lemma HitsInOrder(o: Vec3, v: Vec3, u: Vec3, ds: seq<real>, i: nat, j: nat)
    requires i < j < |ds| && ds[i] < ds[j] && Dot(v, u) > 0.0
    ensures Dot(v, Sub(Points(o, u, ds)[j], Points(o, u, ds)[i])) > 0.0
  {
    Between(o, v, u, ds[i], ds[j]);
  }

  lemma Between(o: Vec3, v: Vec3, u: Vec3, d: real, e: real)
    ensures Dot(v, Sub(At(o, u, e), At(o, u, d))) == (e - d) * Dot(v, u)
  {
  }

  /** A vector long enough to be normalised gives exactly the common points of line and sphere. */
  lemma HitsAreRight(o: Vec3, v: Vec3, c: Vec3, r: real, confined: bool, dist: real, sqDelta: real)
    requires IsRoot(dist, SqMag(v)) && dist >= SHORT
    requires var delta := Delta(Unit(v, dist), o, c, r); delta >= 0.0 ==> IsRoot(sqDelta, delta)
    ensures Right(Hits(o, v, c, r, confined, dist, sqDelta), o, v, c, r, confined)
  {
    var hits := Hits(o, v, c, r, confined, dist, sqDelta);
    forall p | p in hits ensures OnLine(o, v, confined, p) && OnSphere(c, r, p) {
      HitsOnBoth(o, v, c, r, confined, dist, sqDelta, p);
    }
    forall p | OnLine(o, v, confined, p) && OnSphere(c, r, p) ensures p in hits {
      BothAreHits(o, v, c, r, confined, dist, sqDelta, p);
    }
    var u := Unit(v, dist);
    var mid, delta := -Dot(u, Sub(o, c)), Delta(u, o, c, r);
    var ds := Distances(mid, delta, sqDelta, dist, confined);
    forall i, j | 0 <= i < j < |hits| ensures Dot(v, Sub(hits[j], hits[i])) > 0.0 {
      DistancesMean(mid, delta, sqDelta, dist, confined);
      UnitMeans(v, dist);
      HitsInOrder(o, v, u, ds, i, j);
    }
  }

  /** vec3_int_sph is right along `v`, whatever the line's origin and the sphere. */
  ghost predicate AlwaysRight(v: Vec3, dist: real, confined: bool) {
    forall o, c, r, sqDelta ::
      r >= 0.0 && (Delta(Unit(v, dist), o, c, r) >= 0.0 ==> IsRoot(sqDelta, Delta(Unit(v, dist), o, c, r)))
      ==> Right(Hits(o, v, c, r, confined, dist, sqDelta), o, v, c, r, confined)
  }

  lemma ZeroIsRight(o: Vec3, v: Vec3, c: Vec3, r: real, sqDelta: real)
    requires v == Vec3(0.0, 0.0, 0.0)
    requires var delta := Delta(v, o, c, r); delta >= 0.0 ==> IsRoot(sqDelta, delta)
    ensures Right(Hits(o, v, c, r, true, 0.0, sqDelta), o, v, c, r, true)
  {
    var delta := Delta(v, o, c, r);
    assert Dot(v, Sub(o, c)) == 0.0;
    var ds := Distances(0.0, delta, sqDelta, 0.0, true);
    assert Hits(o, v, c, r, true, 0.0, sqDelta) == Points(o, v, ds);
    IsDistance(0.0, delta, sqDelta, 0.0, true, 0.0, delta == 0.0);
    assert delta == r * r - SqMag(Sub(o, c));
    DistancesMean(0.0, delta, sqDelta, 0.0, true);
    ZeroPoints(o, v, ds);
    assert |ds| <= 1 by {
      assert forall d <- ds :: d == 0.0;
    }
  }

  lemma ZeroPoints(o: Vec3, v: Vec3, ds: seq<real>)
    requires v == Vec3(0.0, 0.0, 0.0) && forall d <- ds :: d == 0.0
    ensures forall p :: OnLine(o, v, true, p) <==> p == o
    ensures forall p :: p in Points(o, v, ds) <==> p == o && 0.0 in ds
  {
    assert forall t: real :: At(o, v, t) == o;
    assert o == At(o, v, 0.0);
    forall p ensures p in Points(o, v, ds) <==> p == o && 0.0 in ds {
      PointIff(o, v, ds, p);
    }
  }

  lemma ZeroVector(v: Vec3)
    requires SqMag(v) == 0.0
    ensures v == Vec3(0.0, 0.0, 0.0)
  {
    SquarePositive(v.x);
    SquarePositive(v.y);
    SquarePositive(v.z);
  }

  /** Along a shorter vector the distances are scaled twice: a sphere around the origin of the line is missed. */
  lemma ShortIsWrong(v: Vec3, dist: real, confined: bool)
    requires IsRoot(dist, SqMag(v)) && dist < SHORT && (dist > 0.0 || !confined)
    ensures !AlwaysRight(v, dist, confined)
  {
    var o := Vec3(0.0, 0.0, 0.0);
    var r := if dist > 0.0 then dist / 2.0 else 1.0;
    SquarePositive(r);
    ShortHit(o, v, r, dist, confined);
    ShortMisses(o, v, r, dist);
    assert !Right(Hits(o, v, o, r, confined, dist, r), o, v, o, r, confined);
  }

  lemma ShortHit(o: Vec3, v: Vec3, r: real, dist: real, confined: bool)
    requires o == Vec3(0.0, 0.0, 0.0) && dist < SHORT && r > 0.0 && (confined ==> r <= dist)
    ensures Delta(Unit(v, dist), o, o, r) == r * r
    ensures At(o, v, r) in Hits(o, v, o, r, confined, dist, r)
  {
    var mid, delta := -Dot(v, Sub(o, o)), Delta(v, o, o, r);
    assert mid == 0.0 && delta == r * r by {
      assert Sub(o, o) == o;
    }
    IsDistance(mid, delta, r, dist, confined, r, true);
    PointIff(o, v, Distances(mid, delta, r, dist, confined), At(o, v, r));
  }

  lemma ShortMisses(o: Vec3, v: Vec3, r: real, dist: real)
    requires o == Vec3(0.0, 0.0, 0.0) && IsRoot(dist, SqMag(v)) && dist < 1.0 && r > 0.0
    ensures !OnSphere(o, r, At(o, v, r))
  {
    assert Sub(At(o, v, r), o) == Mul(v, r);
    SqMagScaled(v, r);
    SquarePositive(r);
    Shrinks(r * r, dist, SqMag(v), SqMag(Mul(v, r)));
  }

  lemma SqMagScaled(v: Vec3, r: real)
    ensures SqMag(Mul(v, r)) == r * r * SqMag(v)
  {
  }

  lemma Shrinks(x: real, m: real, square: real, y: real)
    requires x > 0.0 && 0.0 <= m < 1.0 && square == m * m && y == x * square
    ensures y < x
  {
    if m > 0.0 {
      Grows(m, m, 1.0);
    }
    Grows(x, square, 1.0);
  }

  lemma Grows(x: real, a: real, b: real)
    requires x > 0.0 && a < b
    ensures x * a < x * b
  {
  }

  /** The exact condition: the vector is long enough to be normalised, or it is zero and the line is confined. */
  lemma AlwaysRightIff(v: Vec3, dist: real, confined: bool)
    requires IsRoot(dist, SqMag(v))
    ensures AlwaysRight(v, dist, confined) <==> dist >= SHORT || (dist == 0.0 && confined)
  {
    if dist >= SHORT {
      forall o, c, r, sqDelta |
        r >= 0.0 && (Delta(Unit(v, dist), o, c, r) >= 0.0 ==> IsRoot(sqDelta, Delta(Unit(v, dist), o, c, r)))
        ensures Right(Hits(o, v, c, r, confined, dist, sqDelta), o, v, c, r, confined)
      {
        HitsAreRight(o, v, c, r, confined, dist, sqDelta);
      }
    } else if dist == 0.0 && confined {
      forall o, c, r, sqDelta |
        r >= 0.0 && (Delta(Unit(v, dist), o, c, r) >= 0.0 ==> IsRoot(sqDelta, Delta(Unit(v, dist), o, c, r)))
        ensures Right(Hits(o, v, c, r, confined, dist, sqDelta), o, v, c, r, confined)
      {
        ZeroVector(v);
        ZeroIsRight(o, v, c, r, sqDelta);
      }
    } else {
      ShortIsWrong(v, dist, confined);
    }
  }

  // ---- two segments --------------------------------------------------------------------------------------

  datatype Vec2 = Vec2(x: real, y: real)

  function PDot(a: Vec2, b: Vec2): real { a.x * b.y - a.y * b.x }

  function Add2(a: Vec2, b: Vec2): Vec2 { Vec2(a.x + b.x, a.y + b.y) }

  function Sub2(a: Vec2, b: Vec2): Vec2 { Vec2(a.x - b.x, a.y - b.y) }

  function Mul2(a: Vec2, b: real): Vec2 { Vec2(a.x * b, a.y * b) }

  /** A double without rounding: a division by zero gives an infinity or no number. */
  datatype Double = Finite(value: real) | Infinite(negative: bool) | NotANumber

  function Quotient(x: real, y: real): Double {
    if y != 0.0 then Finite(x / y) else if x == 0.0 then NotANumber else Infinite(x < 0.0)
  }

  /** No number is equal to another, and compares with none. */
  predicate SameDouble(a: Double, b: Double) { a == b && a != NotANumber }

  predicate OutsideUnit(t: Double) {
    match t
    case Finite(x) => x < 0.0 || x > 1.0
    case Infinite(_) => true
    case NotANumber => false
  }

  /** vec2_parallel. */
  predicate Parallel(a: Vec2, b: Vec2) {
    (a.y == 0.0 && b.y == 0.0) || SameDouble(Quotient(a.x, a.y), Quotient(b.x, b.y))
  }

  /** vec2_int_vec2; None is the vector of NaNs. */
  function IntersectSegments(a: Vec2, u: Vec2, b: Vec2, v: Vec2): Option<Vec2> {
    if Parallel(u, v) then None
    else if a == b then Some(a)
    else
      var ta := Quotient(PDot(Sub2(b, a), v), PDot(u, v));
      var tb := Quotient(PDot(Sub2(a, b), u), PDot(v, u));
      if OutsideUnit(ta) || OutsideUnit(tb) then None
      else match ta
        case Finite(t) => Some(At2(a, u, t))
        case _ => None
  }

  function At2(a: Vec2, u: Vec2, t: real): Vec2 { Add2(a, Mul2(u, t)) }

  ghost predicate OnSegment(a: Vec2, u: Vec2, p: Vec2) {
    exists t: real :: 0.0 <= t <= 1.0 && p == At2(a, u, t)
  }

  ghost predicate Meet(a: Vec2, u: Vec2, b: Vec2, v: Vec2, p: Vec2) { OnSegment(a, u, p) && OnSegment(b, v, p) }

  const ZERO: Vec2 := Vec2(0.0, 0.0)

  /** The perpendicular product is zero exactly for parallel vectors; but the zero vector counts as parallel to
      horizontal vectors only. */
  lemma ParallelIff(u: Vec2, v: Vec2)
    ensures Parallel(u, v) <==>
      PDot(u, v) == 0.0 && (u == ZERO ==> v.y == 0.0) && (v == ZERO ==> u.y == 0.0)
  {
    if u.y != 0.0 && v.y != 0.0 {
      assert u.x / u.y * u.y == u.x && v.x / v.y * v.y == v.x;
      assert u.x / u.y == v.x / v.y <==> u.x * v.y == v.x * u.y;
    } else if u.y != 0.0 {
      assert PDot(u, v) == -(u.y * v.x);
    } else if v.y != 0.0 {
      assert PDot(u, v) == u.x * v.y;
    }
  }

  /** The two lines meet at one point, found from either side. */
  lemma LinesMeet(a: Vec2, u: Vec2, b: Vec2, v: Vec2)
    requires PDot(u, v) != 0.0
    ensures PDot(v, u) != 0.0
    ensures At2(a, u, PDot(Sub2(b, a), v) / PDot(u, v)) == At2(b, v, PDot(Sub2(a, b), u) / PDot(v, u))
  {
    var d := PDot(u, v);
    var ta, tb := PDot(Sub2(b, a), v) / d, PDot(Sub2(a, b), u) / PDot(v, u);
    assert ta * d == PDot(Sub2(b, a), v);
    assert tb * d == PDot(Sub2(b, a), u);
  }

  lemma Crossing(a: Vec2, u: Vec2, b: Vec2, v: Vec2, s: real, t: real)
    requires At2(a, u, s) == At2(b, v, t)
    ensures s * PDot(u, v) == PDot(Sub2(b, a), v) && t * PDot(v, u) == PDot(Sub2(a, b), u)
  {
    assert Sub2(b, a) == Sub2(Mul2(u, s), Mul2(v, t));
    assert Sub2(a, b) == Sub2(Mul2(v, t), Mul2(u, s));
  }

  lemma QuotientIs(x: real, y: real, q: real)
    requires y != 0.0 && q * y == x
    ensures Quotient(x, y) == Finite(q)
  {
    assert x / y * y == x;
    var d := x / y - q;
    assert d * y == 0.0;
    ZeroProduct(d, y);
  }

  lemma MeetIsFound(a: Vec2, u: Vec2, b: Vec2, v: Vec2, p: Vec2)
    requires PDot(u, v) != 0.0 && Meet(a, u, b, v, p)
    ensures IntersectSegments(a, u, b, v) == Some(p)
  {
    ParallelIff(u, v);
    var s :| 0.0 <= s <= 1.0 && p == At2(a, u, s);
    var t :| 0.0 <= t <= 1.0 && p == At2(b, v, t);
    if a == b {
      SameOrigin(a, u, v, s, t);
    } else {
      Parameters(a, u, b, v, s, t);
    }
  }

  lemma SameOrigin(a: Vec2, u: Vec2, v: Vec2, s: real, t: real)
    requires PDot(u, v) != 0.0 && At2(a, u, s) == At2(a, v, t)
    ensures At2(a, u, s) == a
  {
    Crossing(a, u, a, v, s, t);
    ZeroProduct(s, PDot(u, v));
  }

  lemma Parameters(a: Vec2, u: Vec2, b: Vec2, v: Vec2, s: real, t: real)
    requires PDot(u, v) != 0.0 && At2(a, u, s) == At2(b, v, t)
    ensures Quotient(PDot(Sub2(b, a), v), PDot(u, v)) == Finite(s)
    ensures Quotient(PDot(Sub2(a, b), u), PDot(v, u)) == Finite(t)
  {
    Crossing(a, u, b, v, s, t);
    assert PDot(v, u) == -PDot(u, v);
    QuotientIs(PDot(Sub2(b, a), v), PDot(u, v), s);
    QuotientIs(PDot(Sub2(a, b), u), PDot(v, u), t);
  }

  lemma FoundIsMeet(a: Vec2, u: Vec2, b: Vec2, v: Vec2, p: Vec2)
    requires PDot(u, v) != 0.0 && IntersectSegments(a, u, b, v) == Some(p)
    ensures Meet(a, u, b, v, p)
  {
    ParallelIff(u, v);
    if a == b {
      assert At2(a, u, 0.0) == a == At2(b, v, 0.0);
    } else {
      LinesMeet(a, u, b, v);
    }
  }

  /** For vectors that are not parallel, the result is the one common point of the segments, or none. */
  lemma FoundIffMeet(a: Vec2, u: Vec2, b: Vec2, v: Vec2, p: Vec2)
    requires PDot(u, v) != 0.0
    ensures IntersectSegments(a, u, b, v) == Some(p) <==> Meet(a, u, b, v, p)
  {
    if Meet(a, u, b, v, p) {
      MeetIsFound(a, u, b, v, p);
    } else if IntersectSegments(a, u, b, v) == Some(p) {
      FoundIsMeet(a, u, b, v, p);
    }
  }

  /** For parallel vectors nothing is found, even when the segments overlap; but with a vector that is zero, and
      another that is not horizontal, equal origins are. */
  lemma ParallelResult(a: Vec2, u: Vec2, b: Vec2, v: Vec2)
    requires PDot(u, v) == 0.0
    ensures IntersectSegments(a, u, b, v) ==
      if a == b && ((u == ZERO && v.y != 0.0) || (v == ZERO && u.y != 0.0)) then Some(a) else None
  {
    ParallelIff(u, v);
  }

  /** vec2_int_vec2 is right along `u` and `v`, whatever the origins. */
  ghost predicate AlwaysMeets(u: Vec2, v: Vec2) {
    forall a, b, p :: IntersectSegments(a, u, b, v) == Some(p) <==> Meet(a, u, b, v, p)
  }

  /** The exact condition: the vectors span the plane. */
  lemma AlwaysMeetsIff(u: Vec2, v: Vec2)
    ensures AlwaysMeets(u, v) <==> PDot(u, v) != 0.0
  {
    if PDot(u, v) != 0.0 {
      forall a, b, p ensures IntersectSegments(a, u, b, v) == Some(p) <==> Meet(a, u, b, v, p) {
        FoundIffMeet(a, u, b, v, p);
      }
    } else {
      var b, p := NotMet(ZERO, u, v);
      assert !(IntersectSegments(ZERO, u, b, v) == Some(p) <==> Meet(ZERO, u, b, v, p));
    }
  }

  /** Parallel segments with a common point that is not found. */
  lemma NotMet(a: Vec2, u: Vec2, v: Vec2) returns (b: Vec2, p: Vec2)
    requires PDot(u, v) == 0.0
    ensures Meet(a, u, b, v, p) && IntersectSegments(a, u, b, v) == None
  {
    if u == ZERO && v.y != 0.0 {
      b, p := Vec2(a.x - 0.5 * v.x, a.y - 0.5 * v.y), a;
      MeetAt(a, u, b, v, 0.0, 0.5, p);
    } else if v == ZERO && u.y != 0.0 {
      b := Vec2(a.x + 0.5 * u.x, a.y + 0.5 * u.y);
      p := b;
      MeetAt(a, u, b, v, 0.5, 0.0, p);
    } else {
      b, p := a, a;
      MeetAt(a, u, b, v, 0.0, 0.0, p);
    }
    ParallelMissed(a, u, b, v);
  }

  lemma ParallelMissed(a: Vec2, u: Vec2, b: Vec2, v: Vec2)
    requires PDot(u, v) == 0.0
    requires (u == ZERO && v.y != 0.0) || (v == ZERO && u.y != 0.0) ==> a.y != b.y
    ensures IntersectSegments(a, u, b, v) == None
  {
    ParallelResult(a, u, b, v);
  }

  lemma MeetAt(a: Vec2, u: Vec2, b: Vec2, v: Vec2, s: real, t: real, p: Vec2)
    requires 0.0 <= s <= 1.0 && 0.0 <= t <= 1.0 && p == At2(a, u, s) == At2(b, v, t)
    ensures Meet(a, u, b, v, p)
  {
  }
}

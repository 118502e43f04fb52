/** The sphere surface (public/js/surfaces.js, `SphereSurface`): the ray is
    solved against |o + t d - center|^2 = r2 with the half-b form of the
    quadratic formula, the near root first. */
module Spheres {
  import opened Wrappers
  import opened Vector3
  import opened Hits
  import opened Quadratics

  /** A point on the sphere of squared radius r2. */
  predicate OnSphere(center: Vec3, r2: real, p: Vec3) {
    Dot(Sub(p, center), Sub(p, center)) == r2
  }

  /** `bHalf`: the ray direction against the origin's offset from the
      center. */
  function HalfB(center: Vec3, o: Vec3, d: Vec3): real {
    Dot(Sub(o, center), d)
  }

  /** `c`: the squared distance of the origin from the center (through
      `norm(..) ** 2`) less r2. */
  function ConstTerm(sqrt: SqrtFn, center: Vec3, r2: real, o: Vec3): real {
    var n := Norm(sqrt, Sub(o, center));
    n * n - r2
  }

  function Discriminant(sqrt: SqrtFn, center: Vec3, r2: real, o: Vec3, d: Vec3): real {
    var bHalf := HalfB(center, o, d);
    bHalf * bHalf - ConstTerm(sqrt, center, r2, o)
  }

  /** `t1 = -bHalf - root` and `t2 = -bHalf + root`. */
  function NearRoot(sqrt: SqrtFn, center: Vec3, r2: real, o: Vec3, d: Vec3): real {
    -HalfB(center, o, d) - sqrt(Discriminant(sqrt, center, r2, o, d))
  }

  function FarRoot(sqrt: SqrtFn, center: Vec3, r2: real, o: Vec3, d: Vec3): real {
    -HalfB(center, o, d) + sqrt(Discriminant(sqrt, center, r2, o, d))
  }

  /** The acceptance test both roots face: strictly after the origin and
      strictly below the bound. */
  predicate InRange(t: real, tMax: Bound) {
    t > 0.0 && Below(t, tMax)
  }

  /** `rayIntersect`. The near root is taken when in range, with the
      outward normal; otherwise the far root, with the inward normal. */
  function Intersect(sqrt: SqrtFn, center: Vec3, r2: real, o: Vec3, d: Vec3, tMax: Bound): (r: Option<Hit>)
    ensures Discriminant(sqrt, center, r2, o, d) < 0.0 ==> r.None?
    ensures r.Some? ==> InRange(r.value.t, tMax) && r.value.p == PointAt(o, d, r.value.t)
    ensures (Discriminant(sqrt, center, r2, o, d) >= 0.0 && InRange(NearRoot(sqrt, center, r2, o, d), tMax)) ==>
      r.Some? && r.value.t == NearRoot(sqrt, center, r2, o, d) &&
      r.value.normal == Normalize(sqrt, Sub(r.value.p, center))
    ensures r.Some? && r.value.t != NearRoot(sqrt, center, r2, o, d) ==>
      r.value.t == FarRoot(sqrt, center, r2, o, d) &&
      r.value.normal == Normalize(sqrt, Sub(center, r.value.p))
  {
    var discrim := Discriminant(sqrt, center, r2, o, d);
    if discrim < 0.0 then None
    else
      var t1 := NearRoot(sqrt, center, r2, o, d);
      if InRange(t1, tMax) then
        var p := PointAt(o, d, t1);
        Some(Hit(t1, p, Normalize(sqrt, Sub(p, center))))
      else
        var t2 := FarRoot(sqrt, center, r2, o, d);
        if InRange(t2, tMax) then
          var p := PointAt(o, d, t2);
          Some(Hit(t2, p, Normalize(sqrt, Sub(center, p))))
        else None
  }

  // ---------------------------------------------------------------------
  // Geometry of the intersection.

  /** |u + t d|^2 expanded in t. */
  lemma DotExpand(u: Vec3, d: Vec3, t: real)
    ensures Dot(Add(u, Scale(d, t)), Add(u, Scale(d, t))) ==
      t * t * Dot(d, d) + 2.0 * t * Dot(u, d) + Dot(u, u)
  {
  }

  lemma OffsetOfPoint(center: Vec3, o: Vec3, d: Vec3, t: real)
    ensures Sub(PointAt(o, d, t), center) == Add(Sub(o, center), Scale(d, t))
  {
  }

  /** For a unit direction and an exact root, the ray meets the sphere at t
      exactly when the discriminant is non-negative and t is one of the two
      roots. */
  lemma SphereRoots(sqrt: SqrtFn, center: Vec3, r2: real, o: Vec3, d: Vec3, t: real)
    requires ExactSqrt(sqrt)
    requires Dot(d, d) == 1.0
    ensures OnSphere(center, r2, PointAt(o, d, t)) <==>
      Discriminant(sqrt, center, r2, o, d) >= 0.0 &&
      (t == NearRoot(sqrt, center, r2, o, d) || t == FarRoot(sqrt, center, r2, o, d))
  {
    var b := HalfB(center, o, d);
    var c := ConstTerm(sqrt, center, r2, o);
    var disc := Discriminant(sqrt, center, r2, o, d);
    assert disc == b * b - c;
    SphereEquation(sqrt, center, r2, o, d, t);
    MonicRoots(sqrt, t, b, c, disc);
    assert NearRoot(sqrt, center, r2, o, d) == -b - sqrt(disc);
    assert FarRoot(sqrt, center, r2, o, d) == -b + sqrt(disc);
  }

  /** On the ray, the sphere's equation is the monic quadratic in t with
      half linear coefficient `bHalf` and constant term `c`. */
  lemma SphereEquation(sqrt: SqrtFn, center: Vec3, r2: real, o: Vec3, d: Vec3, t: real)
    requires ExactSqrt(sqrt)
    requires Dot(d, d) == 1.0
    ensures OnSphere(center, r2, PointAt(o, d, t)) <==>
      t * t + 2.0 * HalfB(center, o, d) * t + ConstTerm(sqrt, center, r2, o) == 0.0
  {
    var u := Sub(o, center);
    OffsetSquared(center, o, d, t);
    NormSquared(sqrt, u);
    assert ConstTerm(sqrt, center, r2, o) == Dot(u, u) - r2;
  }

  /** For a unit direction, the squared distance from the center along the
      ray is `t^2 + 2 bHalf t + |o - center|^2`. */
  lemma OffsetSquared(center: Vec3, o: Vec3, d: Vec3, t: real)
    requires Dot(d, d) == 1.0
    ensures var q := Sub(PointAt(o, d, t), center);
      Dot(q, q) == t * t + 2.0 * HalfB(center, o, d) * t + Dot(Sub(o, center), Sub(o, center))
  {
    var u := Sub(o, center);
    var q := Sub(PointAt(o, d, t), center);
    OffsetOfPoint(center, o, d, t);
    DotExpand(u, d, t);
    UnitQuadratic(Dot(q, q), t, Dot(d, d), HalfB(center, o, d), Dot(u, u));
  }

  lemma UnitQuadratic(q2: real, t: real, dd: real, b: real, uu: real)
    requires q2 == t * t * dd + 2.0 * t * b + uu && dd == 1.0
    ensures q2 == t * t + 2.0 * b * t + uu
  {
  }

  /** The near root never exceeds the far one. */
  lemma RootsOrdered(sqrt: SqrtFn, center: Vec3, r2: real, o: Vec3, d: Vec3)
    requires NonNegSqrt(sqrt)
    requires Discriminant(sqrt, center, r2, o, d) >= 0.0
    ensures NearRoot(sqrt, center, r2, o, d) <= FarRoot(sqrt, center, r2, o, d)
  {
    assert sqrt(Discriminant(sqrt, center, r2, o, d)) >= 0.0;
  }

  /** For a unit direction and an exact root, the reported hit is on the
      sphere and is the nearest point of the sphere strictly after the origin
      and below the bound; no hit means there is no such point. */
  lemma IntersectNearest(sqrt: SqrtFn, center: Vec3, r2: real, o: Vec3, d: Vec3, tMax: Bound)
    requires ExactSqrt(sqrt)
    requires Dot(d, d) == 1.0
    ensures var r := Intersect(sqrt, center, r2, o, d, tMax);
      r.Some? ==> OnSphere(center, r2, r.value.p)
    ensures var r := Intersect(sqrt, center, r2, o, d, tMax);
      r.Some? ==> forall t :: InRange(t, tMax) && OnSphere(center, r2, PointAt(o, d, t)) ==> r.value.t <= t
    ensures var r := Intersect(sqrt, center, r2, o, d, tMax);
      r.None? ==> forall t :: InRange(t, tMax) ==> !OnSphere(center, r2, PointAt(o, d, t))
  {
    var r := Intersect(sqrt, center, r2, o, d, tMax);
    var near, far := NearRoot(sqrt, center, r2, o, d), FarRoot(sqrt, center, r2, o, d);
    if r.Some? {
      SphereRoots(sqrt, center, r2, o, d, r.value.t);
      RootsOrdered(sqrt, center, r2, o, d);
      forall t | InRange(t, tMax) && OnSphere(center, r2, PointAt(o, d, t))
        ensures r.value.t <= t
      {
        SphereRoots(sqrt, center, r2, o, d, t);
      }
    } else {
      forall t | InRange(t, tMax)
        ensures !OnSphere(center, r2, PointAt(o, d, t))
      {
        SphereRoots(sqrt, center, r2, o, d, t);
      }
    }
  }

  /** For a unit direction and a non-negative root, the reported normal
      never points along the ray: it is outward on the near root, where the
      ray enters, and inward on the far root, where it leaves. */
  lemma NormalFacesRay(sqrt: SqrtFn, center: Vec3, r2: real, o: Vec3, d: Vec3, tMax: Bound)
    requires NonNegSqrt(sqrt)
    requires Dot(d, d) == 1.0
    ensures var r := Intersect(sqrt, center, r2, o, d, tMax);
      r.Some? ==> Dot(r.value.normal, d) <= 0.0
  {
    var r := Intersect(sqrt, center, r2, o, d, tMax);
    if r.Some? {
      var t, p := r.value.t, r.value.p;
      var root := sqrt(Discriminant(sqrt, center, r2, o, d));
      assert root >= 0.0;
      RadialSlope(center, o, d, t);
      if t == NearRoot(sqrt, center, r2, o, d) {
        NormalizedSlope(sqrt, Sub(p, center), d, root);
      } else {
        assert Dot(Sub(center, p), d) == -Dot(Sub(p, center), d);
        NormalizedSlope(sqrt, Sub(center, p), d, root);
      }
    }
  }

  /** Along a unit direction, the offset from the center changes its
      projection on the direction at unit rate. */
  lemma RadialSlope(center: Vec3, o: Vec3, d: Vec3, t: real)
    requires Dot(d, d) == 1.0
    ensures Dot(Sub(PointAt(o, d, t), center), d) == HalfB(center, o, d) + t
  {
    OffsetOfPoint(center, o, d, t);
    var u := Sub(o, center);
    assert Dot(Add(u, Scale(d, t)), d) == Dot(u, d) + t * Dot(d, d);
  }

  /** Normalizing (with a non-negative root) keeps the sign of a
      non-positive projection. */
  lemma NormalizedSlope(sqrt: SqrtFn, v: Vec3, d: Vec3, root: real)
    requires NonNegSqrt(sqrt)
    requires root >= 0.0 && Dot(v, d) == -root
    ensures Dot(Normalize(sqrt, v), d) <= 0.0
  {
    var q := v.x * v.x + v.y * v.y + v.z * v.z;
    assert q >= 0.0 by {
      DotSelfNonNeg(v);
    }
    assert sqrt(q) >= 0.0;
    var k := Recip(Norm(sqrt, v));
    assert k >= 0.0;
    calc {
      Dot(Normalize(sqrt, v), d);
      == k * Dot(v, d);
      == k * -root;
      <= 0.0;
    }
  }

  /** Lowering the bound only discards a hit; it never changes one (the near
      root is never after the far one). */
  lemma IntersectMonotone(sqrt: SqrtFn, center: Vec3, r2: real, o: Vec3, d: Vec3, tMax: Bound)
    requires NonNegSqrt(sqrt)
    ensures Intersect(sqrt, center, r2, o, d, tMax) == Cut(Intersect(sqrt, center, r2, o, d, Infinity), tMax)
  {
    if Discriminant(sqrt, center, r2, o, d) >= 0.0 {
      RootsOrdered(sqrt, center, r2, o, d);
    }
  }
}

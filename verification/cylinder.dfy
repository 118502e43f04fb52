/** The cylinder surface (public/js/surfaces.js, `CylinderSurface`): the ray
    is solved against the infinite cylinder of squared radius r2 around the
    (unit) axis through the base point, then clamped to the segment of the
    axis between the base and `height` along it. */
module Cylinders {
  import opened Wrappers
  import opened Vector3
  import opened Hits
  import opened Quadratics

  /** A point at squared distance r2 from the axis line: the offset from
      the base, less its projection on the axis. */
  predicate OnCylinder(base: Vec3, axis: Vec3, r2: real, p: Vec3) {
    var q := Sub(p, base);
    Dot(q, q) - Dot(axis, q) * Dot(axis, q) == r2
  }

  /** The projection of a point on the axis, measured from the base
      (`d1`/`d2` in the source). */
  function Axial(base: Vec3, axis: Vec3, p: Vec3): real {
    Dot(axis, Sub(p, base))
  }

  /** The point of the axis level with p (`offset` in the source). */
  function Foot(base: Vec3, axis: Vec3, p: Vec3): Vec3 {
    Add(base, Scale(axis, Axial(base, axis, p)))
  }

  /** With a unit axis, the foot is level with p and the offset `p - foot`
      is orthogonal to the axis: it is the radial direction the normal is
      built from. */
  lemma FootLevel(base: Vec3, axis: Vec3, p: Vec3)
    requires Dot(axis, axis) == 1.0
    ensures Axial(base, axis, Foot(base, axis, p)) == Axial(base, axis, p)
    ensures Dot(axis, Sub(p, Foot(base, axis, p))) == 0.0
  {
    var h := Axial(base, axis, p);
    var s := Scale(axis, h);
    assert Sub(Foot(base, axis, p), base) == s;
    assert Dot(axis, s) == h * Dot(axis, axis);
    assert Sub(p, Foot(base, axis, p)) == Sub(Sub(p, base), s);
    assert Dot(axis, Sub(Sub(p, base), s)) == Dot(axis, Sub(p, base)) - Dot(axis, s);
  }

  /** `a`: the direction's squared length less its squared projection on
      the axis. */
  function LeadCoef(axis: Vec3, d: Vec3): real {
    Dot(d, d) - Dot(axis, d) * Dot(axis, d)
  }

  /** `bHalf`. */
  function HalfB(base: Vec3, axis: Vec3, o: Vec3, d: Vec3): real {
    var u := Sub(o, base);
    Dot(u, d) - Dot(axis, u) * Dot(axis, d)
  }

  /** `c`. */
  function ConstTerm(base: Vec3, axis: Vec3, r2: real, o: Vec3): real {
    var u := Sub(o, base);
    Dot(u, u) - Dot(axis, u) * Dot(axis, u) - r2
  }

  function Discriminant(base: Vec3, axis: Vec3, r2: real, o: Vec3, d: Vec3): real {
    var bHalf := HalfB(base, axis, o, d);
    bHalf * bHalf - LeadCoef(axis, d) * ConstTerm(base, axis, r2, o)
  }

  /** `t1 = (-bHalf - root) / a` and `t2 = (-bHalf + root) / a`. */
  function NearRoot(sqrt: SqrtFn, base: Vec3, axis: Vec3, r2: real, o: Vec3, d: Vec3): real
    requires LeadCoef(axis, d) != 0.0
  {
    (-HalfB(base, axis, o, d) - sqrt(Discriminant(base, axis, r2, o, d))) / LeadCoef(axis, d)
  }

  function FarRoot(sqrt: SqrtFn, base: Vec3, axis: Vec3, r2: real, o: Vec3, d: Vec3): real
    requires LeadCoef(axis, d) != 0.0
  {
    (-HalfB(base, axis, o, d) + sqrt(Discriminant(base, axis, r2, o, d))) / LeadCoef(axis, d)
  }

  /** The test each candidate faces: strictly after the origin, strictly
      below the bound, and strictly between the two ends of the axis. */
  predicate Accepts(base: Vec3, axis: Vec3, height: real, o: Vec3, d: Vec3, t: real, tMax: Bound) {
    var h := Axial(base, axis, PointAt(o, d, t));
    t > 0.0 && Below(t, tMax) && 0.0 < h < height
  }

  /** `rayIntersect`. A zero `a` (a ray parallel to the axis) divides by
      zero in the source; the quotients are then infinite or NaN, and fail
      the range checks, so no hit is reported. */
  function Intersect(sqrt: SqrtFn, base: Vec3, axis: Vec3, r2: real, height: real,
                     o: Vec3, d: Vec3, tMax: Bound): (r: Option<Hit>)
    ensures (Discriminant(base, axis, r2, o, d) < 0.0 || LeadCoef(axis, d) == 0.0) ==> r.None?
    ensures r.Some? ==> Accepts(base, axis, height, o, d, r.value.t, tMax) && r.value.p == PointAt(o, d, r.value.t)
    ensures (Discriminant(base, axis, r2, o, d) >= 0.0 && LeadCoef(axis, d) != 0.0 &&
             Accepts(base, axis, height, o, d, NearRoot(sqrt, base, axis, r2, o, d), tMax)) ==>
      r.Some? && r.value.t == NearRoot(sqrt, base, axis, r2, o, d) &&
      r.value.normal == Normalize(sqrt, Sub(r.value.p, Foot(base, axis, r.value.p)))
    ensures r.Some? && LeadCoef(axis, d) != 0.0 && r.value.t != NearRoot(sqrt, base, axis, r2, o, d) ==>
      r.value.t == FarRoot(sqrt, base, axis, r2, o, d) &&
      r.value.normal == Normalize(sqrt, Sub(Foot(base, axis, r.value.p), r.value.p))
  {
    if Discriminant(base, axis, r2, o, d) < 0.0 || LeadCoef(axis, d) == 0.0 then None
    else
      var t1 := NearRoot(sqrt, base, axis, r2, o, d);
      if Accepts(base, axis, height, o, d, t1, tMax) then
        var p1 := PointAt(o, d, t1);
        Some(Hit(t1, p1, Normalize(sqrt, Sub(p1, Foot(base, axis, p1)))))
      else
        var t2 := FarRoot(sqrt, base, axis, r2, o, d);
        if Accepts(base, axis, height, o, d, t2, tMax) then
          var p2 := PointAt(o, d, t2);
          Some(Hit(t2, p2, Normalize(sqrt, Sub(Foot(base, axis, p2), p2))))
        else None
  }

  // ---------------------------------------------------------------------
  // Geometry of the intersection.

  /** |u + t d|^2 expanded in t. */
  lemma DotExpand(u: Vec3, d: Vec3, t: real)
    ensures Dot(Add(u, Scale(d, t)), Add(u, Scale(d, t))) ==
      t * t * Dot(d, d) + 2.0 * t * Dot(u, d) + Dot(u, u)
  {
  }

  lemma DotAlong(w: Vec3, u: Vec3, d: Vec3, t: real)
    ensures Dot(w, Add(u, Scale(d, t))) == Dot(w, u) + t * Dot(w, d)
  {
  }

  lemma OffsetOfPoint(base: Vec3, o: Vec3, d: Vec3, t: real)
    ensures Sub(PointAt(o, d, t), base) == Add(Sub(o, base), Scale(d, t))
  {
  }

  /** The scalar identity behind the cylinder's quadratic. */
  lemma CylinderPolynomial(qq: real, aq: real, t: real, dd: real, ud: real, uu: real, ad: real, au: real, r2: real)
    requires qq == t * t * dd + 2.0 * t * ud + uu
    requires aq == au + t * ad
    ensures qq - aq * aq - r2 ==
      (dd - ad * ad) * t * t + 2.0 * (ud - au * ad) * t + (uu - au * au - r2)
  {
  }

  /** On the ray, the cylinder's equation is the quadratic in t with
      coefficients `a`, `2 bHalf` and `c`. */
  lemma CylinderEquation(base: Vec3, axis: Vec3, r2: real, o: Vec3, d: Vec3, t: real)
    ensures OnCylinder(base, axis, r2, PointAt(o, d, t)) <==>
      LeadCoef(axis, d) * t * t + 2.0 * HalfB(base, axis, o, d) * t + ConstTerm(base, axis, r2, o) == 0.0
  {
    var u := Sub(o, base);
    var q := Sub(PointAt(o, d, t), base);
    OffsetOfPoint(base, o, d, t);
    DotExpand(u, d, t);
    DotAlong(axis, u, d, t);
    CylinderPolynomial(Dot(q, q), Dot(axis, q), t, Dot(d, d), Dot(u, d), Dot(u, u), Dot(axis, d), Dot(axis, u), r2);
  }

  /** For an exact root and a ray not parallel to the axis, the ray meets the
      infinite cylinder at t exactly when the discriminant is non-negative and
      t is one of the two candidates. */
  lemma CylinderRoots(sqrt: SqrtFn, base: Vec3, axis: Vec3, r2: real, o: Vec3, d: Vec3, t: real)
    requires ExactSqrt(sqrt)
    requires LeadCoef(axis, d) != 0.0
    ensures OnCylinder(base, axis, r2, PointAt(o, d, t)) <==>
      Discriminant(base, axis, r2, o, d) >= 0.0 &&
      (t == NearRoot(sqrt, base, axis, r2, o, d) || t == FarRoot(sqrt, base, axis, r2, o, d))
  {
    CylinderEquation(base, axis, r2, o, d, t);
    QuadraticRoots(sqrt, t, LeadCoef(axis, d), HalfB(base, axis, o, d), ConstTerm(base, axis, r2, o),
                   Discriminant(base, axis, r2, o, d));
  }

  /** With a unit axis, `a` is never negative (Cauchy-Schwarz), and it is
      zero only for a ray parallel to the axis. */
  lemma LeadCoefNonNeg(axis: Vec3, d: Vec3)
    requires Dot(axis, axis) == 1.0
    ensures LeadCoef(axis, d) >= 0.0
  {
    CauchySchwarz(axis, d);
    assert Dot(axis, axis) * Dot(d, d) == Dot(d, d);
  }

  lemma RootsOrdered(sqrt: SqrtFn, base: Vec3, axis: Vec3, r2: real, o: Vec3, d: Vec3)
    requires NonNegSqrt(sqrt)
    requires Discriminant(base, axis, r2, o, d) >= 0.0 && LeadCoef(axis, d) > 0.0
    ensures NearRoot(sqrt, base, axis, r2, o, d) <= FarRoot(sqrt, base, axis, r2, o, d)
  {
    var root := sqrt(Discriminant(base, axis, r2, o, d));
    assert root >= 0.0;
    CandidatesOrdered(LeadCoef(axis, d), HalfB(base, axis, o, d), root);
  }

  /** For an exact root and a ray not parallel to the (unit) axis, the
      reported hit lies on the cylinder and is the nearest point of the
      clamped cylinder that the range checks admit; no hit means there is no
      such point. */
  lemma IntersectNearest(sqrt: SqrtFn, base: Vec3, axis: Vec3, r2: real, height: real,
                         o: Vec3, d: Vec3, tMax: Bound)
    requires ExactSqrt(sqrt)
    requires LeadCoef(axis, d) > 0.0
    ensures var r := Intersect(sqrt, base, axis, r2, height, o, d, tMax);
      r.Some? ==> OnCylinder(base, axis, r2, r.value.p)
    ensures var r := Intersect(sqrt, base, axis, r2, height, o, d, tMax);
      r.Some? ==> forall t :: Accepts(base, axis, height, o, d, t, tMax) && OnCylinder(base, axis, r2, PointAt(o, d, t)) ==> r.value.t <= t
    ensures var r := Intersect(sqrt, base, axis, r2, height, o, d, tMax);
      r.None? ==> forall t :: Accepts(base, axis, height, o, d, t, tMax) ==> !OnCylinder(base, axis, r2, PointAt(o, d, t))
  {
    var r := Intersect(sqrt, base, axis, r2, height, o, d, tMax);
    if r.Some? {
      CylinderRoots(sqrt, base, axis, r2, o, d, r.value.t);
      RootsOrdered(sqrt, base, axis, r2, o, d);
      forall t | Accepts(base, axis, height, o, d, t, tMax) && OnCylinder(base, axis, r2, PointAt(o, d, t))
        ensures r.value.t <= t
      {
        CylinderRoots(sqrt, base, axis, r2, o, d, t);
      }
    } else {
      forall t | Accepts(base, axis, height, o, d, t, tMax)
        ensures !OnCylinder(base, axis, r2, PointAt(o, d, t))
      {
        CylinderRoots(sqrt, base, axis, r2, o, d, t);
      }
    }
  }

  /** The radial part of the offset from the base: what `p - offset` is. */
  lemma RadialSlope(base: Vec3, axis: Vec3, o: Vec3, d: Vec3, t: real)
    ensures Dot(Sub(PointAt(o, d, t), Foot(base, axis, PointAt(o, d, t))), d) ==
      HalfB(base, axis, o, d) + t * LeadCoef(axis, d)
  {
    var u := Sub(o, base);
    var p := PointAt(o, d, t);
    var q := Sub(p, base);
    OffsetOfPoint(base, o, d, t);
    DotAlong(axis, u, d, t);
    DotAlong(d, u, d, t);
    DotSymmetric(d, u);
    var h := Axial(base, axis, p);
    assert Sub(p, Foot(base, axis, p)) == Sub(q, Scale(axis, h));
    assert Dot(Sub(q, Scale(axis, h)), d) == Dot(q, d) - h * Dot(axis, d);
    DotSymmetric(q, d);
    RadialPolynomial(Dot(q, d), h, t, Dot(u, d), Dot(d, d), Dot(axis, u), Dot(axis, d));
  }

  lemma RadialPolynomial(qd: real, h: real, t: real, ud: real, dd: real, au: real, ad: real)
    requires qd == ud + t * dd && h == au + t * ad
    ensures qd - h * ad == (ud - au * ad) + t * (dd - ad * ad)
  {
  }

  /** Normalizing (with a non-negative root) keeps the sign of a
      non-positive projection. */
  lemma NormalizedSlope(sqrt: SqrtFn, v: Vec3, d: Vec3, root: real)
    requires NonNegSqrt(sqrt)
    requires root >= 0.0 && Dot(v, d) == -root
    ensures Dot(Normalize(sqrt, v), d) <= 0.0
  {
    var q := v.x * v.x + v.y * v.y + v.z * v.z;
    assert q >= 0.0 by {
      DotSelfNonNeg(v);
    }
    assert sqrt(q) >= 0.0;
    var k := Recip(Norm(sqrt, v));
    assert k >= 0.0;
    calc {
      Dot(Normalize(sqrt, v), d);
      == k * Dot(v, d);
      == k * -root;
      <= 0.0;
    }
  }

  /** With a non-negative root, the reported normal never points along the
      ray: outward where the ray enters (t1), inward where it leaves (t2). */
  lemma NormalFacesRay(sqrt: SqrtFn, base: Vec3, axis: Vec3, r2: real, height: real,
                       o: Vec3, d: Vec3, tMax: Bound)
    requires NonNegSqrt(sqrt)
    ensures var r := Intersect(sqrt, base, axis, r2, height, o, d, tMax);
      r.Some? ==> Dot(r.value.normal, d) <= 0.0
  {
    var r := Intersect(sqrt, base, axis, r2, height, o, d, tMax);
    if r.Some? {
      var t, p := r.value.t, r.value.p;
      var a, b := LeadCoef(axis, d), HalfB(base, axis, o, d);
      var root := sqrt(Discriminant(base, axis, r2, o, d));
      assert root >= 0.0;
      RadialSlope(base, axis, o, d, t);
      var w := Sub(p, Foot(base, axis, p));
      assert a != 0.0;
      if t == NearRoot(sqrt, base, axis, r2, o, d) {
        assert a * t == -b - root;
        NormalizedSlope(sqrt, w, d, root);
      } else {
        assert a * t == -b + root;
        assert Dot(Sub(Foot(base, axis, p), p), d) == -Dot(w, d);
        NormalizedSlope(sqrt, Sub(Foot(base, axis, p), p), d, root);
      }
    }
  }

  /** Lowering the bound only discards a hit; it never changes one, as long
      as `a` is not negative (so t1 is never after t2). */
  lemma IntersectMonotone(sqrt: SqrtFn, base: Vec3, axis: Vec3, r2: real, height: real,
                          o: Vec3, d: Vec3, tMax: Bound)
    requires NonNegSqrt(sqrt)
    requires LeadCoef(axis, d) >= 0.0
    ensures Intersect(sqrt, base, axis, r2, height, o, d, tMax) ==
      Cut(Intersect(sqrt, base, axis, r2, height, o, d, Infinity), tMax)
  {
    if Discriminant(base, axis, r2, o, d) >= 0.0 && LeadCoef(axis, d) > 0.0 {
      RootsOrdered(sqrt, base, axis, r2, o, d);
    }
  }
}

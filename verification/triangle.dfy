/** The triangle surface (public/js/surfaces.js, `TriangleSurface`): the
    precomputed plane and barycentric frame, the ray/plane intersection and
    the point-in-triangle test. */
module Triangles {
  import opened Wrappers
  import opened Vector3
  import opened Hits

  /** `Number.EPSILON`, 2^-52: the slack of the point-in-triangle bounds. */
  const Epsilon: real := 1.0 / 4503599627370496.0

  /** The fields `precompute` derives from the camera-relative vertices. */
  datatype Frame = Frame(
    a: Vec3, b: Vec3, c: Vec3,
    vec1: Vec3, vec2: Vec3,
    normal: Vec3, negNormal: Vec3, dTri: real,
    dot11: real, dot12: real, dot22: real, invDenom: real)

  /** Three collinear (or coincident) vertices span no plane: the cross
      product of the edges has zero length. */
  predicate Degenerate(A: Vec3, B: Vec3, C: Vec3) {
    var m := Cross(Sub(B, A), Sub(C, A));
    Dot(m, m) == 0.0
  }

  /** The plane equation `dot(normal, p) + dTri == 0`. */
  predicate OnPlane(f: Frame, p: Vec3) {
    Dot(f.normal, p) + f.dTri == 0.0
  }

  function Precompute(sqrt: SqrtFn, A: Vec3, B: Vec3, C: Vec3): (f: Frame)
    ensures f.a == A && f.b == B && f.c == C
    ensures Add(A, f.vec1) == B && Add(A, f.vec2) == C
    ensures Add(f.normal, f.negNormal) == Zero
  {
    var vec1 := Sub(B, A);
    var vec2 := Sub(C, A);
    var normal := Normalize(sqrt, Cross(vec1, vec2));
    var dot11 := Dot(vec1, vec1);
    var dot12 := Dot(vec1, vec2);
    var dot22 := Dot(vec2, vec2);
    Frame(A, B, C, vec1, vec2, normal, Scale(normal, -1.0), -Dot(normal, A),
          dot11, dot12, dot22, Recip(dot11 * dot22 - dot12 * dot12))
  }

  /** The denominator `dot11*dot22 - dot12^2` is the squared length of the
      edges' cross product. */
  lemma PrecomputeGram(sqrt: SqrtFn, A: Vec3, B: Vec3, C: Vec3)
    ensures var f := Precompute(sqrt, A, B, C);
      f.dot11 * f.dot22 - f.dot12 * f.dot12 == Dot(Cross(f.vec1, f.vec2), Cross(f.vec1, f.vec2))
  {
    var f := Precompute(sqrt, A, B, C);
    GramDeterminant(f.vec1, f.vec2);
  }

  /** The denominator is zero exactly for a degenerate triangle; otherwise
      it is positive and `invDenom` is its reciprocal. */
  lemma PrecomputeDenominator(sqrt: SqrtFn, A: Vec3, B: Vec3, C: Vec3)
    ensures var f := Precompute(sqrt, A, B, C);
      var det := f.dot11 * f.dot22 - f.dot12 * f.dot12;
      (Degenerate(A, B, C) <==> det == 0.0) &&
      (!Degenerate(A, B, C) ==> det > 0.0 && f.invDenom * det == 1.0)
  {
    var f := Precompute(sqrt, A, B, C);
    var det := f.dot11 * f.dot22 - f.dot12 * f.dot12;
    var m := Cross(f.vec1, f.vec2);
    PrecomputeGram(sqrt, A, B, C);
    if !Degenerate(A, B, C) {
      DotSelfNonNeg(m);
    }
  }

  /** The Gram determinant of the edges is the squared length of their
      cross product. */
  lemma GramDeterminant(vec1: Vec3, vec2: Vec3)
    ensures Dot(vec1, vec1) * Dot(vec2, vec2) - Dot(vec1, vec2) * Dot(vec1, vec2) == Dot(Cross(vec1, vec2), Cross(vec1, vec2))
  {
    Lagrange(vec1, vec2);
  }

  /** The barycentric coordinates (u, v) of p with respect to the edges
      `vec1` and `vec2` from vertex A. */
  function Barycentric(f: Frame, p: Vec3): (real, real) {
    var vec3 := Sub(p, f.a);
    var dot13 := Dot(f.vec1, vec3);
    var dot23 := Dot(f.vec2, vec3);
    ((f.dot22 * dot13 - f.dot12 * dot23) * f.invDenom,
     (f.dot11 * dot23 - f.dot12 * dot13) * f.invDenom)
  }

  /** `containsPoint`: both coordinates at least -EPSILON and their sum at
      most 1 + EPSILON. */
  predicate ContainsPoint(f: Frame, p: Vec3) {
    var (u, v) := Barycentric(f, p);
    u >= -Epsilon && v >= -Epsilon && u + v <= 1.0 + Epsilon
  }

  /** `rayIntersect`: the plane crossing at or after the origin and strictly
      below `tMax`, kept when `planeOnly` is set or the point lies in the
      triangle; the normal is flipped to face the ray. */
  function Intersect(f: Frame, o: Vec3, d: Vec3, tMax: Bound, planeOnly: bool): (r: Option<Hit>)
    ensures Dot(f.normal, d) == 0.0 ==> r.None?
    ensures r.Some? ==> 0.0 <= r.value.t && Below(r.value.t, tMax)
    ensures r.Some? ==> r.value.p == PointAt(o, d, r.value.t) && OnPlane(f, r.value.p)
    ensures r.Some? && !planeOnly ==> ContainsPoint(f, r.value.p)
    ensures r.Some? ==> r.value.normal == (if Dot(f.normal, d) > 0.0 then f.negNormal else f.normal)
  {
    var denom := Dot(f.normal, d);
    if denom == 0.0 then None
    else
      var t := -(Dot(f.normal, o) + f.dTri) / denom;
      if t < 0.0 || !Below(t, tMax) then None
      else
        var p := PointAt(o, d, t);
        PlaneCrossing(f, o, d, t);
        if planeOnly || ContainsPoint(f, p) then
          Some(Hit(t, p, if denom > 0.0 then f.negNormal else f.normal))
        else None
  }

  // ---------------------------------------------------------------------
  // The plane and the barycentric frame.

  /** The dot product with a point on the ray is affine in the parameter. */
  lemma DotPointAt(n: Vec3, o: Vec3, d: Vec3, t: real)
    ensures Dot(n, PointAt(o, d, t)) == Dot(n, o) + t * Dot(n, d)
  {
  }

  /** The ray meets the plane exactly at the parameter `rayIntersect`
      computes. */
  lemma PlaneCrossing(f: Frame, o: Vec3, d: Vec3, t: real)
    requires Dot(f.normal, d) != 0.0
    ensures OnPlane(f, PointAt(o, d, t)) <==> t == -(Dot(f.normal, o) + f.dTri) / Dot(f.normal, d)
  {
    DotPointAt(f.normal, o, d, t);
  }

  /** All three vertices satisfy the precomputed plane equation. */
  lemma PrecomputePlane(sqrt: SqrtFn, A: Vec3, B: Vec3, C: Vec3)
    ensures var f := Precompute(sqrt, A, B, C);
      OnPlane(f, A) && OnPlane(f, B) && OnPlane(f, C)
  {
    var f := Precompute(sqrt, A, B, C);
    var m := Cross(f.vec1, f.vec2);
    var k := Recip(Norm(sqrt, m));
    assert f.normal == Scale(m, k);
    CrossOrthogonal(f.vec1, f.vec2);
    DotSymmetric(m, f.vec1);
    DotSymmetric(m, f.vec2);
    PlaneThroughEdge(f.normal, m, k, A, f.vec1);
    PlaneThroughEdge(f.normal, m, k, A, f.vec2);
  }

  /** A multiple of a vector orthogonal to an edge from A takes the same
      dot product at both ends of the edge. */
  lemma PlaneThroughEdge(n: Vec3, m: Vec3, k: real, A: Vec3, e: Vec3)
    requires n == Scale(m, k) && Dot(m, e) == 0.0
    ensures Dot(n, Add(A, e)) == Dot(n, A)
  {
    DotScaleLeft(m, k, e);
  }

  lemma DotScaleLeft(v: Vec3, k: real, w: Vec3)
    ensures Dot(Scale(v, k), w) == k * Dot(v, w)
  {
  }

  lemma DotSubRight(n: Vec3, p: Vec3, q: Vec3)
    ensures Dot(n, Sub(p, q)) == Dot(n, p) - Dot(n, q)
  {
  }

  /** For a non-degenerate triangle and an exact root, the normal is a unit
      vector perpendicular to both edges. */
  lemma PrecomputeNormal(sqrt: SqrtFn, A: Vec3, B: Vec3, C: Vec3)
    requires ExactSqrt(sqrt)
    requires !Degenerate(A, B, C)
    ensures var f := Precompute(sqrt, A, B, C);
      Dot(f.normal, f.normal) == 1.0 && Dot(f.normal, f.vec1) == 0.0 && Dot(f.normal, f.vec2) == 0.0
  {
    var f := Precompute(sqrt, A, B, C);
    var m := Cross(f.vec1, f.vec2);
    NormalizeUnit(sqrt, m);
    CrossOrthogonal(f.vec1, f.vec2);
    DotSymmetric(m, f.vec1);
    DotSymmetric(m, f.vec2);
    DotScaleLeft(m, Recip(Norm(sqrt, m)), f.vec1);
    DotScaleLeft(m, Recip(Norm(sqrt, m)), f.vec2);
  }

  /** The point `A + s*vec1 + t*vec2` of the triangle's plane. */
  function PlanePoint(f: Frame, s: real, t: real): Vec3 {
    Add(f.a, Add(Scale(f.vec1, s), Scale(f.vec2, t)))
  }

  /** For a non-degenerate triangle the barycentric computation recovers the
      coefficients of a point of the plane. */
  lemma BarycentricOfPlanePoint(sqrt: SqrtFn, A: Vec3, B: Vec3, C: Vec3, s: real, t: real)
    requires !Degenerate(A, B, C)
    ensures var f := Precompute(sqrt, A, B, C);
      Barycentric(f, PlanePoint(f, s, t)) == (s, t)
  {
    var f := Precompute(sqrt, A, B, C);
    PrecomputeDenominator(sqrt, A, B, C);
    FrameCoordinates(f, s, t);
  }

  /** The coordinate recovery for any frame whose dot products are those of
      its edges and whose `invDenom` inverts their Gram determinant. */
  lemma FrameCoordinates(f: Frame, s: real, t: real)
    requires f.dot11 == Dot(f.vec1, f.vec1) && f.dot12 == Dot(f.vec1, f.vec2) && f.dot22 == Dot(f.vec2, f.vec2)
    requires f.invDenom * (f.dot11 * f.dot22 - f.dot12 * f.dot12) == 1.0
    ensures Barycentric(f, PlanePoint(f, s, t)) == (s, t)
  {
    var vec3 := Sub(PlanePoint(f, s, t), f.a);
    var d13, d23 := Dot(f.vec1, vec3), Dot(f.vec2, vec3);
    var uv := Barycentric(f, PlanePoint(f, s, t));
    assert uv == ((f.dot22 * d13 - f.dot12 * d23) * f.invDenom, (f.dot11 * d23 - f.dot12 * d13) * f.invDenom);
    assert uv.0 == s && uv.1 == t by {
      EdgeDots(f, s, t);
      SolveBarycentric(f.dot11, f.dot12, f.dot22, f.invDenom, s, t, d13, d23);
    }
  }

  /** The edges' dot products with the offset of a plane point from A. */
  lemma EdgeDots(f: Frame, s: real, t: real)
    requires f.dot11 == Dot(f.vec1, f.vec1) && f.dot12 == Dot(f.vec1, f.vec2) && f.dot22 == Dot(f.vec2, f.vec2)
    ensures Dot(f.vec1, Sub(PlanePoint(f, s, t), f.a)) == s * f.dot11 + t * f.dot12
    ensures Dot(f.vec2, Sub(PlanePoint(f, s, t), f.a)) == s * f.dot12 + t * f.dot22
  {
    OffsetDot(f.vec1, f, s, t);
    OffsetDot(f.vec2, f, s, t);
    DotSymmetric(f.vec2, f.vec1);
  }

  /** Any vector's dot product with the offset of a plane point from A. */
  lemma OffsetDot(a: Vec3, f: Frame, s: real, t: real)
    ensures Dot(a, Sub(PlanePoint(f, s, t), f.a)) == s * Dot(a, f.vec1) + t * Dot(a, f.vec2)
  {
    assert Sub(PlanePoint(f, s, t), f.a) == Add(Scale(f.vec1, s), Scale(f.vec2, t));
    DotCombination(a, f.vec1, f.vec2, s, t);
  }

  /** The dot product distributes over a linear combination. */
  lemma DotCombination(a: Vec3, u: Vec3, v: Vec3, s: real, t: real)
    ensures Dot(a, Add(Scale(u, s), Scale(v, t))) == s * Dot(a, u) + t * Dot(a, v)
  {
  }

  /** Cramer's rule for the 2x2 Gram system. */
  lemma SolveBarycentric(d11: real, d12: real, d22: real, inv: real, s: real, t: real, d13: real, d23: real)
    requires d13 == s * d11 + t * d12 && d23 == s * d12 + t * d22
    requires inv * (d11 * d22 - d12 * d12) == 1.0
    ensures (d22 * d13 - d12 * d23) * inv == s
    ensures (d11 * d23 - d12 * d13) * inv == t
  {
    var det := d11 * d22 - d12 * d12;
    calc {
      d22 * d13 - d12 * d23;
      == d22 * (s * d11 + t * d12) - d12 * (s * d12 + t * d22);
      == s * det;
    }
    calc {
      d11 * d23 - d12 * d13;
      == d11 * (s * d12 + t * d22) - d12 * (s * d11 + t * d12);
      == t * det;
    }
    assert (s * det) * inv == s * (inv * det);
    assert (t * det) * inv == t * (inv * det);
  }

  /** `containsPoint` accepts a point of the plane exactly when its
      coefficients lie in the EPSILON-widened unit triangle. */
  lemma ContainsPlanePoint(sqrt: SqrtFn, A: Vec3, B: Vec3, C: Vec3, s: real, t: real)
    requires !Degenerate(A, B, C)
    ensures var f := Precompute(sqrt, A, B, C);
      ContainsPoint(f, PlanePoint(f, s, t)) <==> s >= -Epsilon && t >= -Epsilon && s + t <= 1.0 + Epsilon
  {
    BarycentricOfPlanePoint(sqrt, A, B, C, s, t);
  }

  /** Each vertex of a non-degenerate triangle is inside it, at
      coordinates (0, 0), (1, 0) and (0, 1). */
  lemma ContainsVertices(sqrt: SqrtFn, A: Vec3, B: Vec3, C: Vec3)
    requires !Degenerate(A, B, C)
    ensures var f := Precompute(sqrt, A, B, C);
      ContainsPoint(f, A) && ContainsPoint(f, B) && ContainsPoint(f, C)
  {
    var f := Precompute(sqrt, A, B, C);
    PrecomputeDenominator(sqrt, A, B, C);
    PlanePointCorners(f);
    assert ContainsPoint(f, A) by { ContainsPlanePoint(sqrt, A, B, C, 0.0, 0.0); }
    assert ContainsPoint(f, B) by { ContainsPlanePoint(sqrt, A, B, C, 1.0, 0.0); }
    assert ContainsPoint(f, C) by { ContainsPlanePoint(sqrt, A, B, C, 0.0, 1.0); }
  }

  lemma PlanePointCorners(f: Frame)
    ensures PlanePoint(f, 0.0, 0.0) == f.a
    ensures PlanePoint(f, 1.0, 0.0) == Add(f.a, f.vec1)
    ensures PlanePoint(f, 0.0, 1.0) == Add(f.a, f.vec2)
  {
    assert Scale(f.vec1, 0.0) == Zero && Scale(f.vec2, 0.0) == Zero;
    assert Scale(f.vec1, 1.0) == f.vec1 && Scale(f.vec2, 1.0) == f.vec2;
  }

  // ---------------------------------------------------------------------
  // The intersection.

  /** The reported normal faces against the ray, whenever `negNormal` is the
      opposite of `normal` (as `precompute` leaves it). */
  lemma NormalFacesRay(f: Frame, o: Vec3, d: Vec3, tMax: Bound, planeOnly: bool)
    requires Add(f.normal, f.negNormal) == Zero
    ensures var r := Intersect(f, o, d, tMax, planeOnly);
      r.Some? ==> Dot(r.value.normal, d) < 0.0
  {
    var r := Intersect(f, o, d, tMax, planeOnly);
    if r.Some? {
      assert Dot(f.negNormal, d) == -Dot(f.normal, d);
    }
  }

  /** A ray not parallel to the plane hits at parameter t exactly when t is
      at or after the origin, below the bound, on the plane, and (unless
      `planeOnly`) inside the triangle. */
  lemma IntersectExactly(f: Frame, o: Vec3, d: Vec3, tMax: Bound, planeOnly: bool, t: real)
    requires Dot(f.normal, d) != 0.0
    ensures var r := Intersect(f, o, d, tMax, planeOnly);
      (r.Some? && r.value.t == t) <==>
      (0.0 <= t && Below(t, tMax) && OnPlane(f, PointAt(o, d, t)) &&
       (planeOnly || ContainsPoint(f, PointAt(o, d, t))))
  {
    PlaneCrossing(f, o, d, t);
  }

  /** Lowering the bound only discards a hit; it never changes one. */
  lemma IntersectMonotone(f: Frame, o: Vec3, d: Vec3, tMax: Bound, planeOnly: bool)
    ensures Intersect(f, o, d, tMax, planeOnly) == Cut(Intersect(f, o, d, Infinity, planeOnly), tMax)
  {
  }
}

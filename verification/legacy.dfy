/** The first, single-file renderer (script.js): triangles with a strict
    point-in-triangle test, spheres that try only the nearer root, a
    nearest-hit scan by strict comparison, and a `render` that shades each
    hit by the angle between the normal and the view ray and leaves missed
    pixels as `createImageData` made them. Its `Vector` and `Matrix` helpers
    are the `Vector` and `Matrix` modules. */
module Legacy {
  import opened Wrappers
  import opened Vector3
  import opened Hits
  import opened Quadratics
  import Matrix
  import Triangles
  import Spheres
  import Surfaces
  import Rays
  import Shading

  /** The authored shapes: a triangle by its vertices, a sphere by its
      center and radius. */
  datatype Shape =
    | Triangle(a: Vec3, b: Vec3, c: Vec3)
    | Sphere(pos: Vec3, r: real)

  datatype Surface = Surface(color: Vec3, shape: Shape)

  /** What `relative` derives: the triangle's precomputed frame, or the
      sphere's camera-relative center with `r2 = r ** 2`. */
  datatype Geom =
    | RelTriangle(frame: Triangles.Frame)
    | RelSphere(relPos: Vec3, r2: real)

  datatype RelSurface = RelSurface(color: Vec3, geom: Geom)

  // ---------------------------------------------------------------------
  // `relative`.

  /** The same surface as the later renderer describes it: no glow, casting
      shadows, a sphere given by its squared radius. */
  function Upgrade(s: Surface): Surfaces.Surface {
    var shape := match s.shape
      case Triangle(a, b, c) => Surfaces.Triangle(a, b, c)
      case Sphere(p, r) => Surfaces.Sphere(p, r * r);
    Surfaces.Surface(s.color, false, false, shape)
  }

  function Lift(r: RelSurface): Surfaces.RelSurface {
    var geom := match r.geom
      case RelTriangle(f) => Surfaces.RelTriangle(f)
      case RelSphere(p, r2) => Surfaces.RelSphere(p, r2);
    Surfaces.RelSurface(r.color, false, false, geom)
  }

  /** `relative(pos, invmatrix)`: each vertex or the center is moved to
      `invmatrix * (v - pos)` and a triangle is then precomputed. The
      snapshot is the one the later renderer takes of the same surface. */
  function Relative(sqrt: SqrtFn, s: Surface, pos: Vec3, inv: Matrix.Mat3): (r: RelSurface)
    ensures r.color == s.color
    ensures Lift(r) == Surfaces.Relative(sqrt, Upgrade(s), pos, inv)
  {
    var geom := match s.shape
      case Triangle(a, b, c) =>
        RelTriangle(Triangles.Precompute(sqrt, Surfaces.ToCamera(inv, pos, a), Surfaces.ToCamera(inv, pos, b), Surfaces.ToCamera(inv, pos, c)))
      case Sphere(p, radius) =>
        RelSphere(Surfaces.ToCamera(inv, pos, p), radius * radius);
    RelSurface(s.color, geom)
  }

  // ---------------------------------------------------------------------
  // The triangle.

  /** `containsPoint`: both barycentric coordinates non-negative and their
      sum strictly below 1. */
  predicate ContainsStrict(f: Triangles.Frame, p: Vec3) {
    var (u, v) := Triangles.Barycentric(f, p);
    u >= 0.0 && v >= 0.0 && u + v < 1.0
  }

  /** For a non-degenerate triangle, a point of its plane passes the strict
      test exactly when its coefficients lie in the unit triangle with the
      edge opposite A removed. */
  lemma ContainsStrictPlanePoint(sqrt: SqrtFn, A: Vec3, B: Vec3, C: Vec3, s: real, t: real)
    requires !Triangles.Degenerate(A, B, C)
    ensures var f := Triangles.Precompute(sqrt, A, B, C);
      ContainsStrict(f, Triangles.PlanePoint(f, s, t)) <==> s >= 0.0 && t >= 0.0 && s + t < 1.0
  {
    Triangles.BarycentricOfPlanePoint(sqrt, A, B, C, s, t);
  }

  /** The strict test accepts vertex A but rejects B and C, whose
      coordinates (1, 0) and (0, 1) sum to exactly 1. */
  lemma StrictRejectsCorners(sqrt: SqrtFn, A: Vec3, B: Vec3, C: Vec3)
    requires !Triangles.Degenerate(A, B, C)
    ensures var f := Triangles.Precompute(sqrt, A, B, C);
      ContainsStrict(f, A) && !ContainsStrict(f, B) && !ContainsStrict(f, C)
  {
    var f := Triangles.Precompute(sqrt, A, B, C);
    Triangles.PlanePointCorners(f);
    ContainsStrictPlanePoint(sqrt, A, B, C, 0.0, 0.0);
    ContainsStrictPlanePoint(sqrt, A, B, C, 1.0, 0.0);
    ContainsStrictPlanePoint(sqrt, A, B, C, 0.0, 1.0);
  }

  /** Every point the strict test accepts, the later EPSILON-widened test
      accepts too. */
  lemma StrictWithinWidened(f: Triangles.Frame, p: Vec3)
    requires ContainsStrict(f, p)
    ensures Triangles.ContainsPoint(f, p)
  {
  }

  /** `rayIntersect`: the plane crossing at or after the origin, with no
      upper bound, kept when the strict test accepts it; the normal is the
      precomputed one whichever side the ray comes from. */
  function TriangleIntersect(f: Triangles.Frame, o: Vec3, d: Vec3): (r: Option<Hit>)
    ensures Dot(f.normal, d) == 0.0 ==> r.None?
    ensures r.Some? ==> 0.0 <= r.value.t && r.value.p == PointAt(o, d, r.value.t)
    ensures r.Some? ==> Triangles.OnPlane(f, r.value.p) && ContainsStrict(f, r.value.p)
    ensures r.Some? ==> r.value.normal == f.normal
  {
    var denom := Dot(f.normal, d);
    if denom == 0.0 then None
    else
      var t := -(Dot(f.normal, o) + f.dTri) / denom;
      if t < 0.0 then None
      else
        var p := PointAt(o, d, t);
        Triangles.PlaneCrossing(f, o, d, t);
        if ContainsStrict(f, p) then Some(Hit(t, p, f.normal)) else None
  }

  /** The legacy triangle hits exactly where the later unbounded
      intersection hits a point the strict test accepts, at the same
      parameter and point. */
  lemma TriangleWithinLater(f: Triangles.Frame, o: Vec3, d: Vec3)
    ensures var r := TriangleIntersect(f, o, d);
      var q := Triangles.Intersect(f, o, d, Infinity, false);
      (r.Some? <==> q.Some? && ContainsStrict(f, q.value.p)) &&
      (r.Some? ==> q.value.t == r.value.t && q.value.p == r.value.p)
  {
    var r := TriangleIntersect(f, o, d);
    if r.Some? {
      StrictWithinWidened(f, r.value.p);
    }
  }

  // ---------------------------------------------------------------------
  // The sphere.

  /** The coefficients of `a t^2 + b t + c = 0` for the ray against the
      sphere, with the origin taken relative to the center. */
  function QuadA(d: Vec3): real {
    Dot(d, d)
  }

  function QuadB(center: Vec3, o: Vec3, d: Vec3): real {
    2.0 * Dot(Sub(o, center), d)
  }

  function QuadC(center: Vec3, r2: real, o: Vec3): real {
    Dot(Sub(o, center), Sub(o, center)) - r2
  }

  function Discriminant(center: Vec3, r2: real, o: Vec3, d: Vec3): real {
    var b := QuadB(center, o, d);
    b * b - 4.0 * QuadA(d) * QuadC(center, r2, o)
  }

  /** `(-b - Math.sqrt(discrim)) / (2 * a)`. */
  function Root(sqrt: SqrtFn, center: Vec3, r2: real, o: Vec3, d: Vec3): real
    requires QuadA(d) != 0.0
  {
    (-QuadB(center, o, d) - sqrt(Discriminant(center, r2, o, d))) / (2.0 * QuadA(d))
  }

  /** `rayIntersect`: no hit for a negative discriminant; otherwise the
      nearer root only, kept when it is not behind the origin, with the
      outward normal. A zero direction (`a = 0`) is no hit. */
  function SphereIntersect(sqrt: SqrtFn, center: Vec3, r2: real, o: Vec3, d: Vec3): (r: Option<Hit>)
    ensures Discriminant(center, r2, o, d) < 0.0 || QuadA(d) == 0.0 ==> r.None?
    ensures r.Some? ==> r.value.t == Root(sqrt, center, r2, o, d) && 0.0 <= r.value.t
    ensures r.Some? ==> r.value.p == PointAt(o, d, r.value.t) && r.value.normal == Normalize(sqrt, Sub(r.value.p, center))
    ensures QuadA(d) != 0.0 && Discriminant(center, r2, o, d) >= 0.0 && Root(sqrt, center, r2, o, d) >= 0.0 ==> r.Some?
  {
    if QuadA(d) == 0.0 || Discriminant(center, r2, o, d) < 0.0 then None
    else
      var t := Root(sqrt, center, r2, o, d);
      if t < 0.0 then None
      else
        var p := PointAt(o, d, t);
        Some(Hit(t, p, Normalize(sqrt, Sub(p, center))))
  }

  /** On the ray, the sphere's equation is `a t^2 + 2 h t + c = 0` with
      `h = (o - center) . d`. */
  lemma SphereQuadratic(center: Vec3, r2: real, o: Vec3, d: Vec3, t: real)
    ensures Spheres.OnSphere(center, r2, PointAt(o, d, t)) <==>
      QuadA(d) * t * t + 2.0 * Dot(Sub(o, center), d) * t + QuadC(center, r2, o) == 0.0
  {
    var u := Sub(o, center);
    Spheres.OffsetOfPoint(center, o, d, t);
    Spheres.DotExpand(u, d, t);
  }

  /** The discriminant of the half-b form, `h^2 - a c`, with
      `h = (o - center) . d`. */
  function HalfDisc(center: Vec3, r2: real, o: Vec3, d: Vec3): real {
    var h := Dot(Sub(o, center), d);
    h * h - QuadA(d) * QuadC(center, r2, o)
  }

  /** With an exact root, the legacy root is the minus-candidate of the
      half-b formula: `(-h - sqrt(h^2 - a c)) / a`. */
  lemma RootHalved(sqrt: SqrtFn, center: Vec3, r2: real, o: Vec3, d: Vec3)
    requires ExactSqrt(sqrt)
    requires QuadA(d) != 0.0 && Discriminant(center, r2, o, d) >= 0.0
    ensures HalfDisc(center, r2, o, d) >= 0.0
    ensures Root(sqrt, center, r2, o, d) == (-Dot(Sub(o, center), d) - sqrt(HalfDisc(center, r2, o, d))) / QuadA(d)
  {
    var a, c := QuadA(d), QuadC(center, r2, o);
    var h := Dot(Sub(o, center), d);
    var q := HalfDisc(center, r2, o, d);
    var disc := Discriminant(center, r2, o, d);
    assert disc == 4.0 * q;
    assert q >= 0.0;
    var s, s4 := sqrt(q), sqrt(disc);
    assert s >= 0.0 && s * s == q;
    assert s4 >= 0.0 && s4 * s4 == disc;
    assert (2.0 * s) * (2.0 * s) == disc;
    SquareRoots(s4, 2.0 * s);
    assert s4 == 2.0 * s;
    assert Root(sqrt, center, r2, o, d) == (2.0 * (-h - s)) / (2.0 * a);
    HalveBoth(-h - s, a);
  }

  lemma HalveBoth(x: real, a: real)
    requires a != 0.0
    ensures (2.0 * x) / (2.0 * a) == x / a
  {
    var y := x / a;
    assert y * a == x;
    assert y * (2.0 * a) == 2.0 * x;
  }

  /** With an exact root, a returned hit lies on the sphere and no point of
      the sphere lies on the ray before it, behind the origin or not. */
  lemma SphereHitNearest(sqrt: SqrtFn, center: Vec3, r2: real, o: Vec3, d: Vec3)
    requires ExactSqrt(sqrt)
    ensures var r := SphereIntersect(sqrt, center, r2, o, d);
      r.Some? ==> Spheres.OnSphere(center, r2, r.value.p)
    ensures var r := SphereIntersect(sqrt, center, r2, o, d);
      r.Some? ==> forall t :: Spheres.OnSphere(center, r2, PointAt(o, d, t)) ==> r.value.t <= t
  {
    var r := SphereIntersect(sqrt, center, r2, o, d);
    if r.Some? {
      var a, c := QuadA(d), QuadC(center, r2, o);
      var h := Dot(Sub(o, center), d);
      var q := HalfDisc(center, r2, o, d);
      RootHalved(sqrt, center, r2, o, d);
      DotSelfNonNeg(d);
      assert a > 0.0;
      SphereQuadratic(center, r2, o, d, r.value.t);
      QuadraticRoots(sqrt, r.value.t, a, h, c, q);
      forall t | Spheres.OnSphere(center, r2, PointAt(o, d, t))
        ensures r.value.t <= t
      {
        SphereQuadratic(center, r2, o, d, t);
        QuadraticRoots(sqrt, t, a, h, c, q);
        CandidatesOrdered(a, h, sqrt(q));
      }
    }
  }

  /** For a unit direction and an exact root, the legacy root is the later
      renderer's near root whenever either discriminant allows a root. */
  lemma RootIsNearRoot(sqrt: SqrtFn, center: Vec3, r2: real, o: Vec3, d: Vec3)
    requires ExactSqrt(sqrt)
    requires Dot(d, d) == 1.0
    ensures Discriminant(center, r2, o, d) >= 0.0 <==> Spheres.Discriminant(sqrt, center, r2, o, d) >= 0.0
    ensures Discriminant(center, r2, o, d) >= 0.0 ==>
      Root(sqrt, center, r2, o, d) == Spheres.NearRoot(sqrt, center, r2, o, d)
  {
    var u := Sub(o, center);
    NormSquared(sqrt, u);
    assert Spheres.ConstTerm(sqrt, center, r2, o) == QuadC(center, r2, o);
    assert Spheres.Discriminant(sqrt, center, r2, o, d) == Dot(u, d) * Dot(u, d) - QuadA(d) * QuadC(center, r2, o);
    assert Discriminant(center, r2, o, d) == 4.0 * Spheres.Discriminant(sqrt, center, r2, o, d);
    if Discriminant(center, r2, o, d) >= 0.0 {
      RootHalved(sqrt, center, r2, o, d);
      assert HalfDisc(center, r2, o, d) == Spheres.Discriminant(sqrt, center, r2, o, d);
    }
  }

  /** For a unit direction and an exact root, the two versions agree on
      every hit strictly ahead of the origin on the near root: the legacy
      sphere reports it exactly when the later one reports its near root. */
  lemma SphereAgreesAhead(sqrt: SqrtFn, center: Vec3, r2: real, o: Vec3, d: Vec3)
    requires ExactSqrt(sqrt)
    requires Dot(d, d) == 1.0
    ensures var r := SphereIntersect(sqrt, center, r2, o, d);
      var q := Spheres.Intersect(sqrt, center, r2, o, d, Infinity);
      (r.Some? && r.value.t > 0.0 ==> q == r) &&
      (q.Some? && q.value.t == Spheres.NearRoot(sqrt, center, r2, o, d) ==> r == q)
  {
    RootIsNearRoot(sqrt, center, r2, o, d);
  }

  lemma ScaleDown(x: real, b: real)
    requires 0.0 <= x && 0.0 <= b <= 1.0
    ensures x * b <= x
  {
    assert x * (1.0 - b) >= 0.0;
  }

  /** A positive square root of a number above h^2 exceeds |h|: the minus
      candidate is negative and the plus candidate positive. */
  lemma RootExceeds(h: real, s: real)
    requires s >= 0.0 && s * s > h * h
    ensures -h - s < 0.0 && -h + s > 0.0
  {
  }

  /** From a point strictly inside the sphere the legacy intersection finds
      nothing, because the nearer root is behind the origin; the later
      renderer takes the far root and hits the sphere. */
  lemma SphereMissesFromInside(sqrt: SqrtFn, center: Vec3, r2: real, o: Vec3, d: Vec3)
    requires ExactSqrt(sqrt)
    requires Dot(d, d) == 1.0
    requires Dot(Sub(o, center), Sub(o, center)) < r2
    ensures SphereIntersect(sqrt, center, r2, o, d).None?
    ensures Spheres.Intersect(sqrt, center, r2, o, d, Infinity).Some?
  {
    var h := Dot(Sub(o, center), d);
    var q := HalfDisc(center, r2, o, d);
    assert q > h * h;
    RootIsNearRoot(sqrt, center, r2, o, d);
    assert Discriminant(center, r2, o, d) >= 0.0;
    RootHalved(sqrt, center, r2, o, d);
    assert Spheres.Discriminant(sqrt, center, r2, o, d) == q;
    RootExceeds(h, sqrt(q));
    assert Root(sqrt, center, r2, o, d) < 0.0;
    assert Spheres.FarRoot(sqrt, center, r2, o, d) > 0.0;
  }

  // ---------------------------------------------------------------------
  // The scan and the pixel.

  function Intersect(sqrt: SqrtFn, g: Geom, o: Vec3, d: Vec3): (r: Option<Hit>)
    ensures r.Some? ==> 0.0 <= r.value.t && r.value.p == PointAt(o, d, r.value.t)
  {
    match g
    case RelTriangle(f) => TriangleIntersect(f, o, d)
    case RelSphere(p, r2) => SphereIntersect(sqrt, p, r2, o, d)
  }

  function Candidates(sqrt: SqrtFn, ss: seq<RelSurface>, o: Vec3, d: Vec3): (hits: seq<Option<Hit>>)
    ensures |hits| == |ss|
    ensures forall k :: 0 <= k < |ss| ==> hits[k] == Intersect(sqrt, ss[k].geom, o, d)
  {
    seq(|ss|, k requires 0 <= k < |ss| => Intersect(sqrt, ss[k].geom, o, d))
  }

  /** `rayHitSurface`: every surface is asked without a bound and a hit
      replaces the best so far only when strictly nearer, so the result is
      the first of the nearest hits, or no hit when nothing is hit. */
  method RayHitSurface(sqrt: SqrtFn, ss: seq<RelSurface>, o: Vec3, d: Vec3) returns (r: Rays.Nearest)
    ensures r == Rays.MinScan(Candidates(sqrt, ss, o, d), |ss|)
  {
    ghost var hits := Candidates(sqrt, ss, o, d);
    r := Rays.NoHit;
    var best: Bound := Infinity;
    var i := 0;
    while i < |ss|
      invariant 0 <= i <= |ss|
      invariant r == Rays.MinScan(hits, i)
      invariant best == Rays.BoundOf(r)
    {
      var hit := Intersect(sqrt, ss[i].geom, o, d);
      MinScanStep(hits, i);
      assert hit == hits[i];
      if hit.Some? && Below(hit.value.t, best) {
        r := Rays.HitAt(i, hit.value);
        best := Finite(hit.value.t);
      }
      i := i + 1;
    }
  }

  /** One more candidate replaces the best so far exactly when it is a hit
      strictly nearer than it. */
  lemma MinScanStep(hits: seq<Option<Hit>>, i: nat)
    requires i < |hits|
    ensures var prev := Rays.MinScan(hits, i);
      Rays.MinScan(hits, i + 1) ==
        if hits[i].Some? && Below(hits[i].value.t, Rays.BoundOf(prev)) then Rays.HitAt(i, hits[i].value) else prev
  {
  }

  /** `b = |normal . normalize(p)|`: the cosine between the normal and the
      view ray to the hit when both are unit vectors. */
  function Brightness(sqrt: SqrtFn, h: Hit): (b: real)
    ensures b >= 0.0
  {
    var q := Dot(h.normal, Normalize(sqrt, h.p));
    if q < 0.0 then -q else q
  }

  /** With an exact root, a unit normal and a hit away from the camera, the
      brightness is at most 1. */
  lemma BrightnessAtMostOne(sqrt: SqrtFn, h: Hit)
    requires ExactSqrt(sqrt)
    requires Dot(h.normal, h.normal) == 1.0 && h.p != Zero
    ensures Brightness(sqrt, h) <= 1.0
  {
    var v := Normalize(sqrt, h.p);
    NormalizeUnit(sqrt, h.p);
    CauchySchwarz(h.normal, v);
    var q := Dot(h.normal, v);
    assert q * q <= 1.0;
  }

  /** The bytes `render` stores for the scan's answer: nothing on a miss,
      otherwise the surface colour scaled by the brightness and an opaque
      alpha. */
  function Shade(sqrt: SqrtFn, ss: seq<RelSurface>, nearest: Rays.Nearest): (px: Option<seq<int>>)
    requires nearest.HitAt? ==> nearest.index < |ss|
    ensures px.None? <==> nearest.NoHit?
    ensures px.Some? ==> Shading.IsPixel(px.value) && px.value[3] == Shading.ByteMax
  {
    match nearest
    case NoHit => None
    case HitAt(k, h) =>
      Some(Tint(ss[k].color, Brightness(sqrt, h)))
  }

  /** `color[i] * 0xff * b` stored in a clamped byte. */
  function Channel(c: real, b: real): int {
    Shading.ClampByte(c * 255.0 * b)
  }

  /** The three channels and an opaque alpha. */
  function Tint(color: Vec3, b: real): (px: seq<int>)
    ensures Shading.IsPixel(px) && px[3] == Shading.ByteMax
  {
    [Channel(color.x, b), Channel(color.y, b), Channel(color.z, b), Shading.ByteMax]
  }

  /** No channel outshines the surface's own colour: with an exact root, a
      unit normal, a hit away from the camera and colour components in
      [0, 1], each channel is at most the byte of the colour at full
      brightness. */
  lemma ShadeAtMostColor(sqrt: SqrtFn, ss: seq<RelSurface>, k: nat, h: Hit)
    requires ExactSqrt(sqrt)
    requires k < |ss|
    requires Dot(h.normal, h.normal) == 1.0 && h.p != Zero
    requires var color := ss[k].color;
      0.0 <= color.x <= 1.0 && 0.0 <= color.y <= 1.0 && 0.0 <= color.z <= 1.0
    ensures var px := Shade(sqrt, ss, Rays.HitAt(k, h)).value;
      var color := ss[k].color;
      px[0] <= Shading.ClampByte(color.x * 255.0) &&
      px[1] <= Shading.ClampByte(color.y * 255.0) &&
      px[2] <= Shading.ClampByte(color.z * 255.0)
  {
    BrightnessAtMostOne(sqrt, h);
    TintAtMost(ss[k].color, Brightness(sqrt, h));
  }

  lemma TintAtMost(color: Vec3, b: real)
    requires 0.0 <= b <= 1.0
    requires 0.0 <= color.x <= 1.0 && 0.0 <= color.y <= 1.0 && 0.0 <= color.z <= 1.0
    ensures Tint(color, b)[0] <= Shading.ClampByte(color.x * 255.0)
    ensures Tint(color, b)[1] <= Shading.ClampByte(color.y * 255.0)
    ensures Tint(color, b)[2] <= Shading.ClampByte(color.z * 255.0)
  {
    DimmerAtMost(color.x, b);
    DimmerAtMost(color.y, b);
    DimmerAtMost(color.z, b);
  }

  /** Dimming a non-negative channel by a factor in [0, 1] never raises its
      clamped byte. */
  lemma DimmerAtMost(c: real, b: real)
    requires 0.0 <= c && 0.0 <= b <= 1.0
    ensures Channel(c, b) <= Shading.ClampByte(c * 255.0)
  {
    ScaleDown(c * 255.0, b);
    Shading.ClampByteMonotone(c * 255.0 * b, c * 255.0);
  }

  /** The pixel (x, y) ends up with: the shading of the first nearest hit
      along its primary ray, or nothing. */
  function PixelAt(sqrt: SqrtFn, ss: seq<RelSurface>, width: nat, height: nat, dis: real, x: nat, y: nat): (px: Option<seq<int>>)
    ensures px.Some? ==> Shading.IsPixel(px.value)
  {
    Shade(sqrt, ss, Rays.MinScan(Candidates(sqrt, ss, Zero, Shading.PrimaryDirection(sqrt, width, height, dis, x, y)), |ss|))
  }

  /** Byte c of a pixel as the image holds it after `render`: the shaded
      byte, or the 0 of `createImageData` for a missed pixel. */
  function Stored(px: Option<seq<int>>, c: nat): int
    requires c < 4 && (px.Some? ==> |px.value| == 4)
  {
    if px.Some? then px.value[c] else 0
  }

  /** The body of the inner loop for pixel (x, y), whose bytes are still
      zero: cast its primary ray and store the shaded bytes when something
      is hit. No other byte changes. */
  method DrawPixel(sqrt: SqrtFn, ss: seq<RelSurface>, width: nat, height: nat, dis: real, x: nat, y: nat, data: seq<int>)
    returns (out: seq<int>)
    requires x < width && y < height && |data| == 4 * (width * height)
    requires forall i :: Shading.PixelIndex(width, height, x, y) <= i < Shading.PixelIndex(width, height, x, y) + 4 ==> data[i] == 0
    ensures |out| == |data|
    ensures forall c :: 0 <= c < 4 ==>
      out[Shading.PixelIndex(width, height, x, y) + c] == Stored(PixelAt(sqrt, ss, width, height, dis, x, y), c)
    ensures forall i :: 0 <= i < |data| && !(Shading.PixelIndex(width, height, x, y) <= i < Shading.PixelIndex(width, height, x, y) + 4) ==>
      out[i] == data[i]
  {
    var direction := Shading.PrimaryDirection(sqrt, width, height, dis, x, y);
    var nearest := RayHitSurface(sqrt, ss, Zero, direction);
    var px := Shade(sqrt, ss, nearest);
    assert px == PixelAt(sqrt, ss, width, height, dis, x, y);
    out := data;
    if px.Some? {
      out := Shading.WritePixel(data, Shading.PixelIndex(width, height, x, y), px.value);
    }
  }

  /** The inner loop for row y: every pixel of the row gets its bytes, in
      order, and the rows below stay zero. */
  method DrawRow(sqrt: SqrtFn, ss: seq<RelSurface>, width: nat, height: nat, dis: real, y: nat, data: seq<int>)
    returns (out: seq<int>)
    requires y < height && |data| == 4 * (width * height)
    requires forall i :: 4 * (width * y) <= i < |data| ==> data[i] == 0
    requires forall x', y', c :: 0 <= x' < width && 0 <= y' < y && 0 <= c < 4 ==>
      data[Shading.PixelIndex(width, height, x', y') + c] == Stored(PixelAt(sqrt, ss, width, height, dis, x', y'), c)
    ensures |out| == |data|
    ensures forall i :: 4 * (width * y + width) <= i < |out| ==> out[i] == 0
    ensures forall x', y', c :: 0 <= x' < width && 0 <= y' <= y && 0 <= c < 4 ==>
      out[Shading.PixelIndex(width, height, x', y') + c] == Stored(PixelAt(sqrt, ss, width, height, dis, x', y'), c)
  {
    out := data;
    var index := 4 * (width * y) - 4;
    var screenX := 0;
    while screenX < width
      invariant 0 <= screenX <= width
      invariant |out| == |data|
      invariant index + 4 == 4 * (width * y + screenX)
      invariant forall i :: index + 4 <= i < |out| ==> out[i] == 0
      invariant forall x', y', c :: 0 <= x' < width && 0 <= y' < height && 0 <= c < 4 && Shading.Before(x', y', screenX, y) ==>
        out[Shading.PixelIndex(width, height, x', y') + c] == Stored(PixelAt(sqrt, ss, width, height, dis, x', y'), c)
    {
      index := index + 4;
      assert index == Shading.PixelIndex(width, height, screenX, y);
      ghost var before := out;
      out := DrawPixel(sqrt, ss, width, height, dis, screenX, y, out);
      forall x', y', c | 0 <= x' < width && 0 <= y' < height && 0 <= c < 4 && Shading.Before(x', y', screenX, y)
        ensures out[Shading.PixelIndex(width, height, x', y') + c] == Stored(PixelAt(sqrt, ss, width, height, dis, x', y'), c)
      {
        Shading.PixelIndexOrder(width, height, x', y', screenX, y);
        assert out[Shading.PixelIndex(width, height, x', y') + c] == before[Shading.PixelIndex(width, height, x', y') + c];
      }
      screenX := screenX + 1;
    }
  }

  /** `Camera.render`'s two loops over a fresh image of zero bytes: every
      pixel, in row-major order, that some surface covers gets its shaded
      bytes at `4 * (width * y + x)`; every missed pixel stays transparent
      black. */
  method Render(sqrt: SqrtFn, ss: seq<RelSurface>, width: nat, height: nat, dis: real) returns (data: seq<int>)
    ensures |data| == 4 * (width * height)
    ensures forall x, y, c :: 0 <= x < width && 0 <= y < height && 0 <= c < 4 ==>
      data[Shading.PixelIndex(width, height, x, y) + c] == Stored(PixelAt(sqrt, ss, width, height, dis, x, y), c)
  {
    data := seq(4 * (width * height), _ => 0);
    assert forall i :: 0 <= i < |data| ==> data[i] == 0;
    var screenY := 0;
    while screenY < height
      invariant 0 <= screenY <= height
      invariant |data| == 4 * (width * height)
      invariant forall i :: 4 * (width * screenY) <= i < |data| ==> data[i] == 0
      invariant forall x, y, c :: 0 <= x < width && 0 <= y < screenY && 0 <= c < 4 ==>
        data[Shading.PixelIndex(width, height, x, y) + c] == Stored(PixelAt(sqrt, ss, width, height, dis, x, y), c)
    {
      data := DrawRow(sqrt, ss, width, height, dis, screenY, data);
      assert width * (screenY + 1) == width * screenY + width;
      screenY := screenY + 1;
    }
  }
}

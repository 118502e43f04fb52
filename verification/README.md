# A verified model of the raytrace renderer core

This project models the deterministic core of a small browser ray tracer in
Dafny. Each frame the renderer moves the scene into camera coordinates
(`relative`). It serialises surfaces and lights into shared buffers for its
render workers and splits the image into one stripe of rows per worker. For
every pixel it shoots a primary ray, finds the nearest surface
(`rayHitSurface`) and shades it, asking `firstHitIs` whether each light
reaches the hit point.

Three generations of the code are covered:

- the single-file renderer (script.js), in module `Legacy`;
- the single-threaded shading loop (js/classes.js), in module `Shading`;
- the worker-based renderer's main-thread side (public/js/classes.js,
  public/js/surfaces.js, public/js/rays.js, public/js/vec3.js), in the
  remaining modules.

Modelling choices:

- JavaScript numbers are modelled as mathematical reals.
- `Math.sqrt` is a parameter `sqrt: real -> real`. Properties that need an
  exact root assume `ExactSqrt(sqrt)`. Properties that need only a
  non-negative root assume `NonNegSqrt(sqrt)`.
- The source's `null` results become `Option` values. The typed-array
  constructor's `RangeError` becomes an `Err` result.
- A surface's identity (the source compares objects with `===`) is its index
  in drawable-major order: drawable by drawable, then surface by surface.
  `Scenes.Flatten` fixes that order.
- `relative` is a pure function from an authored surface to a
  camera-relative snapshot (`RelSurface`). The source instead overwrites
  derived fields in place.

Modules:

| module | file | what it holds |
|---|---|---|
| Wrappers | wrappers.dfy | `Option`, `Result` |
| Vector3 | vector3.dfy | the three-component vector kernel |
| Vector | vector.dfy | the n-dimensional `Vector` of script.js |
| Matrix | matrix.dfy | `Matrix.multiply`/`pmultiply` and the 3x3 camera rotation |
| Hits | hits.dfy | hits, the `tMax` bound and `Cut` |
| Quadratics | quadratic.dfy | the root facts behind the quadratic formula |
| Triangles | triangle.dfy | `TriangleSurface`: precompute, intersect, point-in-triangle |
| Spheres | sphere.dfy | `SphereSurface.rayIntersect` |
| Cylinders | cylinder.dfy | `CylinderSurface.rayIntersect` |
| Surfaces | surfaces.dfy | surface kinds, `relative`, dispatch, `serialize` slot maps |
| Scenes | scene.dfy | drawables, lights, scene, `relative`, drawable-major order |
| Rays | rays.dfy | `rayHitSurface` and `firstHitIs` |
| Buffers | buffers.dfy | the surfaces and lights buffers, typed-array views |
| Arith | arith.dfy | an integer monotonicity fact |
| Dispatch | dispatch.dfy | the frame counter and stripe jobs of the worker renderer |
| Shading | shading.dfy | the shading rule and pixel loop of js/classes.js |
| Legacy | legacy.dfy | the single-file renderer of script.js |

## Model

| member | source | states |
|---|---|---|
| Vector3.ToSeq | public/js/vec3.js:1-81 | The three-element array of a vector reads back as the same vector. |
| Vector3.Recip | public/js/vec3.js:57-59 | `1 / x` is the inverse of every non-zero x. Zero gets 0, where JavaScript would give Infinity. |
| Vector3.SubAddCancel | public/js/vec3.js:3-24 | `sub(add(a, b), b) == a` and `add(sub(a, b), b) == a`: addition and subtraction undo each other. |
| Vector3.ScaleRoundTrip | public/js/vec3.js:33-39 | Scaling by a non-zero k is undone by scaling by `1 / k`; 1 leaves a vector unchanged and 0 sends it to zero. |
| Vector3.IAdd | public/js/vec3.js:11-16 | After `iadd`, the first array holds `add` of the old operands; only it is modified. |
| Vector3.ISub | public/js/vec3.js:26-31 | After `isub`, the first array holds `sub` of the old operands; only it is modified. |
| Vector3.IScale | public/js/vec3.js:41-45 | After `iscale`, the array holds `scale` of its old value. |
| Vector3.INormalize | public/js/vec3.js:61-63 | After `inormalize`, the array holds `normalize` of its old value. |
| Vector3.DotSymmetric | public/js/vec3.js:75-81 | `dot(a, b) == dot(b, a)`. |
| Vector3.NormSquared | public/js/vec3.js:48-54 | With an exact root, `norm(v) >= 0` and `norm(v)^2 == dot(v, v)`. |
| Vector3.DotSelfPositive | public/js/vec3.js:75-81 | `dot(v, v) > 0` for every non-zero v. |
| Vector3.NormPositive | public/js/vec3.js:48-54 | With an exact root, a non-zero vector has a positive norm. |
| Vector3.CrossOrthogonal | public/js/vec3.js:66-72 | `cross(a, b)` is orthogonal to both a and b. |
| Vector3.CrossSelf | public/js/vec3.js:66-72 | `cross(a, a)` is the zero vector. |
| Vector3.Lagrange | public/js/vec3.js:66-81 | Lagrange's identity: `dot(a,a) dot(b,b) - dot(a,b)^2 == dot(cross(a,b), cross(a,b))`. |
| Vector3.CauchySchwarz | public/js/vec3.js:75-81 | `dot(a,b)^2 <= dot(a,a) dot(b,b)`. |
| Vector3.NormalizeUnit | public/js/vec3.js:57-59 | With an exact root, `normalize(v)` has unit length for every non-zero v. |
| Vector3.NormalizePositiveMultiple | public/js/vec3.js:57-59 | With an exact root, `normalize(v)` is a positive multiple of a non-zero v, so it points the same way. |
| Vector.SumProductsOfThree | script.js:70-76 | On three-element arrays, the n-dimensional `dot` is the three-component `dot`. |
| Vector.Add | script.js:4-10 | The result has the first argument's length; entry i is `vec1[i] + vec2[i]`. |
| Vector.Sub | script.js:19-25 | The result has the first argument's length; entry i is `vec1[i] - vec2[i]`. |
| Vector.Scale | script.js:28-34 | The result has the vector's length; entry i is `scalar * vec[i]`. |
| Vector.IAdd | script.js:12-16 | Every entry of `vec1` gains the matching (old) entry of `vec2`; only `vec1` is modified. |
| Vector.IScale | script.js:36-40 | Every entry of the array is multiplied by the scalar. |
| Vector.Dot | script.js:70-76 | The left-to-right sum of products over the first argument's length. |
| Vector.Norm | script.js:43-49 | The root of the sum of squares; with an exact root, non-negative and squaring back to that sum. |
| Vector.SumSquaresNonNeg | script.js:43-49 | A sum of squares is never negative. |
| Vector.Normalize | script.js:52-54 | Same length as the input; each entry scaled by `1 / norm`. |
| Vector.Cross | script.js:61-67 | A three-element array that is the three-component cross product of the first three entries. |
| Matrix.Multiply | script.js:81-96 | An m-by-n times n-by-p product is m-by-p, with entry (i, j) the sum over k of `mat1[i][k] * mat2[k][j]`. |
| Matrix.PMultiply | script.js:99-114 | One entry per matrix row; entry i is the sum over j of `p[j] * mat[i][j]`. |
| Matrix.ToRows | public/js/classes.js:107-122 | A 3x3 rotation is a 3-by-3 array of rows. |
| Matrix.ApplyIsPMultiply | public/js/classes.js:107-122 | Applying a 3x3 matrix to a vector agrees with `pmultiply` entry by entry. |
| Matrix.ApplySub | public/js/classes.js:107-122 | A matrix applied to a difference is the difference of the images (linearity used by `relative`). |
| Quadratics.QuadraticRoots | public/js/surfaces.js:214-238 | With an exact root, `a t^2 + 2 b t + c == 0` (a non-zero) iff the discriminant `b^2 - ac` is non-negative and t is `(-b - root)/a` or `(-b + root)/a`. |
| Quadratics.MonicRoots | public/js/surfaces.js:132-153 | With an exact root, `t^2 + 2 b t + c == 0` iff `b^2 - c >= 0` and t is `-b - root` or `-b + root`. |
| Quadratics.SquareEquals | public/js/surfaces.js:141 | With an exact root, `x^2 == disc` iff disc is non-negative and x is `±sqrt(disc)`. |
| Quadratics.CandidatesOrdered | public/js/surfaces.js:222-238 | For positive a and a non-negative root, `t1 <= t2`. |
| Triangles.Precompute | public/js/surfaces.js:31-49 | The frame keeps the vertices, `A + vec1 == B` and `A + vec2 == C`, and `negNormal` is the opposite of `normal`. |
| Triangles.PrecomputeDenominator | public/js/surfaces.js:45-48 | `dot11*dot22 - dot12^2` is zero iff the triangle is degenerate (collinear). Otherwise it is positive and `invDenom` is its reciprocal. |
| Triangles.PrecomputeGram | public/js/surfaces.js:45-48 | The denominator is the squared length of `cross(vec1, vec2)`. |
| Triangles.PrecomputePlane | public/js/surfaces.js:38-41 | All three vertices satisfy the plane equation `dot(normal, p) + dTri == 0`. |
| Triangles.PrecomputeNormal | public/js/surfaces.js:39 | For a non-degenerate triangle and an exact root, the normal is a unit vector perpendicular to both edges. |
| Triangles.Intersect | public/js/surfaces.js:51-73 | No hit when `dot(normal, dir) == 0`. A hit has `0 <= t < tMax` and `p == o + t dir` on the plane; it is inside the triangle unless `planeOnly`; its normal is `negNormal` exactly when `denom > 0`. |
| Triangles.PlaneCrossing | public/js/surfaces.js:60 | For a ray not parallel to the plane, `o + t dir` is on the plane iff `t == -(dot(normal, o) + dTri) / denom`. |
| Triangles.IntersectExactly | public/js/surfaces.js:51-73 | For a ray not parallel to the plane, a hit at t is reported iff `0 <= t < tMax`, the point is on the plane, and `planeOnly` holds or the point is inside. |
| Triangles.NormalFacesRay | public/js/surfaces.js:69 | Every triangle hit has `dot(normal, dir) < 0`. |
| Triangles.IntersectMonotone | public/js/surfaces.js:62-64 | A smaller `tMax` only drops a hit; it never changes one. |
| Triangles.BarycentricOfPlanePoint | public/js/surfaces.js:75-85 | For a non-degenerate triangle, the barycentric step recovers (s, t) from the plane point `A + s vec1 + t vec2`. |
| Triangles.FrameCoordinates | public/js/surfaces.js:76-84 | For any frame whose dots are those of its edges and whose `invDenom` inverts their Gram determinant, (u, v) are the point's edge coefficients. |
| Triangles.SolveBarycentric | public/js/surfaces.js:83-84 | The two formulas for u and v solve the 2x2 Gram system. |
| Triangles.ContainsPlanePoint | public/js/surfaces.js:75-92 | A plane point passes `containsPoint` iff `s >= -EPSILON`, `t >= -EPSILON` and `s + t <= 1 + EPSILON`. |
| Triangles.ContainsVertices | public/js/surfaces.js:75-92 | Each vertex of a non-degenerate triangle passes `containsPoint`. |
| Triangles.PlanePointCorners | public/js/surfaces.js:35-36 | The plane points at (0,0), (1,0) and (0,1) are A, B and C. |
| Spheres.Intersect | public/js/surfaces.js:128-164 | No hit for a negative discriminant. A hit has `0 < t < tMax` and `p == o + t dir`. The near root is taken whenever it is in range, with outward normal `p - c`. Otherwise only the far root is possible, with inward normal `c - p`. |
| Spheres.SphereRoots | public/js/surfaces.js:130-153 | For a unit direction and an exact root, the ray point at t is on the sphere iff the discriminant is non-negative and t is the near or far root. |
| Spheres.SphereEquation | public/js/surfaces.js:130-135 | For a unit direction, the ray meets the sphere at t iff `t^2 + 2 bHalf t + c == 0`. |
| Spheres.RootsOrdered | public/js/surfaces.js:143-153 | With a non-negative root, the near root is at most the far root. |
| Spheres.IntersectNearest | public/js/surfaces.js:128-164 | With an exact root and a unit direction, a hit lies on the sphere and no sphere point in `(0, tMax)` is nearer. No hit means no sphere point lies in `(0, tMax)`. |
| Spheres.NormalFacesRay | public/js/surfaces.js:145-161 | For a unit direction, the reported normal never points along the ray: outward where the ray enters, inward where it leaves. |
| Spheres.RadialSlope | public/js/surfaces.js:132 | For a unit direction, `dot(p(t) - c, dir) == bHalf + t`. |
| Spheres.IntersectMonotone | public/js/surfaces.js:145-161 | With a non-negative root, a smaller `tMax` only drops the hit. |
| Cylinders.Intersect | public/js/surfaces.js:195-255 | No hit for a negative discriminant or a ray parallel to the axis. A hit has `0 < t < tMax`, axial projection strictly inside `(0, height)`, and `p == o + t dir`. `t1` is taken when it passes, with normal away from the axis. Otherwise only `t2` is possible, with the normal flipped. |
| Cylinders.CylinderEquation | public/js/surfaces.js:207-214 | The ray meets the infinite cylinder at t iff `a t^2 + 2 bHalf t + c == 0`. |
| Cylinders.CylinderRoots | public/js/surfaces.js:207-238 | With an exact root and a non-parallel ray, the ray is on the infinite cylinder at t iff the discriminant is non-negative and t is `t1` or `t2`. |
| Cylinders.LeadCoefNonNeg | public/js/surfaces.js:210 | With a unit axis, `a` is never negative. |
| Cylinders.RootsOrdered | public/js/surfaces.js:222-238 | With positive `a` and a non-negative root, `t1 <= t2`. |
| Cylinders.IntersectNearest | public/js/surfaces.js:195-255 | With an exact root and positive `a`, a hit lies on the cylinder and is the nearest point admitted by the range checks; no hit means no such point exists. |
| Cylinders.FootLevel | public/js/surfaces.js:226-231 | With a unit axis, `offset` is level with the hit point on the axis, and `p - offset` is orthogonal to the axis. |
| Cylinders.RadialSlope | public/js/surfaces.js:226-231 | The radial offset `p - offset` of the ray point at t has `dot(p - offset, dir) == bHalf + a t`. |
| Cylinders.NormalFacesRay | public/js/surfaces.js:229-250 | With a non-negative root, the reported normal never points along the ray. |
| Cylinders.IntersectMonotone | public/js/surfaces.js:224-245 | With a non-negative root and non-negative `a`, a smaller `tMax` only drops the hit. |
| Surfaces.NewTriangle | public/js/surfaces.js:14-19 | A new triangle has type tag 1 and neither flag set. |
| Surfaces.NewSphere | public/js/surfaces.js:119-126 | A new sphere has tag 2, keeps its flags, and stores `r2 = r^2 >= 0`. |
| Surfaces.NewCylinder | public/js/surfaces.js:182-193 | A new cylinder has tag 3 and `end - pos == axis`. |
| Surfaces.TypeOf | public/js/surfaces.js:16-184 | Every surface's tag is 1, 2 or 3. |
| Surfaces.ToCamera | public/js/surfaces.js:21-26 | Moving a point into the camera frame gives the rotated point minus the rotated camera position; the camera position itself goes to the origin. |
| Surfaces.Relative | public/js/surfaces.js:21-29 | `relative` keeps colour, flags and kind; the geometry is moved into the camera frame. |
| Surfaces.RelativeWellFormed | public/js/surfaces.js:257-266 | With an exact root, every snapshot keeps the scans' invariants: a triangle's `negNormal` is the opposite of its normal, and a cylinder's `relAxis` is a unit vector (or zero for a zero-length axis). |
| Surfaces.Intersect | public/js/rays.js:15 | Whatever the kind, a hit has `0 <= t < tMax` and `p == o + t dir`. |
| Surfaces.WellFormedMonotone | public/js/rays.js:11-23 | With a non-negative root, every well-formed surface answers a bounded query by cutting its unbounded answer: the unbounded hit when it lies below `tMax`, and nothing otherwise. |
| Surfaces.Store | public/js/surfaces.js:94-115 | `serialize(data, offset)` changes nothing outside `[offset, offset + 26)`. |
| Surfaces.SerializeTriangle | public/js/surfaces.js:94-115 | The triangle's loop writes exactly the record `Store` describes. |
| Surfaces.SerializeSphere | public/js/surfaces.js:172-178 | The sphere writes exactly the record `Store` describes. |
| Surfaces.SerializeCylinder | public/js/surfaces.js:268-276 | The cylinder writes exactly the record `Store` describes. |
| Surfaces.Serialize | public/js/classes.js:245 | Dispatch on the kind writes that kind's record. |
| Surfaces.SlotsWritten | public/js/surfaces.js:94-276 | A triangle writes every slot of 0..25, a sphere exactly 0..6, a cylinder exactly 0..10. |
| Surfaces.Decode | public/js/surfaces.js:94-276 | A record decodes iff its tag is 1, 2 or 3, to a geometry of that kind. |
| Surfaces.DecodeStore | public/js/surfaces.js:94-276 | Decoding a serialized record under its tag gives back the colour and geometry. |
| Scenes.FlattenIndex | public/js/classes.js:216-223 | Surface s of drawable g sits at `Start(g) + s`, and the drawables tile the flattened order. |
| Scenes.FlattenMap | public/js/classes.js:241-248 | Flattening commutes with mapping each surface. |
| Scenes.LightRelative | public/js/classes.js:171-175 | A light's relative position is where the inverse rotation takes the light minus where it takes the camera; its colour is kept. |
| Scenes.ToCameraTranslate | public/js/classes.js:426-431 | Moving by `cam - pos` equals placing at `pos` and then viewing from `cam`. |
| Scenes.DrawableRelativeIsWorld | public/js/classes.js:426-431 | A drawable's snapshot is that of the surface translated to world coordinates and seen from the camera. |
| Scenes.SceneRelativeIsWorld | js/classes.js:183-186 | In scan order, snapshot k of `Scene.relative` is world surface k (its drawable's surface moved by the drawable's position) seen from the camera. Each light sits at its rotated offset from the camera, with its colour kept. |
| Scenes.SceneRelativeWellFormed | js/classes.js:183-186 | With an exact root, every snapshot from `Scene.relative` is well-formed. |
| Rays.Scan | public/js/rays.js:3-26 | The loop's result names a surface index below n, with `t >= 0` and `p == o + t dir`. |
| Rays.MinScan | script.js:276-296 | The strict-minimum reference: no hit iff no candidate hits; otherwise the first candidate with the least t. |
| Rays.ScanIsMin | public/js/rays.js:11-23 | With monotone surfaces, shrinking `tMax` to the best t so far computes the strict minimum. |
| Rays.ScanNearest | public/js/rays.js:3-26 | No hit iff no surface is hit. Otherwise the named surface's hit is no farther than any other and strictly nearer than every earlier one, so ties keep the first in scan order. |
| Rays.RayHitSurface | public/js/rays.js:3-26 | The two nested loops compute the scan over the drawable-major order. |
| Rays.Clear | public/js/rays.js:38-50 | The loop finds nothing iff no other shadow-casting surface hits below t0. |
| Rays.FirstHit | public/js/rays.js:29-53 | False when the target's `planeOnly` query misses. Otherwise true iff no other non-`noShadow` surface hits below t0. |
| Rays.FirstHitIs | public/js/rays.js:29-53 | The nested loops compute `FirstHit` over the drawable-major order. |
| Rays.PlaneOnlyKeepsHits | public/js/rays.js:30 | A hit of the full test is also the `planeOnly` hit. |
| Rays.FirstHitNearest | public/js/rays.js:29-53 | With monotone surfaces, `firstHitIs` holds iff the target is reached at t0 and every other shadow-casting surface is missed or reached no earlier. |
| Rays.NearestIsFirstHit | public/js/rays.js:3-53 | The surface `rayHitSurface` reports passes `firstHitIs` along the same ray. |
| Buffers.ToUint32 | public/js/classes.js:212 | A `Uint32Array` keeps an integer modulo 2^32, unchanged when already in range. |
| Buffers.ToInt8 | public/js/classes.js:220 | An `Int8Array` keeps an integer modulo 256 in [-128, 128), unchanged when in range. |
| Buffers.View | public/js/classes.js:207-210 | `new T(buffer, offset)` succeeds iff the offset and the length are multiples of the element size and the offset is within the buffer; it then spans exactly the rest. |
| Buffers.WholeElements | public/js/classes.js:237 | Aligned offset and length leave a whole number of elements after the offset. |
| Buffers.Padding | public/js/classes.js:196 | `4 - N % 4` lies in 1..4 and makes `N + padding` a multiple of 4. |
| Buffers.LayoutAligned | public/js/classes.js:196-211 | For every N the tags start after the header, the floats start at a multiple of 4 right after the tags, the length is a multiple of 4, and all three views succeed with the float view holding `26 N` floats. |
| Buffers.PreallocDrawables | public/js/classes.js:186-227 | `meta[0]` holds N modulo 2^32. Tag i is the type of surface i in drawable-major order. The buffer is `4 + padding + 105 N` bytes with padding `4 - N % 4`; the tags start at `4 + padding` and the float records at `4 + padding + N`, which is a multiple of 4, and the float view holds `26 N` floats. |
| Buffers.SerializeDrawables | public/js/classes.js:233-251 | Surface k writes its record at float `26 k`; every float belongs to exactly one record; record k decodes back to surface k under its tag. |
| Buffers.StoreCells | public/js/classes.js:241-248 | Each round of the loop extends the serialized prefix by one record. |
| Buffers.DecodeLocal | public/js/classes.js:241-248 | Decoding reads only the record at its offset, so later records do not disturb earlier ones. |
| Buffers.TagsMatchRecords | public/js/classes.js:214-248 | The tag written for surface i matches the kind of the record serialized for it. |
| Buffers.LightsByteLength | public/js/classes.js:229-231 | The lights buffer holds exactly `6 L` floats. |
| Buffers.DecodeLights | public/js/classes.js:258-269 | Reading six floats per light gives one light per record. |
| Buffers.SerializeLights | public/js/classes.js:253-272 | Light i's relative position is at floats `6i..6i+2` and its colour at `6i+3..6i+5`; the buffer decodes back to the lights. |
| Dispatch.StripesContiguous | public/js/classes.js:392-403 | Stripe 0 starts at 0, the last stops at the height, each stops where the next starts, and only the last absorbs `height mod n`. |
| Dispatch.StripeOf | public/js/classes.js:392-403 | Every row lies in some stripe. |
| Dispatch.StripesUnique | public/js/classes.js:392-403 | No row lies in two stripes. |
| Dispatch.Disjoint | public/js/classes.js:400-403 | An earlier stripe stops no later than a later one starts. |
| Dispatch.Render | public/js/classes.js:365-415 | The frame id goes up by exactly 1 and is stored (mod 2^32) before any post. Then worker i gets stripe i with the new id, the width, the height and `dis`. |
| Shading.ClampByte | js/classes.js:292-338 | A `Uint8ClampedArray` store is 0 for non-positive input, 255 at or above 255, and otherwise within 0.5 of the input. |
| Shading.ClampByteMonotone | js/classes.js:292-338 | Clamped stores keep the order of their inputs. |
| Shading.ClampByteKeepsBytes | js/classes.js:292-338 | A byte value is stored unchanged. |
| Shading.PrimaryDirectionUnit | js/classes.js:274-284 | With an exact root, the primary ray through pixel (x, y) has unit length and points at the screen point `(x - width/2, height/2 - y, dis)`, whenever that point is not the origin. |
| Shading.LightFactor | js/classes.js:318-335 | A light contributes a non-negative factor, and none when `firstHitIs` fails or `dot(normal, incoming) > 0`. |
| Shading.Brightness | js/classes.js:335 | `-0xff * dot / norm^2` is non-negative for a non-positive dot. |
| Shading.LightFactorIs | js/classes.js:319-335 | The factor is what the loop computes from `norm` and the normalised `incoming`. |
| Shading.IncomingUnit | js/classes.js:319-322 | `incoming` is `p - light.relPos` normalized. With an exact root and a light away from the point, it has unit length and points from the light to the point. |
| Shading.AddLight | js/classes.js:337-339 | Adding a light keeps a pixel four bytes with alpha untouched. |
| Shading.AddNeverDarkens | js/classes.js:338 | Adding a non-negative amount to a stored byte never lowers it. |
| Shading.Lit | js/classes.js:318-340 | After any number of lights a lit pixel stays opaque. |
| Shading.Shade | js/classes.js:290-340 | No hit gives opaque black. A glow surface gives `color * 0xff` with no light consulted. Otherwise the lights' contributions are added in order. |
| Shading.GlowIgnoresLights | js/classes.js:311-316 | A glowing surface's pixel does not depend on the lights. |
| Shading.NoLightsBlack | js/classes.js:290-340 | With no lights a non-glowing hit stays black. |
| Shading.LightsOnlyBrighten | js/classes.js:318-340 | With non-negative colours each light only raises the channels, and a skipped light changes nothing. |
| Shading.ShadowedLightIgnored | js/classes.js:324-327 | A light blocked by another shadow-casting surface adds nothing. |
| Shading.ShadePixel | js/classes.js:290-340 | The per-pixel code computes `Shade`. |
| Shading.ApplyLight | js/classes.js:318-340 | One pass of the light loop adds the light's factor when there is one and leaves the pixel alone otherwise. |
| Shading.PixelIndex | js/classes.js:270-278 | Pixel (x, y) starts at `4 (width y + x)` and fits in the image. |
| Shading.PixelIndexOrder | js/classes.js:272-278 | Row-major order: each pixel's bytes come after those of every earlier pixel. |
| Shading.WritePixel | js/classes.js:291-294 | Four stores set exactly the pixel's four bytes. |
| Shading.RenderRow | js/classes.js:273-341 | The inner loop shades every pixel of row y and leaves the other rows alone. |
| Shading.Render | js/classes.js:243-345 | Every pixel's four bytes end up as the shading of the nearest hit along its primary ray. |
| Legacy.Relative | script.js:146-173 | The legacy `relative` keeps the colour and equals the later `relative` of the same shape with no flags. |
| Legacy.ContainsStrictPlanePoint | script.js:198-211 | A plane point passes the strict test iff `s >= 0`, `t >= 0` and `s + t < 1`. |
| Legacy.StrictRejectsCorners | script.js:198-211 | The strict test accepts vertex A but rejects B and C of every non-degenerate triangle. |
| Legacy.StrictWithinWidened | script.js:210 | Every point the strict test accepts, the later widened test accepts. |
| Legacy.TriangleIntersect | script.js:175-196 | No hit when parallel. A hit has `t >= 0` with no upper bound, lies on the plane, passes the strict test, and carries the unflipped normal. |
| Legacy.TriangleWithinLater | script.js:175-196 | The legacy triangle hits iff the later unbounded intersection hits a point passing the strict test, at the same t and point. |
| Legacy.SphereIntersect | script.js:224-253 | No hit for a negative discriminant or a zero direction. A hit is at `(-b - sqrt(disc)) / (2a) >= 0` with outward normal, and that root is taken whenever it is non-negative. |
| Legacy.SphereQuadratic | script.js:231-235 | The ray meets the sphere at t iff `a t^2 + b t + c == 0`. |
| Legacy.RootHalved | script.js:235-241 | With an exact root the full-b root equals the half-b root `(-h - sqrt(h^2 - ac)) / a`. |
| Legacy.SphereHitNearest | script.js:224-253 | With an exact root a hit lies on the sphere and no sphere point at `t >= 0` is nearer. |
| Legacy.RootIsNearRoot | script.js:231-241 | For a unit direction the legacy discriminant agrees in sign with the later one, and the root is the later near root. |
| Legacy.SphereAgreesAhead | script.js:224-253 | For a unit direction the legacy and later spheres agree whenever the near root is ahead of the origin. |
| Legacy.SphereMissesFromInside | script.js:241-245 | From inside the sphere the legacy intersection reports nothing, while the later one reports a hit. |
| Legacy.RayHitSurface | script.js:276-296 | Replacing the best only on strictly smaller t computes the strict minimum with first-wins ties. |
| Legacy.MinScanStep | script.js:287 | One more candidate replaces the best exactly when it hits strictly nearer. |
| Legacy.Brightness | script.js:383-384 | `b = |dot(normal, normalize(p))|` is non-negative. |
| Legacy.BrightnessAtMostOne | script.js:383-384 | With an exact root, a unit normal and p away from the camera, `b <= 1`. |
| Legacy.Tint | script.js:386-395 | The stored pixel is four bytes with alpha `0xff`. |
| Legacy.Shade | script.js:379-395 | A miss stores nothing. A hit stores the tinted pixel. |
| Legacy.ShadeAtMostColor | script.js:383-395 | No channel is brighter than the surface colour's own byte. |
| Legacy.DimmerAtMost | script.js:387 | Dimming a non-negative channel by `b` in [0, 1] never raises its byte. |
| Legacy.PixelAt | script.js:366-395 | A shaded pixel is four bytes. |
| Legacy.DrawPixel | script.js:391-395 | The pixel's four bytes at `4 (width y + x)` get the shaded value (or stay 0 on a miss); nothing else changes. |
| Legacy.DrawRow | script.js:365-396 | After row y every pixel of rows 0..y holds its shading and later rows are still zero. |
| Legacy.Render | script.js:345-400 | Starting from a zeroed image, every pixel ends up with its shading or stays zero on a miss. |

## Left out

- Trigonometry: `Matrix.yaw`/`pitch`, `Camera.setDirection`/`setRotation`, the camera matrices and the screen distance `dis = halfWidth / tan(fov / 2)`. Rotation is an arbitrary 3x3 matrix and `dis` is a parameter.
- `Tickable.tick`, `Scene.tick`, `Animation.circle`: these depend on wall-clock time and trigonometry.
- Floating point: IEEE rounding, float32 truncation when serialising, and overflow. Numbers are reals. `Uint8ClampedArray` stores are modelled by `Shading.ClampByte`. `Uint32Array` and `Int8Array` stores are modelled by `Buffers.ToUint32` and `Buffers.ToInt8`.
- Division by zero: JavaScript gives Infinity or NaN. `1 / x` is totalised as `Recip` (0 for 0). Two cases are modelled as no hit: the cylinder with `a == 0`, whose quotients fail both range checks; and the legacy sphere with a zero direction, whose NaN root fails `t < result.t`.
- `Number.EPSILON` is the exact constant 2^-52. No claim is made about float precision near the triangle's edges.
- Exactness of `Math.sqrt`: it is a parameter. Properties that need it assume an exact or a non-negative root.
- Workers, `postMessage`, `SharedArrayBuffer` sharing, `bind`, `putImageData` and `ImageData`: these are I/O and concurrency. `Dispatch.Render` returns the effects in order instead.
- public/js/renderer.js: the worker-side renderer is unfinished and inconsistent with the buffer layout (it reads tags at byte 4 and ignores width in its pixel index). public/js/renderer.js is not part of this model.
- public/js/intersect.js and public/js/serialize.js hold stubs. public/js/index.js, public/js/video.js, public/js/scene.js and public/js/drawables.js are event handling, video capture and fixed scene data. None is part of this model.
- js/rays.js, which js/classes.js imports, is not part of this model. The shading loop uses the scans of public/js/rays.js (module `Rays`).
- The surfaces js/classes.js draws: it defines only the base `Surface` (js/classes.js:141-147), and its triangles, spheres and cylinders come from files that are not part of this model. The `Shading` model takes them to be the kinds of public/js/surfaces.js (modules `Surfaces`, `Triangles`, `Spheres`, `Cylinders`).
- The debug cursor branch of js/classes.js:300-309 depends on `document` and a DOM element.
- Object identity: `surface === target` is modelled by the index in drawable-major order.
- `relative` idempotence holds by construction: `relative` is a pure function of the authored surface, so repeating it gives the same snapshot. The cylinder's `relEnd` is not kept in the snapshot; it only feeds `relAxis`.
- The frame counter is an unbounded integer. Only its store in the `Uint32Array` wraps.
- The legacy scene's lights are moved by `relative` but never read by the legacy `render`. They are left out with it.
- The legacy `Vector.inormalize` of the hit point mutates the returned `p`. The model normalises a copy, which is what the brightness reads.

## Findings

| source | as written | input that shows it | evidently intended | confidence | as-written member | corrected member |
|---|---|---|---|---|---|---|
| script.js:198-211 | `containsPoint` tests `u + v < 1` strictly | any non-degenerate triangle's vertex B, at (u, v) = (1, 0); likewise C | the closed triangle, as the later `containsPoint` accepts it (`u + v <= 1 + EPSILON`) | not executed | Legacy.StrictRejectsCorners | Triangles.ContainsVertices |
| script.js:224-253 | the sphere tries only the near root and reports nothing when it is negative | a ray starting inside the sphere: center (0,0,0), r2 = 1, origin (0,0,0), direction (0,0,1) | fall back to the far root, as the later `SphereSurface.rayIntersect` does | not executed | Legacy.SphereMissesFromInside | Spheres.IntersectNearest |

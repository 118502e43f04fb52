/** The three surface kinds of public/js/surfaces.js as one tagged type: what
    the constructors store, the camera-relative snapshot that `relative`
    derives from it, the common `rayIntersect` interface, and the 26-float
    record that `serialize` writes. */
module Surfaces {
  import opened Wrappers
  import opened Vector3
  import opened Matrix
  import opened Hits
  import Triangles
  import Spheres
  import Cylinders

  /** `surfaceType`, the tag stored in the scene buffer. */
  const TriangleType: int := 1
  const SphereType: int := 2
  const CylinderType: int := 3

  /** `FLOATS_PER_SURFACE`: the stride of the float records. */
  const FloatsPerSurface: nat := 26

  /** The authored geometry, as the constructors leave it. */
  datatype Shape =
    | Triangle(a: Vec3, b: Vec3, c: Vec3)
    | Sphere(pos: Vec3, r2: real)
    | Cylinder(pos: Vec3, end: Vec3, r2: real, height: real)

  /** A surface: colour, the `glow` and `noShadow` flags (absent, hence
      false, on triangles and cylinders, whose constructors do not pass them
      on), and its shape. */
  datatype Surface = Surface(color: Vec3, glow: bool, noShadow: bool, shape: Shape)

  /** The camera-relative geometry `relative` derives. */
  datatype Geom =
    | RelTriangle(frame: Triangles.Frame)
    | RelSphere(relPos: Vec3, r2: real)
    | RelCylinder(relPos: Vec3, relAxis: Vec3, r2: real, height: real)

  datatype RelSurface = RelSurface(color: Vec3, glow: bool, noShadow: bool, geom: Geom)

  // ---------------------------------------------------------------------
  // Construction.

  function NewTriangle(color: Vec3, A: Vec3, B: Vec3, C: Vec3): (s: Surface)
    ensures !s.glow && !s.noShadow && TypeOf(s.shape) == TriangleType
  {
    Surface(color, false, false, Triangle(A, B, C))
  }

  function NewSphere(color: Vec3, pos: Vec3, r: real, glow: bool, noShadow: bool): (s: Surface)
    ensures s.glow == glow && s.noShadow == noShadow && TypeOf(s.shape) == SphereType
    ensures s.shape.r2 >= 0.0
  {
    SquareNonNeg(r);
    Surface(color, glow, noShadow, Sphere(pos, r * r))
  }

  /** The cylinder stores its far end and the axis length; the axis itself is
      recovered from the two ends. */
  function NewCylinder(sqrt: SqrtFn, pos: Vec3, axis: Vec3, color: Vec3, r: real): (s: Surface)
    ensures !s.glow && !s.noShadow && TypeOf(s.shape) == CylinderType
    ensures Sub(s.shape.end, s.shape.pos) == axis && s.shape.r2 >= 0.0
  {
    SquareNonNeg(r);
    Surface(color, false, false, Cylinder(pos, Add(pos, axis), r * r, Norm(sqrt, axis)))
  }

  function TypeOf(shape: Shape): (t: int)
    ensures t in {TriangleType, SphereType, CylinderType}
  {
    match shape
    case Triangle(_, _, _) => TriangleType
    case Sphere(_, _) => SphereType
    case Cylinder(_, _, _, _) => CylinderType
  }

  function GeomType(g: Geom): (t: int)
    ensures t in {TriangleType, SphereType, CylinderType}
  {
    match g
    case RelTriangle(_) => TriangleType
    case RelSphere(_, _) => SphereType
    case RelCylinder(_, _, _, _) => CylinderType
  }

  // ---------------------------------------------------------------------
  // `relative`: move to the camera's frame, `inv * (v - pos)`.

  function ToCamera(inv: Mat3, pos: Vec3, v: Vec3): (r: Vec3)
    ensures r == Sub(Apply(inv, v), Apply(inv, pos))
    ensures v == pos ==> r == Zero
  {
    ApplySub(inv, v, pos);
    Apply(inv, Sub(v, pos))
  }

  /** The snapshot `relative(pos, invmatrix)` leaves: it reads only the
      authored fields, so it is a function of them and of its arguments. The
      type, colour and flags carry over. */
  function Relative(sqrt: SqrtFn, s: Surface, pos: Vec3, inv: Mat3): (r: RelSurface)
    ensures r.color == s.color && r.glow == s.glow && r.noShadow == s.noShadow
    ensures GeomType(r.geom) == TypeOf(s.shape)
  {
    var geom := match s.shape
      case Triangle(a, b, c) =>
        RelTriangle(Triangles.Precompute(sqrt, ToCamera(inv, pos, a), ToCamera(inv, pos, b), ToCamera(inv, pos, c)))
      case Sphere(p, r2) =>
        RelSphere(ToCamera(inv, pos, p), r2)
      case Cylinder(p, e, r2, h) =>
        var relPos := ToCamera(inv, pos, p);
        var relEnd := ToCamera(inv, pos, e);
        RelCylinder(relPos, Normalize(sqrt, Sub(relEnd, relPos)), r2, h);
    RelSurface(s.color, s.glow, s.noShadow, geom)
  }

  /** The geometric invariants a snapshot from `relative` keeps (given an
      exact root): a triangle's `negNormal` opposes its normal, and a
      cylinder's axis is a unit vector (or zero, for a zero-length axis). */
  predicate UnitOrZero(v: Vec3) {
    Dot(v, v) == 1.0 || v == Zero
  }

  predicate WellFormed(g: Geom) {
    match g
    case RelTriangle(f) => Add(f.normal, f.negNormal) == Zero
    case RelSphere(_, _) => true
    case RelCylinder(_, axis, _, _) => UnitOrZero(axis)
  }

  lemma NormalizeUnitOrZero(sqrt: SqrtFn, v: Vec3)
    requires ExactSqrt(sqrt)
    ensures UnitOrZero(Normalize(sqrt, v))
  {
    if v != Zero {
      NormalizeUnit(sqrt, v);
    } else {
      assert Normalize(sqrt, v) == Zero;
    }
  }

  lemma RelativeWellFormed(sqrt: SqrtFn, s: Surface, pos: Vec3, inv: Mat3)
    requires ExactSqrt(sqrt)
    ensures WellFormed(Relative(sqrt, s, pos, inv).geom)
  {
    match s.shape
    case Triangle(_, _, _) =>
    case Sphere(_, _) =>
    case Cylinder(p, e, _, _) =>
      NormalizeUnitOrZero(sqrt, Sub(ToCamera(inv, pos, e), ToCamera(inv, pos, p)));
  }

  // ---------------------------------------------------------------------
  // `rayIntersect`, dispatched on the kind.

  function Intersect(sqrt: SqrtFn, g: Geom, o: Vec3, d: Vec3, tMax: Bound, planeOnly: bool): (r: Option<Hit>)
    ensures r.Some? ==> 0.0 <= r.value.t && Below(r.value.t, tMax) && r.value.p == PointAt(o, d, r.value.t)
  {
    match g
    case RelTriangle(f) => Triangles.Intersect(f, o, d, tMax, planeOnly)
    case RelSphere(c, r2) => Spheres.Intersect(sqrt, c, r2, o, d, tMax)
    case RelCylinder(p, axis, r2, h) => Cylinders.Intersect(sqrt, p, axis, r2, h, o, d, tMax)
  }

  /** The property the scans rely on: a bound only discards hits. */
  ghost predicate Monotone(sqrt: SqrtFn, g: Geom) {
    forall o: Vec3, d: Vec3, tMax: Bound, planeOnly: bool ::
      Intersect(sqrt, g, o, d, tMax, planeOnly) == Cut(Intersect(sqrt, g, o, d, Infinity, planeOnly), tMax)
  }

  /** Every well-formed surface is monotone in its bound, given a
      non-negative square root. */
  lemma WellFormedMonotone(sqrt: SqrtFn, g: Geom)
    requires NonNegSqrt(sqrt)
    requires WellFormed(g)
    ensures Monotone(sqrt, g)
  {
    forall o: Vec3, d: Vec3, tMax: Bound, planeOnly: bool
      ensures Intersect(sqrt, g, o, d, tMax, planeOnly) == Cut(Intersect(sqrt, g, o, d, Infinity, planeOnly), tMax)
    {
      match g
      case RelTriangle(f) =>
        Triangles.IntersectMonotone(f, o, d, tMax, planeOnly);
      case RelSphere(c, r2) =>
        Spheres.IntersectMonotone(sqrt, c, r2, o, d, tMax);
      case RelCylinder(p, axis, r2, h) =>
        if axis == Zero {
          assert Cylinders.LeadCoef(axis, d) == Dot(d, d);
          DotSelfNonNeg(d);
        } else {
          Cylinders.LeadCoefNonNeg(axis, d);
        }
        Cylinders.IntersectMonotone(sqrt, p, axis, r2, h, o, d, tMax);
    }
  }

  // ---------------------------------------------------------------------
  // `serialize`: the slot map of a 26-float record.

  function Vertex(f: Triangles.Frame, i: nat): Vec3
    requires i < 3
  {
    if i == 0 then f.a else if i == 1 then f.b else f.c
  }

  /** What slot j of the record holds, or None for a slot the kind leaves
      alone. Triangle: colour 0-2, vertices 3-11, normal 12-14, dTri 15,
      vec1 16-18, vec2 19-21, dot11, dot12, dot22, invDenom 22-25. Sphere:
      colour 0-2, centre 3-5, r2 6. Cylinder: colour 0-2, base 3-5, axis
      6-8, r2 9, height 10. */
  function Slot(s: RelSurface, j: nat): Option<real>
    requires j < FloatsPerSurface
  {
    if j < 3 then Some(At(s.color, j))
    else match s.geom
      case RelTriangle(f) =>
        if j < 12 then Some(At(Vertex(f, (j - 3) / 3), (j - 3) % 3))
        else if j < 15 then Some(At(f.normal, j - 12))
        else if j == 15 then Some(f.dTri)
        else if j < 19 then Some(At(f.vec1, j - 16))
        else if j < 22 then Some(At(f.vec2, j - 19))
        else if j == 22 then Some(f.dot11)
        else if j == 23 then Some(f.dot12)
        else if j == 24 then Some(f.dot22)
        else Some(f.invDenom)
      case RelSphere(c, r2) =>
        if j < 6 then Some(At(c, j - 3))
        else if j == 6 then Some(r2)
        else None
      case RelCylinder(p, axis, r2, h) =>
        if j < 6 then Some(At(p, j - 3))
        else if j < 9 then Some(At(axis, j - 6))
        else if j == 9 then Some(r2)
        else if j == 10 then Some(h)
        else None
  }

  /** The buffer after `serialize(data, offset)`: the record's written slots
      replaced, everything else as it was. */
  function Store(s: RelSurface, data: seq<real>, offset: nat): (out: seq<real>)
    requires offset + FloatsPerSurface <= |data|
    ensures |out| == |data|
    ensures forall k :: 0 <= k < |data| && !(offset <= k < offset + FloatsPerSurface) ==> out[k] == data[k]
  {
    seq(|data|, k requires 0 <= k < |data| =>
      if offset <= k < offset + FloatsPerSurface && Slot(s, k - offset).Some? then Slot(s, k - offset).value
      else data[k])
  }

  /** A buffer agreeing with `Store` at every index is `Store`. */
  lemma StoreExtensional(s: RelSurface, data: seq<real>, offset: nat, out: seq<real>)
    requires offset + FloatsPerSurface <= |data| && |out| == |data|
    requires forall k :: 0 <= k < |data| ==>
      out[k] == if offset <= k < offset + FloatsPerSurface && Slot(s, k - offset).Some?
                then Slot(s, k - offset).value else data[k]
    ensures out == Store(s, data, offset)
  {
  }

  /** Slots a triangle has written after i rounds of its loop. */
  predicate TriangleRounds(j: nat, i: nat) {
    j < i || (3 <= j < 3 + 3 * i) || (12 <= j < 12 + i) || (16 <= j < 16 + i) || (19 <= j < 19 + i)
  }

  /** `TriangleSurface.serialize`: three rounds each writing a colour,
      `vec1` and `vec2` component, a vertex and a normal component, then the
      five scalars. */
  method SerializeTriangle(s: RelSurface, data: seq<real>, offset: nat) returns (out: seq<real>)
    requires s.geom.RelTriangle?
    requires offset + FloatsPerSurface <= |data|
    ensures out == Store(s, data, offset)
  {
    var f := s.geom.frame;
    out := data;
    for i := 0 to 3
      invariant |out| == |data|
      invariant forall k :: 0 <= k < |data| ==>
        out[k] == if offset <= k < offset + FloatsPerSurface && TriangleRounds(k - offset, i)
                  then Slot(s, k - offset).value else data[k]
    {
      out := out[offset + 0 + i := At(s.color, i)];
      out := out[offset + 16 + i := At(f.vec1, i)];
      out := out[offset + 19 + i := At(f.vec2, i)];
      for j := 0 to 3
        invariant |out| == |data|
        invariant forall k :: 0 <= k < |data| ==>
          out[k] == if offset <= k < offset + FloatsPerSurface &&
                       (TriangleRounds(k - offset, i) || k - offset in {i, 16 + i, 19 + i} ||
                        3 + 3 * i <= k - offset < 3 + 3 * i + j)
                    then Slot(s, k - offset).value else data[k]
      {
        assert Slot(s, 3 + 3 * i + j) == Some(At(Vertex(f, i), j));
        out := out[offset + 3 + 3 * i + j := At(Vertex(f, i), j)];
      }
      out := out[offset + 12 + i := At(f.normal, i)];
    }
    out := out[offset + 15 := f.dTri];
    out := out[offset + 22 := f.dot11];
    out := out[offset + 23 := f.dot12];
    out := out[offset + 24 := f.dot22];
    out := out[offset + 25 := f.invDenom];
    StoreExtensional(s, data, offset, out);
  }

  /** `SphereSurface.serialize`. */
  method SerializeSphere(s: RelSurface, data: seq<real>, offset: nat) returns (out: seq<real>)
    requires s.geom.RelSphere?
    requires offset + FloatsPerSurface <= |data|
    ensures out == Store(s, data, offset)
  {
    out := data;
    for i := 0 to 3
      invariant |out| == |data|
      invariant forall k :: 0 <= k < |data| ==>
        out[k] == if offset <= k < offset + FloatsPerSurface && (k - offset < i || 3 <= k - offset < 3 + i)
                  then Slot(s, k - offset).value else data[k]
    {
      out := out[offset + 0 + i := At(s.color, i)];
      out := out[offset + 3 + i := At(s.geom.relPos, i)];
    }
    out := out[offset + 6 := s.geom.r2];
    StoreExtensional(s, data, offset, out);
  }

  /** `CylinderSurface.serialize`. */
  method SerializeCylinder(s: RelSurface, data: seq<real>, offset: nat) returns (out: seq<real>)
    requires s.geom.RelCylinder?
    requires offset + FloatsPerSurface <= |data|
    ensures out == Store(s, data, offset)
  {
    out := data;
    for i := 0 to 3
      invariant |out| == |data|
      invariant forall k :: 0 <= k < |data| ==>
        out[k] == if offset <= k < offset + FloatsPerSurface &&
                     (k - offset < i || 3 <= k - offset < 3 + i || 6 <= k - offset < 6 + i)
                  then Slot(s, k - offset).value else data[k]
    {
      out := out[offset + 0 + i := At(s.color, i)];
      out := out[offset + 3 + i := At(s.geom.relPos, i)];
      out := out[offset + 6 + i := At(s.geom.relAxis, i)];
    }
    out := out[offset + 9 := s.geom.r2];
    out := out[offset + 10 := s.geom.height];
    StoreExtensional(s, data, offset, out);
  }

  /** `surface.serialize(data, offset)`, dispatched on the kind. */
  method Serialize(s: RelSurface, data: seq<real>, offset: nat) returns (out: seq<real>)
    requires offset + FloatsPerSurface <= |data|
    ensures out == Store(s, data, offset)
  {
    match s.geom
    case RelTriangle(_) => out := SerializeTriangle(s, data, offset);
    case RelSphere(_, _) => out := SerializeSphere(s, data, offset);
    case RelCylinder(_, _, _, _) => out := SerializeCylinder(s, data, offset);
  }

  /** A triangle writes every slot of its record; a sphere exactly slots
      0-6 and a cylinder exactly slots 0-10. */
  lemma SlotsWritten(s: RelSurface, j: nat)
    requires j < FloatsPerSurface
    ensures Slot(s, j).Some? <==>
      match s.geom
      case RelTriangle(_) => true
      case RelSphere(_, _) => j <= 6
      case RelCylinder(_, _, _, _) => j <= 10
  {
  }

  // ---------------------------------------------------------------------
  // Reading a record back: the inverse of `serialize`.

  function ReadVec(data: seq<real>, k: nat): Vec3
    requires k + 3 <= |data|
  {
    Vec3(data[k], data[k + 1], data[k + 2])
  }

  /** The colour and geometry a reader recovers from the tag and the record
      at `offset`; unknown tags yield nothing. */
  function Decode(tag: int, data: seq<real>, offset: nat): (r: Option<(Vec3, Geom)>)
    requires offset + FloatsPerSurface <= |data|
    ensures r.Some? <==> tag in {TriangleType, SphereType, CylinderType}
    ensures r.Some? ==> GeomType(r.value.1) == tag
  {
    var color := ReadVec(data, offset);
    if tag == TriangleType then
      var normal := ReadVec(data, offset + 12);
      Some((color, RelTriangle(Triangles.Frame(
        ReadVec(data, offset + 3), ReadVec(data, offset + 6), ReadVec(data, offset + 9),
        ReadVec(data, offset + 16), ReadVec(data, offset + 19),
        normal, Scale(normal, -1.0), data[offset + 15],
        data[offset + 22], data[offset + 23], data[offset + 24], data[offset + 25]))))
    else if tag == SphereType then
      Some((color, RelSphere(ReadVec(data, offset + 3), data[offset + 6])))
    else if tag == CylinderType then
      Some((color, RelCylinder(ReadVec(data, offset + 3), ReadVec(data, offset + 6),
                               data[offset + 9], data[offset + 10])))
    else None
  }

  /** Decoding a serialized record gives back the colour and geometry (for a
      triangle, whenever `negNormal` opposes the normal), whatever the buffer
      held before. */
  lemma DecodeStore(s: RelSurface, data: seq<real>, offset: nat)
    requires offset + FloatsPerSurface <= |data|
    requires WellFormed(s.geom)
    ensures Decode(GeomType(s.geom), Store(s, data, offset), offset) == Some((s.color, s.geom))
  {
    var out := Store(s, data, offset);
    assert ReadVec(out, offset) == s.color by { SlotsAt(s, data, offset, 0); }
    match s.geom
    case RelTriangle(f) => DecodeTriangle(s, data, offset);
    case RelSphere(c, r2) =>
      assert ReadVec(out, offset + 3) == c by { SlotsAt(s, data, offset, 3); }
      assert out[offset + 6] == r2 by { assert Slot(s, 6) == Some(r2); }
    case RelCylinder(p, axis, r2, h) =>
      assert ReadVec(out, offset + 3) == p by { SlotsAt(s, data, offset, 3); }
      assert ReadVec(out, offset + 6) == axis by { SlotsAt(s, data, offset, 6); }
      assert out[offset + 9] == r2 by { assert Slot(s, 9) == Some(r2); }
      assert out[offset + 10] == h by { assert Slot(s, 10) == Some(h); }
  }

  lemma DecodeTriangle(s: RelSurface, data: seq<real>, offset: nat)
    requires offset + FloatsPerSurface <= |data|
    requires s.geom.RelTriangle? && WellFormed(s.geom)
    requires ReadVec(Store(s, data, offset), offset) == s.color
    ensures Decode(TriangleType, Store(s, data, offset), offset) == Some((s.color, s.geom))
  {
    var out := Store(s, data, offset);
    var f := s.geom.frame;
    assert ReadVec(out, offset + 3) == f.a by { SlotsAt(s, data, offset, 3); }
    assert ReadVec(out, offset + 6) == f.b by { SlotsAt(s, data, offset, 6); }
    assert ReadVec(out, offset + 9) == f.c by { SlotsAt(s, data, offset, 9); }
    assert ReadVec(out, offset + 12) == f.normal by { SlotsAt(s, data, offset, 12); }
    assert ReadVec(out, offset + 16) == f.vec1 by { SlotsAt(s, data, offset, 16); }
    assert ReadVec(out, offset + 19) == f.vec2 by { SlotsAt(s, data, offset, 19); }
    assert Scale(f.normal, -1.0) == f.negNormal;
    assert out[offset + 15] == f.dTri by { assert Slot(s, 15) == Some(f.dTri); }
    assert out[offset + 22] == f.dot11 by { assert Slot(s, 22) == Some(f.dot11); }
    assert out[offset + 23] == f.dot12 by { assert Slot(s, 23) == Some(f.dot12); }
    assert out[offset + 24] == f.dot22 by { assert Slot(s, 24) == Some(f.dot22); }
    assert out[offset + 25] == f.invDenom by { assert Slot(s, 25) == Some(f.invDenom); }
  }

  lemma SlotsAt(s: RelSurface, data: seq<real>, offset: nat, j: nat)
    requires offset + FloatsPerSurface <= |data| && j + 3 <= FloatsPerSurface
    requires Slot(s, j).Some? && Slot(s, j + 1).Some? && Slot(s, j + 2).Some?
    ensures ReadVec(Store(s, data, offset), offset + j) ==
      Vec3(Slot(s, j).value, Slot(s, j + 1).value, Slot(s, j + 2).value)
  {
  }
}

/** The shared buffers the main thread fills for the render workers
    (`Scene.preallocDrawables`, `serializeDrawables`, `preallocLights` and
    `serializeLights` in public/js/classes.js).

    The surfaces buffer is laid out, in bytes, as a 4-byte header whose
    first `Uint32` holds the surface count N, 1 to 4 bytes of padding, N
    one-byte type tags, and N records of 26 float32 values. The lights
    buffer holds 6 floats per light. Buffers are modelled as the typed views
    the source writes through; float32 rounding is not modelled. */
module Buffers {
  import opened Wrappers
  import opened Vector3
  import opened Surfaces
  import opened Scenes
  import opened Matrix

  const MetaBytes: nat := 4
  const FloatBytes: nat := 4

  /** One tag byte and a record of float32 values per surface. */
  const BytesPerSurface: nat := 1 + FloatBytes * FloatsPerSurface

  /** Relative position then colour. */
  const FloatsPerLight: nat := 6

  const Uint32Modulus: int := 0x1_0000_0000

  /** The value a `Uint32Array` element keeps of an integer. */
  function ToUint32(x: int): (r: int)
    ensures 0 <= r < Uint32Modulus
    ensures 0 <= x < Uint32Modulus ==> r == x
    ensures (x - r) % Uint32Modulus == 0
  {
    x % Uint32Modulus
  }

  /** The value an `Int8Array` element keeps of an integer. */
  function ToInt8(x: int): (r: int)
    ensures -128 <= r < 128
    ensures -128 <= x < 128 ==> r == x
    ensures (x - r) % 256 == 0
  {
    (x + 128) % 256 - 128
  }

  /** `new T(buffer, byteOffset)` for a typed array T of `elementSize`-byte
      elements, as InitializeTypedArrayFromArrayBuffer in ECMA-262 specifies
      it: a misaligned offset, a buffer that is not a whole number of
      elements long, or an offset past the end throws a RangeError;
      otherwise the view has one element per `elementSize` bytes from the
      offset to the end. */
  function View(byteLength: nat, byteOffset: nat, elementSize: nat): (r: Result<nat>)
    requires elementSize in {1, 2, 4, 8}
    ensures r.Ok? <==> byteOffset % elementSize == 0 && byteLength % elementSize == 0 && byteOffset <= byteLength
    ensures r.Ok? ==> byteOffset + r.value * elementSize == byteLength
  {
    if byteOffset % elementSize != 0 then Err("RangeError")
    else if byteLength % elementSize != 0 then Err("RangeError")
    else if byteLength < byteOffset then Err("RangeError")
    else
      WholeElements(byteLength, byteOffset, elementSize);
      Ok((byteLength - byteOffset) / elementSize)
  }

  lemma WholeElements(byteLength: nat, byteOffset: nat, elementSize: nat)
    requires elementSize in {1, 2, 4, 8} && byteOffset <= byteLength
    requires byteOffset % elementSize == 0 && byteLength % elementSize == 0
    ensures (byteLength - byteOffset) % elementSize == 0
    ensures byteOffset + (byteLength - byteOffset) / elementSize * elementSize == byteLength
  {
    if elementSize == 1 {
    } else if elementSize == 2 {
      WholeMultiples2(byteLength, byteOffset);
    } else if elementSize == 4 {
      WholeMultiples4(byteLength, byteOffset);
    } else {
      WholeMultiples8(byteLength, byteOffset);
    }
  }

  lemma WholeMultiples2(a: nat, b: nat)
    requires b <= a && a % 2 == 0 && b % 2 == 0
    ensures (a - b) % 2 == 0 && b + (a - b) / 2 * 2 == a
  {
    assert a == 2 * (a / 2) && b == 2 * (b / 2);
    assert a - b == 2 * (a / 2 - b / 2);
  }

  lemma WholeMultiples4(a: nat, b: nat)
    requires b <= a && a % 4 == 0 && b % 4 == 0
    ensures (a - b) % 4 == 0 && b + (a - b) / 4 * 4 == a
  {
    assert a == 4 * (a / 4) && b == 4 * (b / 4);
    assert a - b == 4 * (a / 4 - b / 4);
  }

  lemma WholeMultiples8(a: nat, b: nat)
    requires b <= a && a % 8 == 0 && b % 8 == 0
    ensures (a - b) % 8 == 0 && b + (a - b) / 8 * 8 == a
  {
    assert a == 8 * (a / 8) && b == 8 * (b / 8);
    assert a - b == 8 * (a / 8 - b / 8);
  }

  // ---------------------------------------------------------------------
  // The surfaces buffer.

  /** `4 - N % 4`: never zero, so the tags never start at byte 4. */
  function Padding(n: nat): (p: nat)
    ensures 1 <= p <= 4
    ensures (n + p) % 4 == 0
  {
    4 - n % 4
  }

  /** Where the tags start: after the header and the padding. */
  function TagsOffset(n: nat): nat {
    MetaBytes + Padding(n)
  }

  /** `surfacesOffset`: where the float records start, right after the
      tags. */
  function FloatsOffset(n: nat): nat {
    TagsOffset(n) + n
  }

  function SurfacesByteLength(n: nat): nat {
    MetaBytes + Padding(n) + BytesPerSurface * n
  }

  /** The layout is aligned for every N: the header word, the tags and the
      float records follow one another without overlap, the float region
      starts on a 4-byte boundary, and the buffer length is a multiple of 4,
      so each of the three views can be built and the float view holds
      exactly 26 floats per surface. */
  lemma LayoutAligned(n: nat)
    ensures MetaBytes < TagsOffset(n) && TagsOffset(n) + n == FloatsOffset(n)
    ensures FloatsOffset(n) % 4 == 0 && SurfacesByteLength(n) % 4 == 0
    ensures FloatsOffset(n) + FloatBytes * FloatsPerSurface * n == SurfacesByteLength(n)
    ensures View(SurfacesByteLength(n), 0, 4) == Ok(SurfacesByteLength(n) / 4)
    ensures View(SurfacesByteLength(n), TagsOffset(n), 1).Ok?
    ensures n <= View(SurfacesByteLength(n), TagsOffset(n), 1).value
    ensures View(SurfacesByteLength(n), FloatsOffset(n), 4) == Ok(FloatsPerSurface * n)
  {
    var len := SurfacesByteLength(n);
    assert len == FloatsOffset(n) + 4 * (FloatsPerSurface * n);
    assert FloatsOffset(n) == n + Padding(n) + 4;
    var v := View(len, FloatsOffset(n), 4);
    assert v.Ok?;
    assert FloatsOffset(n) + v.value * 4 == len;
  }

  /** The state `preallocDrawables` leaves: the buffer length, the byte
      offsets of the tags and of the float records, the header word and the
      tags written. */
  datatype Prealloc = Prealloc(byteLength: nat, tagsOffset: nat, offset: nat, meta0: int, tags: seq<int>)

  /** `preallocDrawables`: count the surfaces, size the buffer, build the
      tag and header views (which never throw, by `LayoutAligned`) and
      write one tag per surface in scan order. */
  method PreallocDrawables(drawables: seq<Drawable>) returns (r: Prealloc)
    ensures var surfaces := Flatten(Groups(drawables));
      && r.meta0 == ToUint32(|surfaces|)
      && |r.tags| == |surfaces|
      && (forall i :: 0 <= i < |surfaces| ==> r.tags[i] == TypeOf(surfaces[i].shape))
    ensures var n := |Flatten(Groups(drawables))|;
      && MetaBytes < r.tagsOffset && r.tagsOffset + n == r.offset
      && r.offset % 4 == 0 && r.byteLength % 4 == 0
      && View(r.byteLength, r.offset, 4) == Ok(FloatsPerSurface * n)
    ensures var n := |Flatten(Groups(drawables))|;
      && r.byteLength == SurfacesByteLength(n)
      && r.tagsOffset == TagsOffset(n)
      && r.offset == FloatsOffset(n)
  {
    var groups := Groups(drawables);
    var n := 0;
    var d := 0;
    while d < |drawables|
      invariant 0 <= d <= |drawables|
      invariant n == Start(groups, d)
    {
      FlattenSnoc(groups, d);
      n := n + |drawables[d].surfaces|;
      d := d + 1;
    }
    assert groups[..|groups|] == groups;
    ghost var surfaces := Flatten(groups);
    assert n == |surfaces|;

    var padding := 4 - n % 4;
    var byteLength := 4 + padding + BytesPerSurface * n;
    LayoutAligned(n);
    var types := View(byteLength, 4 + padding, 1).value;
    var meta := View(byteLength, 0, 4).value;
    var offset := 4 + padding + n;
    var meta0 := ToUint32(n);

    var tags := seq(n, _ => 0);
    var i := 0;
    d := 0;
    while d < |drawables|
      invariant 0 <= d <= |drawables|
      invariant i == Start(groups, d) <= n
      invariant |tags| == n
      invariant forall j :: 0 <= j < i ==> tags[j] == TypeOf(surfaces[j].shape)
    {
      var group := drawables[d].surfaces;
      var s := 0;
      while s < |group|
        invariant 0 <= s <= |group|
        invariant i == Start(groups, d) + s <= n
        invariant |tags| == n
        invariant forall j :: 0 <= j < i ==> tags[j] == TypeOf(surfaces[j].shape)
      {
        FlattenIndex(groups, d, s);
        tags := tags[i := ToInt8(TypeOf(group[s].shape))];
        i := i + 1;
        s := s + 1;
      }
      FlattenSnoc(groups, d);
      d := d + 1;
    }
    r := Prealloc(byteLength, 4 + padding, offset, meta0, tags);
  }

  /** Float c of the records after surface k = c / 26 has been serialized
      into `data`: the slot of that surface's record, or what was there if
      the surface's kind leaves the slot alone. */
  function Cell(surfaces: seq<RelSurface>, data: seq<real>, c: nat): real
    requires c < |data| && c / FloatsPerSurface < |surfaces|
  {
    var slot := Slot(surfaces[c / FloatsPerSurface], c % FloatsPerSurface);
    if slot.Some? then slot.value else data[c]
  }

  /** `serializeDrawables`: surface k, in scan order, serializes its record
      at float `26 * k` of the float view. Every float belongs to the
      record of exactly one surface, and each record decodes back to its
      surface under that surface's tag. */
  method SerializeDrawables(groups: seq<seq<RelSurface>>, data: seq<real>) returns (out: seq<real>)
    requires |data| == FloatsPerSurface * |Flatten(groups)|
    ensures |out| == |data|
    ensures forall c :: 0 <= c < |out| ==> out[c] == Cell(Flatten(groups), data, c)
    ensures forall k :: 0 <= k < |Flatten(groups)| && WellFormed(Flatten(groups)[k].geom) ==>
      Decode(GeomType(Flatten(groups)[k].geom), out, FloatsPerSurface * k)
        == Some((Flatten(groups)[k].color, Flatten(groups)[k].geom))
  {
    ghost var surfaces := Flatten(groups);
    out := data;
    var o := 0;
    ghost var k := 0;
    var d := 0;
    while d < |groups|
      invariant 0 <= d <= |groups|
      invariant k == Start(groups, d) <= |surfaces|
      invariant o == FloatsPerSurface * k
      invariant |out| == |data|
      invariant forall c :: 0 <= c < |out| ==> out[c] == if c < o then Cell(surfaces, data, c) else data[c]
    {
      var group := groups[d];
      var s := 0;
      while s < |group|
        invariant 0 <= s <= |group|
        invariant k == Start(groups, d) + s <= |surfaces|
        invariant o == FloatsPerSurface * k
        invariant |out| == |data|
        invariant forall c :: 0 <= c < |out| ==> out[c] == if c < o then Cell(surfaces, data, c) else data[c]
      {
        FlattenIndex(groups, d, s);
        ghost var before := out;
        out := Serialize(group[s], out, o);
        StoreCells(surfaces, data, before, out, k);
        o := o + FloatsPerSurface;
        k := k + 1;
        s := s + 1;
      }
      FlattenSnoc(groups, d);
      d := d + 1;
    }
    assert groups[..|groups|] == groups;
    forall k | 0 <= k < |surfaces| && WellFormed(surfaces[k].geom)
      ensures Decode(GeomType(surfaces[k].geom), out, FloatsPerSurface * k) == Some((surfaces[k].color, surfaces[k].geom))
    {
      RecordDecodes(surfaces, data, out, k);
    }
  }

  /** Storing record k extends the serialized prefix by one record. */
  lemma StoreCells(surfaces: seq<RelSurface>, data: seq<real>, before: seq<real>, after: seq<real>, k: nat)
    requires k < |surfaces| && |data| == FloatsPerSurface * |surfaces| && |before| == |data|
    requires forall c :: 0 <= c < |before| ==> before[c] == if c < FloatsPerSurface * k then Cell(surfaces, data, c) else data[c]
    requires after == Store(surfaces[k], before, FloatsPerSurface * k)
    ensures |after| == |data|
    ensures forall c :: 0 <= c < |after| ==> after[c] == if c < FloatsPerSurface * (k + 1) then Cell(surfaces, data, c) else data[c]
  {
    var o := FloatsPerSurface * k;
    forall c | 0 <= c < |after|
      ensures after[c] == if c < FloatsPerSurface * (k + 1) then Cell(surfaces, data, c) else data[c]
    {
      if o <= c < o + FloatsPerSurface {
        assert c / FloatsPerSurface == k && c % FloatsPerSurface == c - o by {
          assert c == FloatsPerSurface * k + (c - o);
        }
      }
    }
  }

  /** Record k of fully serialized records decodes to surface k. */
  lemma RecordDecodes(surfaces: seq<RelSurface>, data: seq<real>, out: seq<real>, k: nat)
    requires k < |surfaces| && |data| == FloatsPerSurface * |surfaces| && |out| == |data|
    requires forall c :: 0 <= c < |out| ==> out[c] == Cell(surfaces, data, c)
    requires WellFormed(surfaces[k].geom)
    ensures Decode(GeomType(surfaces[k].geom), out, FloatsPerSurface * k) == Some((surfaces[k].color, surfaces[k].geom))
  {
    var o := FloatsPerSurface * k;
    var stored := Store(surfaces[k], data, o);
    forall c | o <= c < o + FloatsPerSurface
      ensures out[c] == stored[c]
    {
      assert c / FloatsPerSurface == k && c % FloatsPerSurface == c - o by {
        assert c == FloatsPerSurface * k + (c - o);
      }
    }
    DecodeStore(surfaces[k], data, o);
    DecodeLocal(GeomType(surfaces[k].geom), stored, out, o);
  }

  /** Decoding reads only the record at the offset. */
  lemma DecodeLocal(tag: int, a: seq<real>, b: seq<real>, offset: nat)
    requires offset + FloatsPerSurface <= |a| && offset + FloatsPerSurface <= |b|
    requires forall c :: offset <= c < offset + FloatsPerSurface ==> a[c] == b[c]
    ensures Decode(tag, a, offset) == Decode(tag, b, offset)
  {
    assert ReadVec(a, offset) == ReadVec(b, offset);
  }

  /** The tags written from the authored scene line up with the records
      written from its snapshot: surface i of both has the same kind. */
  lemma TagsMatchRecords(sqrt: SqrtFn, scene: Scene, cam: Vec3, inv: Mat3)
    ensures var rel := RelSurfaces(SceneRelative(sqrt, scene, cam, inv));
      && |rel| == |AllSurfaces(scene)|
      && forall i :: 0 <= i < |rel| ==> GeomType(rel[i].geom) == TypeOf(AllSurfaces(scene)[i].shape)
  {
    var r := SceneRelative(sqrt, scene, cam, inv);
    var groups: seq<seq<Surface>> := Groups(scene.drawables);
    var kinds: seq<seq<int>> := seq(|groups|, (g: int) requires 0 <= g < |groups| =>
      seq(|groups[g]|, (s: int) requires 0 <= s < |groups[g]| => TypeOf(groups[g][s].shape)));
    FlattenMap(groups, kinds, (x: Surface) => TypeOf(x.shape));
    FlattenMap(r.surfaces, kinds, (x: RelSurface) => GeomType(x.geom));
  }

  // ---------------------------------------------------------------------
  // The lights buffer.

  /** `preallocLights`: 4 bytes for each of 6 floats per light. */
  function LightsByteLength(count: nat): (len: nat)
    ensures View(len, 0, 4) == Ok(FloatsPerLight * count)
  {
    FloatBytes * FloatsPerLight * count
  }

  /** The light whose six floats start at `6 * i`. */
  function ReadLight(data: seq<real>, i: nat): RelLight
    requires FloatsPerLight * i + FloatsPerLight <= |data|
  {
    RelLight(ReadVec(data, FloatsPerLight * i), ReadVec(data, FloatsPerLight * i + 3))
  }

  /** What a reader recovers from a lights buffer, one light per six
      floats. */
  function DecodeLights(data: seq<real>): (lights: seq<RelLight>)
    requires |data| % FloatsPerLight == 0
    ensures FloatsPerLight * |lights| == |data|
    ensures forall i :: 0 <= i < |lights| ==> lights[i] == ReadLight(data, i)
  {
    var count := |data| / FloatsPerLight;
    seq(count, i requires 0 <= i < count => ReadLight(data, i))
  }

  /** `serializeLights`: light i's relative position at floats `6i .. 6i+2`
      and its colour at `6i+3 .. 6i+5`; decoding the result gives the
      lights back, whatever the buffer held before. */
  method SerializeLights(lights: seq<RelLight>, data: seq<real>) returns (out: seq<real>)
    requires |data| == FloatsPerLight * |lights|
    ensures |out| == |data|
    ensures DecodeLights(out) == lights
  {
    out := data;
    var i := 0;
    while i < |lights|
      invariant 0 <= i <= |lights|
      invariant |out| == |data|
      invariant forall j :: 0 <= j < i ==> ReadLight(out, j) == lights[j]
    {
      var light := lights[i];
      var offset := i * 6;
      ghost var before := out;
      out := out[offset := light.relPos.x][offset + 1 := light.relPos.y][offset + 2 := light.relPos.z];
      out := out[offset + 3 := light.color.x][offset + 4 := light.color.y][offset + 5 := light.color.z];
      forall j | 0 <= j < i
        ensures ReadLight(out, j) == lights[j]
      {
        assert ReadLight(out, j) == ReadLight(before, j);
      }
      i := i + 1;
    }
  }
}

/** The single-threaded renderer `Camera.render` of js/classes.js: one
    primary ray per pixel, row by row, and the shading rule applied to the
    surface it reaches. Pixels are written into the canvas's
    `Uint8ClampedArray`, four bytes (R, G, B, A) per pixel.

    The module js/classes.js imports its scans from a js/rays.js that is
    not part of this model; they are taken to be those of public/js/rays.js
    (module Rays). */
module Shading {
  import opened Wrappers
  import opened Vector3
  import opened Hits
  import opened Surfaces
  import opened Scenes
  import opened Rays
  import opened Arith

  const ByteMax: int := 0xff

  /** The byte a `Uint8ClampedArray` keeps of a number (ToUint8Clamp in
      ECMA-262): 0 at or below 0, 255 at or above 255, otherwise the nearest
      integer with ties going to the even one. */
  function ClampByte(x: real): (b: int)
    ensures 0 <= b <= ByteMax
    ensures x <= 0.0 ==> b == 0
    ensures x >= 255.0 ==> b == ByteMax
    ensures 0.0 < x < 255.0 ==> -0.5 <= b as real - x <= 0.5
  {
    if x <= 0.0 then 0
    else if x >= 255.0 then ByteMax
    else
      var f := x.Floor;
      if f as real + 0.5 < x then f + 1
      else if x < f as real + 0.5 then f
      else if f % 2 == 1 then f + 1
      else f
  }

  /** Clamping never reverses the order of two numbers. */
  lemma ClampByteMonotone(x: real, y: real)
    requires x <= y
    ensures ClampByte(x) <= ClampByte(y)
  {
    if 0.0 < x && y < 255.0 && x.Floor < y.Floor {
      assert ClampByte(x) <= x.Floor + 1 <= y.Floor <= ClampByte(y);
    }
  }

  /** A byte is stored unchanged. */
  lemma ClampByteKeepsBytes(n: int)
    requires 0 <= n <= ByteMax
    ensures ClampByte(n as real) == n
  {
    if 0 < n < ByteMax {
      assert (n as real).Floor == n;
    }
  }

  /** The four bytes of a pixel. */
  predicate IsPixel(px: seq<int>) {
    |px| == 4 && forall c :: 0 <= c < 4 ==> 0 <= px[c] <= ByteMax
  }

  /** The reset every pixel gets before shading: black, fully opaque. */
  const Black: seq<int> := [0, 0, 0, ByteMax]

  /** The primary ray's direction through pixel (x, y): from the camera at
      the origin towards the screen point `(x - width/2, height/2 - y, dis)`,
      normalized. */
  function PrimaryDirection(sqrt: SqrtFn, width: nat, height: nat, dis: real, x: nat, y: nat): Vec3 {
    Normalize(sqrt, Vec3(x as real - width as real / 2.0, height as real / 2.0 - y as real, dis))
  }

  /** With an exact root, the primary ray through a pixel is a unit vector
      pointing at the screen point, unless the screen point is the origin. */
  lemma PrimaryDirectionUnit(sqrt: SqrtFn, width: nat, height: nat, dis: real, x: nat, y: nat)
    requires ExactSqrt(sqrt)
    ensures var screen := Vec3(x as real - width as real / 2.0, height as real / 2.0 - y as real, dis);
      var d := PrimaryDirection(sqrt, width, height, dis, x, y);
      screen != Zero ==> Dot(d, d) == 1.0 && Dot(d, screen) > 0.0
  {
    var screen := Vec3(x as real - width as real / 2.0, height as real / 2.0 - y as real, dis);
    if screen != Zero {
      NormalizeUnit(sqrt, screen);
      NormalizePositiveMultiple(sqrt, screen);
    }
  }

  /** The factor `b = -0xff * dot / norm**2` light `light` contributes to
      the hit `h` of surface `target`, or None when the light is skipped:
      when `firstHitIs` fails along the ray from the light to the hit point,
      or when the normal faces away from the light (`dot > 0`). */
  function LightFactor(sqrt: SqrtFn, ss: seq<RelSurface>, target: nat, h: Hit, light: RelLight): (b: Option<real>)
    requires target < |ss|
    ensures b.Some? ==> b.value >= 0.0
    ensures b.Some? ==> FirstHit(sqrt, ss, light.relPos, Incoming(sqrt, h, light), target)
    ensures !FirstHit(sqrt, ss, light.relPos, Incoming(sqrt, h, light), target) ==> b.None?
    ensures Dot(h.normal, Incoming(sqrt, h, light)) > 0.0 ==> b.None?
  {
    var incoming := Incoming(sqrt, h, light);
    var norm := Norm(sqrt, Sub(h.p, light.relPos));
    if !FirstHit(sqrt, ss, light.relPos, incoming, target) then None
    else
      var dot := Dot(h.normal, incoming);
      if dot > 0.0 then None
      else
        Some(Brightness(dot, norm))
  }

  /** `-0xff * dot / norm**2`: the inverse-square brightness of a light at
      distance `norm` whose direction makes the given dot product with the
      normal; not negative when the normal faces the light. */
  function Brightness(dot: real, norm: real): (b: real)
    ensures dot <= 0.0 ==> b >= 0.0
  {
    SquareNonNeg(norm);
    -255.0 * dot * Recip(norm * norm)
  }

  /** The factor in the terms the loop computes it. */
  lemma LightFactorIs(sqrt: SqrtFn, ss: seq<RelSurface>, target: nat, h: Hit, light: RelLight, norm: real, incoming: Vec3)
    requires target < |ss|
    requires norm == Norm(sqrt, Sub(h.p, light.relPos)) && incoming == Incoming(sqrt, h, light)
    ensures LightFactor(sqrt, ss, target, h, light) ==
      if FirstHit(sqrt, ss, light.relPos, incoming, target) && Dot(h.normal, incoming) <= 0.0
      then Some(Brightness(Dot(h.normal, incoming), norm)) else None
  {
    var f := LightFactor(sqrt, ss, target, h, light);
    if FirstHit(sqrt, ss, light.relPos, incoming, target) && Dot(h.normal, incoming) <= 0.0 {
      assert f.Some?;
      assert f.value == Brightness(Dot(h.normal, incoming), norm);
    }
  }

  /** The direction from the light to the hit point, `p - light.relPos`
      scaled by `1 / norm`. */
  function Incoming(sqrt: SqrtFn, h: Hit, light: RelLight): Vec3 {
    var offset := Sub(h.p, light.relPos);
    Scale(offset, Recip(Norm(sqrt, offset)))
  }

  /** The incoming direction is `p - light.relPos` normalized: with an exact
      root and a light away from the hit point it is a unit vector pointing
      from the light to the point. */
  lemma IncomingUnit(sqrt: SqrtFn, h: Hit, light: RelLight)
    requires ExactSqrt(sqrt)
    ensures Incoming(sqrt, h, light) == Normalize(sqrt, Sub(h.p, light.relPos))
    ensures h.p != light.relPos ==>
      var d := Incoming(sqrt, h, light);
      Dot(d, d) == 1.0 && Dot(d, Sub(h.p, light.relPos)) > 0.0
  {
    var offset := Sub(h.p, light.relPos);
    if h.p != light.relPos {
      assert offset != Zero;
      NormalizeUnit(sqrt, offset);
      NormalizePositiveMultiple(sqrt, offset);
    }
  }

  /** `data[index + i] += color[i] * b * lightColor[i]` for the three
      colour channels; each sum is clamped as it is stored. */
  function AddLight(px: seq<int>, color: Vec3, b: real, lightColor: Vec3): (r: seq<int>)
    requires IsPixel(px)
    ensures IsPixel(r) && r[3] == px[3]
  {
    [ClampByte(px[0] as real + color.x * b * lightColor.x),
     ClampByte(px[1] as real + color.y * b * lightColor.y),
     ClampByte(px[2] as real + color.z * b * lightColor.z),
     px[3]]
  }

  /** Adding a non-negative amount to a stored byte never lowers it. */
  lemma AddNeverDarkens(p: int, gain: real)
    requires 0 <= p <= ByteMax && gain >= 0.0
    ensures p <= ClampByte(p as real + gain)
  {
    ClampByteMonotone(p as real, p as real + gain);
    ClampByteKeepsBytes(p);
  }

  lemma ProductNonNeg(a: real, b: real, c: real)
    requires a >= 0.0 && b >= 0.0 && c >= 0.0
    ensures a * b * c >= 0.0
  {
    assert a * b >= 0.0;
  }

  /** The pixel of a non-glowing hit after the first n lights. */
  function Lit(sqrt: SqrtFn, ss: seq<RelSurface>, target: nat, h: Hit, lights: seq<RelLight>, n: nat): (px: seq<int>)
    requires target < |ss| && n <= |lights|
    ensures IsPixel(px) && px[3] == ByteMax
  {
    if n == 0 then Black
    else
      var prev := Lit(sqrt, ss, target, h, lights, n - 1);
      match LightFactor(sqrt, ss, target, h, lights[n - 1])
      case None => prev
      case Some(b) => AddLight(prev, ss[target].color, b, lights[n - 1].color)
  }

  /** The shading rule: black where the ray hits nothing; the surface
      colour scaled to bytes on a glowing surface, whatever the lights;
      otherwise the lights' contributions on black. */
  function Shade(sqrt: SqrtFn, ss: seq<RelSurface>, lights: seq<RelLight>, nearest: Nearest): (px: seq<int>)
    requires nearest.HitAt? ==> nearest.index < |ss|
    ensures IsPixel(px) && px[3] == ByteMax
    ensures nearest.NoHit? ==> px == Black
    ensures nearest.HitAt? && ss[nearest.index].glow ==>
      forall c :: 0 <= c < 3 ==> px[c] == ClampByte(At(ss[nearest.index].color, c) * 255.0)
  {
    match nearest
    case NoHit => Black
    case HitAt(k, h) =>
      if ss[k].glow then
        [ClampByte(ss[k].color.x * 255.0), ClampByte(ss[k].color.y * 255.0), ClampByte(ss[k].color.z * 255.0), ByteMax]
      else Lit(sqrt, ss, k, h, lights, |lights|)
  }

  /** A glowing surface's pixel does not depend on the lights at all. */
  lemma GlowIgnoresLights(sqrt: SqrtFn, ss: seq<RelSurface>, lights1: seq<RelLight>, lights2: seq<RelLight>, k: nat, h: Hit)
    requires k < |ss| && ss[k].glow
    ensures Shade(sqrt, ss, lights1, HitAt(k, h)) == Shade(sqrt, ss, lights2, HitAt(k, h))
  {
  }

  /** With no lights a non-glowing hit stays black. */
  lemma NoLightsBlack(sqrt: SqrtFn, ss: seq<RelSurface>, k: nat, h: Hit)
    requires k < |ss| && !ss[k].glow
    ensures Shade(sqrt, ss, [], HitAt(k, h)) == Black
  {
  }

  predicate NonNegative(v: Vec3) {
    v.x >= 0.0 && v.y >= 0.0 && v.z >= 0.0
  }

  /** Lights only brighten: with a non-negative surface colour and
      non-negative light colours, no channel decreases from one light to
      the next, and a light that is skipped changes nothing. */
  lemma LightsOnlyBrighten(sqrt: SqrtFn, ss: seq<RelSurface>, target: nat, h: Hit, lights: seq<RelLight>, n: nat)
    requires target < |ss| && n < |lights|
    requires NonNegative(ss[target].color) && NonNegative(lights[n].color)
    ensures forall c :: 0 <= c < 3 ==>
      Lit(sqrt, ss, target, h, lights, n)[c] <= Lit(sqrt, ss, target, h, lights, n + 1)[c]
    ensures LightFactor(sqrt, ss, target, h, lights[n]).None? ==>
      Lit(sqrt, ss, target, h, lights, n + 1) == Lit(sqrt, ss, target, h, lights, n)
  {
    var prev := Lit(sqrt, ss, target, h, lights, n);
    var f := LightFactor(sqrt, ss, target, h, lights[n]);
    if f.Some? {
      var b := f.value;
      var color, lc := ss[target].color, lights[n].color;
      assert Lit(sqrt, ss, target, h, lights, n + 1) == AddLight(prev, color, b, lc);
      ProductNonNeg(color.x, b, lc.x);
      ProductNonNeg(color.y, b, lc.y);
      ProductNonNeg(color.z, b, lc.z);
      AddNeverDarkens(prev[0], color.x * b * lc.x);
      AddNeverDarkens(prev[1], color.y * b * lc.y);
      AddNeverDarkens(prev[2], color.z * b * lc.z);
    }
  }

  /** A light is ignored when a shadow-casting surface other than the lit
      one lies on the way from the light to the target's plane. */
  lemma ShadowedLightIgnored(sqrt: SqrtFn, ss: seq<RelSurface>, target: nat, h: Hit, light: RelLight, j: nat)
    requires target < |ss| && j < |ss| && j != target && !ss[j].noShadow
    requires Intersect(sqrt, ss[target].geom, light.relPos, Incoming(sqrt, h, light), Infinity, true).Some?
    requires var t0 := Intersect(sqrt, ss[target].geom, light.relPos, Incoming(sqrt, h, light), Infinity, true).value.t;
      Intersect(sqrt, ss[j].geom, light.relPos, Incoming(sqrt, h, light), Finite(t0), false).Some?
    ensures LightFactor(sqrt, ss, target, h, light).None?
  {
  }

  // ---------------------------------------------------------------------
  // The loops.

  /** The shading of one pixel as the source does it: reset to black, then
      either the glow colour or a pass over the lights, each asking
      `firstHitIs` along the ray from the light. */
  method ShadePixel(sqrt: SqrtFn, groups: seq<seq<RelSurface>>, lights: seq<RelLight>, nearest: Nearest) returns (px: seq<int>)
    requires nearest.HitAt? ==> nearest.index < |Flatten(groups)|
    ensures px == Shade(sqrt, Flatten(groups), lights, nearest)
  {
    px := Black;
    if nearest.NoHit? {
      return;
    }
    var flat := Flatten(groups);
    var k, h := nearest.index, nearest.hit;
    var surface := flat[k];
    if surface.glow {
      px := [ClampByte(surface.color.x * 255.0), ClampByte(surface.color.y * 255.0), ClampByte(surface.color.z * 255.0), ByteMax];
      return;
    }
    var i := 0;
    while i < |lights|
      invariant 0 <= i <= |lights|
      invariant px == Lit(sqrt, flat, k, h, lights, i)
    {
      px := ApplyLight(sqrt, groups, k, h, lights[i], px);
      i := i + 1;
    }
  }

  /** One pass of the light loop: the light's factor, if it is not
      skipped, added to the pixel. */
  method ApplyLight(sqrt: SqrtFn, groups: seq<seq<RelSurface>>, k: nat, h: Hit, light: RelLight, px: seq<int>) returns (out: seq<int>)
    requires k < |Flatten(groups)| && IsPixel(px)
    ensures var factor := LightFactor(sqrt, Flatten(groups), k, h, light);
      out == if factor.Some? then AddLight(px, Flatten(groups)[k].color, factor.value, light.color) else px
  {
    var surface := Flatten(groups)[k];
    var offset := Sub(h.p, light.relPos);
    var norm := Norm(sqrt, offset);
    var incoming := Scale(offset, Recip(norm));
    var unobstructed := FirstHitIs(sqrt, groups, light.relPos, incoming, k);
    LightFactorIs(sqrt, Flatten(groups), k, h, light, norm, incoming);
    ghost var factor := LightFactor(sqrt, Flatten(groups), k, h, light);
    out := px;
    if unobstructed {
      var dot := Dot(h.normal, incoming);
      if dot <= 0.0 {
        var b := Brightness(dot, norm);
        assert factor == Some(b);
        out := AddLight(px, surface.color, b, light.color);
      } else {
        assert factor.None?;
      }
    } else {
      assert factor.None?;
    }
  }

  /** Where the four bytes of pixel (x, y) start: `4 * (width * y + x)`,
      always inside the `4 * width * height` bytes of the image. */
  function PixelIndex(width: nat, height: nat, x: nat, y: nat): (i: nat)
    requires x < width && y < height
    ensures i + 4 <= 4 * (width * height)
  {
    MulMonotone(width, y + 1, height);
    assert width * (y + 1) == width * y + width;
    4 * (width * y + x)
  }

  /** In row-major order each pixel's four bytes come after those of every
      earlier pixel. */
  lemma PixelIndexOrder(width: nat, height: nat, x1: nat, y1: nat, x2: nat, y2: nat)
    requires x1 < width && x2 < width && y1 < height && y2 < height
    requires y1 < y2 || (y1 == y2 && x1 < x2)
    ensures PixelIndex(width, height, x1, y1) + 4 <= PixelIndex(width, height, x2, y2)
  {
    if y1 < y2 {
      MulMonotone(width, y1 + 1, y2);
      assert width * (y1 + 1) == width * y1 + width;
    }
  }

  /** The bytes pixel (x, y) should end up with: the shading of the
      nearest surface along its primary ray from the camera at the origin. */
  function PixelAt(sqrt: SqrtFn, ss: seq<RelSurface>, lights: seq<RelLight>, width: nat, height: nat, dis: real, x: nat, y: nat): (px: seq<int>)
    ensures IsPixel(px)
  {
    Shade(sqrt, ss, lights, Scan(sqrt, ss, Zero, PrimaryDirection(sqrt, width, height, dis, x, y), |ss|))
  }

  /** The four stores of one pixel. */
  function WritePixel(data: seq<int>, index: nat, px: seq<int>): (r: seq<int>)
    requires index + 4 <= |data| && |px| == 4
    ensures |r| == |data|
    ensures forall c :: 0 <= c < 4 ==> r[index + c] == px[c]
    ensures forall i :: 0 <= i < |data| && !(index <= i < index + 4) ==> r[i] == data[i]
  {
    data[index := px[0]][index + 1 := px[1]][index + 2 := px[2]][index + 3 := px[3]]
  }

  /** Pixel (x, y) comes before pixel (x2, y2) in row-major order. */
  predicate Before(x: nat, y: nat, x2: nat, y2: nat) {
    y < y2 || (y == y2 && x < x2)
  }

  /** The inner loop for row y: every pixel of the row is shaded and
      stored, in order, and no byte of another row changes. */
  method RenderRow(sqrt: SqrtFn, groups: seq<seq<RelSurface>>, lights: seq<RelLight>, width: nat, height: nat, dis: real, y: nat, image: seq<int>)
    returns (data: seq<int>)
    requires y < height && |image| == 4 * (width * height)
    ensures |data| == |image|
    ensures forall i :: 0 <= i < |image| && !(4 * (width * y) <= i < 4 * (width * y + width)) ==> data[i] == image[i]
    ensures forall x, c :: 0 <= x < width && 0 <= c < 4 ==>
      data[PixelIndex(width, height, x, y) + c] == PixelAt(sqrt, Flatten(groups), lights, width, height, dis, x, y)[c]
  {
    ghost var ss := Flatten(groups);
    data := image;
    var index := 4 * (width * y) - 4;
    var screenX := 0;
    while screenX < width
      invariant 0 <= screenX <= width
      invariant |data| == |image|
      invariant index + 4 == 4 * (width * y + screenX)
      invariant forall i :: 0 <= i < |image| && !(4 * (width * y) <= i < index + 4) ==> data[i] == image[i]
      invariant forall x, c :: 0 <= x < screenX && 0 <= c < 4 ==>
        data[PixelIndex(width, height, x, y) + c] == PixelAt(sqrt, ss, lights, width, height, dis, x, y)[c]
    {
      index := index + 4;
      var direction := PrimaryDirection(sqrt, width, height, dis, screenX, y);
      var nearest := RayHitSurface(sqrt, groups, Zero, direction);
      var px := ShadePixel(sqrt, groups, lights, nearest);
      assert index == PixelIndex(width, height, screenX, y);
      data := WritePixel(data, index, px);
      screenX := screenX + 1;
    }
  }

  /** `Camera.render`'s two loops: for every pixel, in row-major order, the
      nearest surface along its primary ray is shaded and the four bytes at
      `4 * (width * y + x)` are written; every byte of the image is
      written. The pixel is shaded in a local copy and stored at the end,
      which stores the same bytes as shading it in place. */
  method Render(sqrt: SqrtFn, groups: seq<seq<RelSurface>>, lights: seq<RelLight>, width: nat, height: nat, dis: real, image: seq<int>)
    returns (data: seq<int>)
    requires |image| == 4 * (width * height)
    ensures |data| == |image|
    ensures forall x, y, c :: 0 <= x < width && 0 <= y < height && 0 <= c < 4 ==>
      data[PixelIndex(width, height, x, y) + c] == PixelAt(sqrt, Flatten(groups), lights, width, height, dis, x, y)[c]
  {
    ghost var ss := Flatten(groups);
    data := image;
    var screenY := 0;
    while screenY < height
      invariant 0 <= screenY <= height
      invariant |data| == |image|
      invariant forall x, y, c :: 0 <= x < width && 0 <= y < screenY && 0 <= c < 4 ==>
        data[PixelIndex(width, height, x, y) + c] == PixelAt(sqrt, ss, lights, width, height, dis, x, y)[c]
    {
      ghost var before := data;
      data := RenderRow(sqrt, groups, lights, width, height, dis, screenY, data);
      forall x, y, c | 0 <= x < width && 0 <= y < screenY && 0 <= c < 4
        ensures data[PixelIndex(width, height, x, y) + c] == PixelAt(sqrt, ss, lights, width, height, dis, x, y)[c]
      {
        PixelIndexOrder(width, height, width - 1, y, 0, screenY);
        assert data[PixelIndex(width, height, x, y) + c] == before[PixelIndex(width, height, x, y) + c];
      }
      screenY := screenY + 1;
    }
  }
}

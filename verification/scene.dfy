/** Drawables, lights and the scene (public/js/classes.js and
    js/classes.js): `relative` moves every surface and light into the
    camera's frame, and the scans and buffers walk the surfaces drawable by
    drawable, which `Flatten` fixes as one sequence. */
module Scenes {
  import opened Vector3
  import opened Matrix
  import opened Surfaces

  /** A group of surfaces placed at `pos`. */
  datatype Drawable = Drawable(pos: Vec3, surfaces: seq<Surface>)

  datatype Light = Light(pos: Vec3, color: Vec3)

  /** A light's camera-relative snapshot. */
  datatype RelLight = RelLight(relPos: Vec3, color: Vec3)

  datatype Scene = Scene(drawables: seq<Drawable>, lights: seq<Light>)

  /** What `relative` leaves behind: the snapshot of every surface, grouped
      by drawable, and of every light. */
  datatype RelScene = RelScene(surfaces: seq<seq<RelSurface>>, lights: seq<RelLight>)

  // ---------------------------------------------------------------------
  // Drawable-major order.

  /** The surfaces of all groups, group by group. */
  function Flatten<T>(xss: seq<seq<T>>): (r: seq<T>)
    ensures |xss| == 0 ==> r == []
  {
    if |xss| == 0 then [] else Flatten(xss[..|xss| - 1]) + xss[|xss| - 1]
  }

  /** Where group g starts in the flattened order. */
  function Start<T>(xss: seq<seq<T>>, g: nat): nat
    requires g <= |xss|
  {
    |Flatten(xss[..g])|
  }

  /** Element s of group g sits at `Start(g) + s`, and the groups tile the
      flattened sequence in order. */
  lemma {:induction false} FlattenIndex<T>(xss: seq<seq<T>>, g: nat, s: nat)
    requires g < |xss| && s < |xss[g]|
    ensures Start(xss, g) + s < Start(xss, g + 1) <= |Flatten(xss)|
    ensures Flatten(xss)[Start(xss, g) + s] == xss[g][s]
  {
    var n := |xss|;
    assert xss[..n] == xss;
    if g == n - 1 {
      assert xss[..n - 1][..g] == xss[..g];
      assert Flatten(xss[..g + 1]) == Flatten(xss[..g]) + xss[g] by {
        assert xss[..g + 1][..g] == xss[..g];
      }
    } else {
      FlattenIndex(xss[..n - 1], g, s);
      assert xss[..n - 1][..g] == xss[..g];
      assert xss[..n - 1][..g + 1] == xss[..g + 1];
      assert Flatten(xss) == Flatten(xss[..n - 1]) + xss[n - 1];
    }
  }

  /** Appending a group appends its elements. */
  lemma FlattenSnoc<T>(xss: seq<seq<T>>, g: nat)
    requires g < |xss|
    ensures Flatten(xss[..g + 1]) == Flatten(xss[..g]) + xss[g]
  {
    assert xss[..g + 1][..g] == xss[..g];
  }

  /** Flattening commutes with mapping every element. */
  lemma {:induction false} FlattenMap<T, U>(xss: seq<seq<T>>, yss: seq<seq<U>>, f: T -> U)
    requires |xss| == |yss|
    requires forall g :: 0 <= g < |xss| ==> |yss[g]| == |xss[g]| && forall s :: 0 <= s < |xss[g]| ==> yss[g][s] == f(xss[g][s])
    ensures |Flatten(yss)| == |Flatten(xss)|
    ensures forall k :: 0 <= k < |Flatten(xss)| ==> Flatten(yss)[k] == f(Flatten(xss)[k])
  {
    if |xss| > 0 {
      var n := |xss|;
      FlattenMap(xss[..n - 1], yss[..n - 1], f);
    }
  }

  // ---------------------------------------------------------------------
  // `relative`.

  /** `LightSource.relative`: the light's offset from the camera, rotated,
      which is where the rotation puts the light minus where it puts the
      camera. */
  function LightRelative(l: Light, cam: Vec3, inv: Mat3): (r: RelLight)
    ensures r.color == l.color
    ensures r.relPos == ToCamera(inv, cam, l.pos)
    ensures r.relPos == Sub(Apply(inv, l.pos), Apply(inv, cam))
  {
    ApplySub(inv, l.pos, cam);
    RelLight(Apply(inv, Sub(l.pos, cam)), l.color)
  }

  /** `Drawable.relative`: each surface is moved by `cam - pos`. */
  function DrawableRelative(sqrt: SqrtFn, d: Drawable, cam: Vec3, inv: Mat3): (r: seq<RelSurface>)
    ensures |r| == |d.surfaces|
    ensures forall s :: 0 <= s < |r| ==> r[s] == Relative(sqrt, d.surfaces[s], Sub(cam, d.pos), inv)
  {
    seq(|d.surfaces|, s requires 0 <= s < |d.surfaces| => Relative(sqrt, d.surfaces[s], Sub(cam, d.pos), inv))
  }

  /** `Scene.relative`: every drawable and every light, with the same camera
      position and inverse rotation. */
  function SceneRelative(sqrt: SqrtFn, scene: Scene, cam: Vec3, inv: Mat3): (r: RelScene)
    ensures |r.surfaces| == |scene.drawables| && |r.lights| == |scene.lights|
    ensures forall g :: 0 <= g < |r.surfaces| ==> r.surfaces[g] == DrawableRelative(sqrt, scene.drawables[g], cam, inv)
    ensures forall i :: 0 <= i < |r.lights| ==> r.lights[i] == LightRelative(scene.lights[i], cam, inv)
  {
    RelScene(
      seq(|scene.drawables|, g requires 0 <= g < |scene.drawables| => DrawableRelative(sqrt, scene.drawables[g], cam, inv)),
      seq(|scene.lights|, i requires 0 <= i < |scene.lights| => LightRelative(scene.lights[i], cam, inv)))
  }

  /** A surface's shape moved to world coordinates by its drawable's
      position. */
  function Translate(s: Surface, offset: Vec3): (r: Surface)
    ensures r.color == s.color && r.glow == s.glow && r.noShadow == s.noShadow
    ensures TypeOf(r.shape) == TypeOf(s.shape)
  {
    var shape := match s.shape
      case Triangle(a, b, c) => Triangle(Add(a, offset), Add(b, offset), Add(c, offset))
      case Sphere(p, r2) => Sphere(Add(p, offset), r2)
      case Cylinder(p, e, r2, h) => Cylinder(Add(p, offset), Add(e, offset), r2, h);
    s.(shape := shape)
  }

  /** Moving by `cam - pos` is viewing the surface placed at `pos` from the
      camera: `v - (cam - pos) = (v + pos) - cam`. */
  lemma ToCameraTranslate(inv: Mat3, cam: Vec3, pos: Vec3, v: Vec3)
    ensures ToCamera(inv, Sub(cam, pos), v) == ToCamera(inv, cam, Add(v, pos))
  {
    assert Sub(v, Sub(cam, pos)) == Sub(Add(v, pos), cam);
  }

  /** `Drawable.relative` composes the drawable's translation with the
      camera's: each snapshot is that of the world-placed surface seen from
      the camera. */
  lemma DrawableRelativeIsWorld(sqrt: SqrtFn, d: Drawable, cam: Vec3, inv: Mat3, s: nat)
    requires s < |d.surfaces|
    ensures DrawableRelative(sqrt, d, cam, inv)[s] == Relative(sqrt, Translate(d.surfaces[s], d.pos), cam, inv)
  {
    var surf := d.surfaces[s];
    match surf.shape
    case Triangle(a, b, c) =>
      ToCameraTranslate(inv, cam, d.pos, a);
      ToCameraTranslate(inv, cam, d.pos, b);
      ToCameraTranslate(inv, cam, d.pos, c);
    case Sphere(p, _) =>
      ToCameraTranslate(inv, cam, d.pos, p);
    case Cylinder(p, e, _, _) =>
      ToCameraTranslate(inv, cam, d.pos, p);
      ToCameraTranslate(inv, cam, d.pos, e);
  }

  /** The drawables' surface groups, in drawable order. */
  function Groups(drawables: seq<Drawable>): (gs: seq<seq<Surface>>)
    ensures |gs| == |drawables|
    ensures forall g :: 0 <= g < |gs| ==> gs[g] == drawables[g].surfaces
  {
    seq(|drawables|, g requires 0 <= g < |drawables| => drawables[g].surfaces)
  }

  /** The scene's surfaces in scan order, and their snapshots. */
  function AllSurfaces(scene: Scene): seq<Surface> {
    Flatten(Groups(scene.drawables))
  }

  function RelSurfaces(r: RelScene): seq<RelSurface> {
    Flatten(r.surfaces)
  }

  /** The drawables' surface groups moved to world coordinates, each by its
      drawable's position. */
  function WorldGroups(drawables: seq<Drawable>): seq<seq<Surface>> {
    seq(|drawables|, g requires 0 <= g < |drawables| =>
      seq(|drawables[g].surfaces|, s requires 0 <= s < |drawables[g].surfaces| =>
        Translate(drawables[g].surfaces[s], drawables[g].pos)))
  }

  /** The scene's surfaces placed in the world, in scan order. */
  function WorldSurfaces(scene: Scene): seq<Surface> {
    Flatten(WorldGroups(scene.drawables))
  }

  /** `Scene.relative` in scan order: snapshot k is surface k of the world
      seen from the camera, and each light sits at its rotated offset from
      the camera with its colour unchanged. */
  lemma SceneRelativeIsWorld(sqrt: SqrtFn, scene: Scene, cam: Vec3, inv: Mat3)
    ensures var r := SceneRelative(sqrt, scene, cam, inv);
      |RelSurfaces(r)| == |WorldSurfaces(scene)| &&
      forall k :: 0 <= k < |RelSurfaces(r)| ==> RelSurfaces(r)[k] == Relative(sqrt, WorldSurfaces(scene)[k], cam, inv)
    ensures var r := SceneRelative(sqrt, scene, cam, inv);
      forall i :: 0 <= i < |r.lights| ==>
        r.lights[i].relPos == Sub(Apply(inv, scene.lights[i].pos), Apply(inv, cam)) && r.lights[i].color == scene.lights[i].color
  {
    var r := SceneRelative(sqrt, scene, cam, inv);
    var ws := WorldGroups(scene.drawables);
    var f := (x: Surface) => Relative(sqrt, x, cam, inv);
    forall g | 0 <= g < |ws|
      ensures |r.surfaces[g]| == |ws[g]| && forall s :: 0 <= s < |ws[g]| ==> r.surfaces[g][s] == f(ws[g][s])
    {
      forall s | 0 <= s < |ws[g]|
        ensures r.surfaces[g][s] == f(ws[g][s])
      {
        DrawableRelativeIsWorld(sqrt, scene.drawables[g], cam, inv, s);
      }
    }
    FlattenMap(ws, r.surfaces, f);
  }

  /** Every snapshot of a scene from `relative` keeps the geometric
      invariants the scans need, given an exact root. */
  lemma SceneRelativeWellFormed(sqrt: SqrtFn, scene: Scene, cam: Vec3, inv: Mat3)
    requires ExactSqrt(sqrt)
    ensures var r := SceneRelative(sqrt, scene, cam, inv);
      forall g, s :: 0 <= g < |r.surfaces| && 0 <= s < |r.surfaces[g]| ==> WellFormed(r.surfaces[g][s].geom)
  {
    var r := SceneRelative(sqrt, scene, cam, inv);
    forall g, s | 0 <= g < |r.surfaces| && 0 <= s < |r.surfaces[g]|
      ensures WellFormed(r.surfaces[g][s].geom)
    {
      var d := scene.drawables[g];
      RelativeWellFormed(sqrt, d.surfaces[s], Sub(cam, d.pos), inv);
    }
  }
}

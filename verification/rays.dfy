/** The two scene queries of public/js/rays.js: the nearest surface along a
    ray (`rayHitSurface`) and the shadow test (`firstHitIs`). Both walk the
    surfaces drawable by drawable; a surface is identified by its index in
    that drawable-major order. */
module Rays {
  import opened Wrappers
  import opened Vector3
  import opened Hits
  import opened Surfaces
  import opened Scenes

  /** The scan's result: nothing hit (`surface: null`, `t: Infinity`), or the
      index of the surface hit and the hit itself. */
  datatype Nearest = NoHit | HitAt(index: nat, hit: Hit)

  /** `result.t`, the bound handed to the next surface. */
  function BoundOf(n: Nearest): Bound {
    if n.HitAt? then Finite(n.hit.t) else Infinity
  }

  /** Every surface answers a bounded query by cutting its unbounded one. */
  ghost predicate AllMonotone(sqrt: SqrtFn, ss: seq<RelSurface>) {
    forall k :: 0 <= k < |ss| ==> Monotone(sqrt, ss[k].geom)
  }

  lemma AllWellFormedMonotone(sqrt: SqrtFn, ss: seq<RelSurface>)
    requires NonNegSqrt(sqrt)
    requires forall k :: 0 <= k < |ss| ==> WellFormed(ss[k].geom)
    ensures AllMonotone(sqrt, ss)
  {
    forall k | 0 <= k < |ss|
      ensures Monotone(sqrt, ss[k].geom)
    {
      WellFormedMonotone(sqrt, ss[k].geom);
    }
  }

  // ---------------------------------------------------------------------
  // `rayHitSurface`.

  /** The loop of `rayHitSurface` over the first n surfaces: each surface is
      asked for a hit below the current `result.t`, and any hit it reports
      replaces the result. */
  function Scan(sqrt: SqrtFn, ss: seq<RelSurface>, o: Vec3, dir: Vec3, n: nat): (r: Nearest)
    requires n <= |ss|
    ensures r.HitAt? ==> r.index < n
    ensures r.HitAt? ==> 0.0 <= r.hit.t && r.hit.p == PointAt(o, dir, r.hit.t)
  {
    if n == 0 then NoHit
    else
      var prev := Scan(sqrt, ss, o, dir, n - 1);
      match Intersect(sqrt, ss[n - 1].geom, o, dir, BoundOf(prev), false)
      case Some(h) => HitAt(n - 1, h)
      case None => prev
  }

  /** What each surface reports with no bound: the candidates of the scan. */
  function Candidates(sqrt: SqrtFn, ss: seq<RelSurface>, o: Vec3, dir: Vec3): (hits: seq<Option<Hit>>)
    ensures |hits| == |ss|
    ensures forall k :: 0 <= k < |ss| ==> hits[k] == Intersect(sqrt, ss[k].geom, o, dir, Infinity, false)
  {
    seq(|ss|, k requires 0 <= k < |ss| => Intersect(sqrt, ss[k].geom, o, dir, Infinity, false))
  }

  /** The first of the nearest candidates among the first n: the reference
      the scan is measured against. */
  function MinScan(hits: seq<Option<Hit>>, n: nat): (r: Nearest)
    requires n <= |hits|
    ensures r.NoHit? <==> forall j :: 0 <= j < n ==> hits[j].None?
    ensures r.HitAt? ==> r.index < n && hits[r.index] == Some(r.hit)
    ensures r.HitAt? ==> forall j :: 0 <= j < n && hits[j].Some? ==> r.hit.t <= hits[j].value.t
    ensures r.HitAt? ==> forall j :: 0 <= j < r.index && hits[j].Some? ==> r.hit.t < hits[j].value.t
  {
    if n == 0 then NoHit
    else
      var prev := MinScan(hits, n - 1);
      match hits[n - 1]
      case Some(h) => if Below(h.t, BoundOf(prev)) then HitAt(n - 1, h) else prev
      case None => prev
  }

  /** With monotone surfaces, shrinking the bound as the scan goes finds the
      first nearest unbounded hit. */
  lemma {:induction false} ScanIsMin(sqrt: SqrtFn, ss: seq<RelSurface>, o: Vec3, dir: Vec3, n: nat)
    requires n <= |ss|
    requires AllMonotone(sqrt, ss)
    ensures Scan(sqrt, ss, o, dir, n) == MinScan(Candidates(sqrt, ss, o, dir), n)
  {
    if n > 0 {
      ScanIsMin(sqrt, ss, o, dir, n - 1);
      var prev := Scan(sqrt, ss, o, dir, n - 1);
      var hits := Candidates(sqrt, ss, o, dir);
      assert Monotone(sqrt, ss[n - 1].geom);
      assert Intersect(sqrt, ss[n - 1].geom, o, dir, BoundOf(prev), false) == Cut(hits[n - 1], BoundOf(prev));
    }
  }

  /** The scan's answer, stated on the surfaces themselves: it reports no hit
      exactly when no surface is hit at all, and otherwise a hit of the
      surface it names that is no farther than any other surface's and
      strictly nearer than every earlier surface's. */
  lemma ScanNearest(sqrt: SqrtFn, ss: seq<RelSurface>, o: Vec3, dir: Vec3)
    requires AllMonotone(sqrt, ss)
    ensures var r := Scan(sqrt, ss, o, dir, |ss|);
      && (r.NoHit? <==> forall j :: 0 <= j < |ss| ==> Intersect(sqrt, ss[j].geom, o, dir, Infinity, false).None?)
      && (r.HitAt? ==> r.index < |ss| && Intersect(sqrt, ss[r.index].geom, o, dir, Infinity, false) == Some(r.hit))
      && (r.HitAt? ==> forall j :: 0 <= j < |ss| && Intersect(sqrt, ss[j].geom, o, dir, Infinity, false).Some? ==>
            r.hit.t <= Intersect(sqrt, ss[j].geom, o, dir, Infinity, false).value.t)
      && (r.HitAt? ==> forall j :: 0 <= j < r.index && Intersect(sqrt, ss[j].geom, o, dir, Infinity, false).Some? ==>
            r.hit.t < Intersect(sqrt, ss[j].geom, o, dir, Infinity, false).value.t)
  {
    ScanIsMin(sqrt, ss, o, dir, |ss|);
  }

  /** `rayHitSurface`: the two nested loops over drawables and their
      surfaces; the result is the scan over the drawable-major order. */
  method RayHitSurface(sqrt: SqrtFn, groups: seq<seq<RelSurface>>, o: Vec3, dir: Vec3) returns (r: Nearest)
    ensures r == Scan(sqrt, Flatten(groups), o, dir, |Flatten(groups)|)
  {
    ghost var flat := Flatten(groups);
    r := NoHit;
    var k := 0;
    var g := 0;
    while g < |groups|
      invariant 0 <= g <= |groups|
      invariant k == Start(groups, g) <= |flat|
      invariant r == Scan(sqrt, flat, o, dir, k)
    {
      var surfaces := groups[g];
      var s := 0;
      while s < |surfaces|
        invariant 0 <= s <= |surfaces|
        invariant k == Start(groups, g) + s <= |flat|
        invariant r == Scan(sqrt, flat, o, dir, k)
      {
        FlattenIndex(groups, g, s);
        var hit := Intersect(sqrt, surfaces[s].geom, o, dir, BoundOf(r), false);
        if hit.Some? {
          r := HitAt(k, hit.value);
        }
        k := k + 1;
        s := s + 1;
      }
      FlattenSnoc(groups, g);
      g := g + 1;
    }
    assert groups[..|groups|] == groups;
  }

  // ---------------------------------------------------------------------
  // `firstHitIs`.

  /** The loop of `firstHitIs` over the first n surfaces has found nothing
      in the way: no surface but the target, and none flagged `noShadow`,
      reports a hit below t0. */
  function Clear(sqrt: SqrtFn, ss: seq<RelSurface>, o: Vec3, dir: Vec3, target: nat, t0: real, n: nat): (r: bool)
    requires n <= |ss|
    ensures r <==> forall j :: 0 <= j < n && j != target && !ss[j].noShadow ==>
      Intersect(sqrt, ss[j].geom, o, dir, Finite(t0), false).None?
  {
    if n == 0 then true
    else
      Clear(sqrt, ss, o, dir, target, t0, n - 1)
      && (n - 1 == target || ss[n - 1].noShadow || Intersect(sqrt, ss[n - 1].geom, o, dir, Finite(t0), false).None?)
  }

  /** `firstHitIs`: the target's plane (or body) must be hit at some t0,
      and nothing that casts shadows may be hit before t0. */
  function FirstHit(sqrt: SqrtFn, ss: seq<RelSurface>, o: Vec3, dir: Vec3, target: nat): (r: bool)
    requires target < |ss|
    ensures Intersect(sqrt, ss[target].geom, o, dir, Infinity, true).None? ==> !r
    ensures r <==> (
      && Intersect(sqrt, ss[target].geom, o, dir, Infinity, true).Some?
      && forall j :: 0 <= j < |ss| && j != target && !ss[j].noShadow ==>
        Intersect(sqrt, ss[j].geom, o, dir, Finite(Intersect(sqrt, ss[target].geom, o, dir, Infinity, true).value.t), false).None?)
  {
    match Intersect(sqrt, ss[target].geom, o, dir, Infinity, true)
    case None => false
    case Some(h0) => Clear(sqrt, ss, o, dir, target, h0.t, |ss|)
  }

  /** `firstHitIs` as written: the target is asked first, then the two
      nested loops return false at the first obstruction. */
  method FirstHitIs(sqrt: SqrtFn, groups: seq<seq<RelSurface>>, o: Vec3, dir: Vec3, target: nat) returns (r: bool)
    requires target < |Flatten(groups)|
    ensures r == FirstHit(sqrt, Flatten(groups), o, dir, target)
  {
    var flat := Flatten(groups);
    var hit0 := Intersect(sqrt, flat[target].geom, o, dir, Infinity, true);
    if hit0.None? {
      return false;
    }
    var t0 := hit0.value.t;
    var k := 0;
    var g := 0;
    while g < |groups|
      invariant 0 <= g <= |groups|
      invariant k == Start(groups, g) <= |flat|
      invariant Clear(sqrt, flat, o, dir, target, t0, k)
    {
      var surfaces := groups[g];
      var s := 0;
      while s < |surfaces|
        invariant 0 <= s <= |surfaces|
        invariant k == Start(groups, g) + s <= |flat|
        invariant Clear(sqrt, flat, o, dir, target, t0, k)
      {
        FlattenIndex(groups, g, s);
        var surface := surfaces[s];
        if k != target && !surface.noShadow {
          var hit := Intersect(sqrt, surface.geom, o, dir, Finite(t0), false);
          if hit.Some? {
            assert flat[k] == surface;
            return false;
          }
        }
        k := k + 1;
        s := s + 1;
      }
      FlattenSnoc(groups, g);
      g := g + 1;
    }
    assert groups[..|groups|] == groups;
    r := true;
  }

  /** Asking for the plane only never loses a hit: a hit of the surface
      itself is also the answer with `planeOnly` set. */
  lemma PlaneOnlyKeepsHits(sqrt: SqrtFn, g: Geom, o: Vec3, dir: Vec3, tMax: Bound)
    requires Intersect(sqrt, g, o, dir, tMax, false).Some?
    ensures Intersect(sqrt, g, o, dir, tMax, true) == Intersect(sqrt, g, o, dir, tMax, false)
  {
  }

  /** With monotone surfaces, `firstHitIs` holds exactly when the target is
      reached at some t0 and every other shadow-casting surface is either
      missed or reached no earlier than t0. */
  lemma FirstHitNearest(sqrt: SqrtFn, ss: seq<RelSurface>, o: Vec3, dir: Vec3, target: nat)
    requires target < |ss|
    requires AllMonotone(sqrt, ss)
    ensures FirstHit(sqrt, ss, o, dir, target) <==>
      var h0 := Intersect(sqrt, ss[target].geom, o, dir, Infinity, true);
      h0.Some? && forall j :: 0 <= j < |ss| && j != target && !ss[j].noShadow && Intersect(sqrt, ss[j].geom, o, dir, Infinity, false).Some? ==>
        Intersect(sqrt, ss[j].geom, o, dir, Infinity, false).value.t >= h0.value.t
  {
    var h0 := Intersect(sqrt, ss[target].geom, o, dir, Infinity, true);
    if h0.Some? {
      forall j | 0 <= j < |ss|
        ensures Intersect(sqrt, ss[j].geom, o, dir, Finite(h0.value.t), false)
             == Cut(Intersect(sqrt, ss[j].geom, o, dir, Infinity, false), Finite(h0.value.t))
      {
        assert Monotone(sqrt, ss[j].geom);
      }
    }
  }

  /** The surface `rayHitSurface` reports passes `firstHitIs` along the same
      ray: nothing that casts shadows lies strictly in front of it. */
  lemma NearestIsFirstHit(sqrt: SqrtFn, ss: seq<RelSurface>, o: Vec3, dir: Vec3)
    requires AllMonotone(sqrt, ss)
    requires Scan(sqrt, ss, o, dir, |ss|).HitAt?
    ensures FirstHit(sqrt, ss, o, dir, Scan(sqrt, ss, o, dir, |ss|).index)
  {
    var r := Scan(sqrt, ss, o, dir, |ss|);
    ScanNearest(sqrt, ss, o, dir);
    PlaneOnlyKeepsHits(sqrt, ss[r.index].geom, o, dir, Infinity);
    FirstHitNearest(sqrt, ss, o, dir, r.index);
  }
}

/** What every `rayIntersect` returns: `null` or `{ t, p, normal }`, and the
    `tMax` bound it is given, which may be `Infinity`. */
module Hits {
  import opened Wrappers
  import opened Vector3

  /** The upper bound on the ray parameter: a number, or `Infinity`. */
  datatype Bound = Finite(value: real) | Infinity

  /** `t < tMax`, with everything below `Infinity`. */
  predicate Below(t: real, tMax: Bound) {
    tMax.Infinity? || t < tMax.value
  }

  /** A reported intersection: the ray parameter, the point
      `origin + t * direction`, and the surface normal there. */
  datatype Hit = Hit(t: real, p: Vec3, normal: Vec3)

  /** The point at parameter t along the ray. */
  function PointAt(origin: Vec3, direction: Vec3, t: real): Vec3 {
    Add(origin, Scale(direction, t))
  }

  /** The answer an intersector owes for `tMax` when it answers `unbounded`
      for `Infinity`: the same hit if it lies below the bound, else none. */
  function Cut(unbounded: Option<Hit>, tMax: Bound): (r: Option<Hit>)
    ensures r.Some? ==> r == unbounded && Below(r.value.t, tMax)
    ensures unbounded.Some? && Below(unbounded.value.t, tMax) ==> r == unbounded
  {
    if unbounded.Some? && Below(unbounded.value.t, tMax) then unbounded else None
  }
}

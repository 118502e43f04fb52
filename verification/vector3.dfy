/** The three-component vector kernel (public/js/vec3.js; the same class is
    repeated in public/js/classes.js and js/classes.js). Floats are modelled
    as reals. */
module Vector3 {

  datatype Vec3 = Vec3(x: real, y: real, z: real)

  const Zero: Vec3 := Vec3(0.0, 0.0, 0.0)

  /** The source's `v[i]` on a three-element array. */
  function At(v: Vec3, i: nat): real
    requires i < 3
  {
    if i == 0 then v.x else if i == 1 then v.y else v.z
  }

  /** The three-element array `[s[0], s[1], s[2]]` read as a vector. */
  function FromSeq(s: seq<real>): Vec3
    requires |s| == 3
  {
    Vec3(s[0], s[1], s[2])
  }

  function ToSeq(v: Vec3): (s: seq<real>)
    ensures |s| == 3 && FromSeq(s) == v
  {
    [v.x, v.y, v.z]
  }

  function Add(a: Vec3, b: Vec3): Vec3 {
    Vec3(a.x + b.x, a.y + b.y, a.z + b.z)
  }

  function Sub(a: Vec3, b: Vec3): Vec3 {
    Vec3(a.x - b.x, a.y - b.y, a.z - b.z)
  }

  function Scale(v: Vec3, k: real): Vec3 {
    Vec3(v.x * k, v.y * k, v.z * k)
  }

  function Dot(a: Vec3, b: Vec3): real {
    a.x * b.x + a.y * b.y + a.z * b.z
  }

  function Cross(a: Vec3, b: Vec3): Vec3 {
    Vec3(a.y * b.z - a.z * b.y, a.z * b.x - a.x * b.z, a.x * b.y - a.y * b.x)
  }

  /** `Math.sqrt` is supplied by the host and is a parameter of the model;
      properties that depend on its exactness assume this predicate. */
  type SqrtFn = real -> real

  ghost predicate ExactSqrt(sqrt: SqrtFn) {
    forall x: real {:trigger sqrt(x)} :: 0.0 <= x ==> 0.0 <= sqrt(x) && sqrt(x) * sqrt(x) == x
  }

  /** The weaker fact the intersection routines' root ordering relies on. */
  ghost predicate NonNegSqrt(sqrt: SqrtFn) {
    forall x: real {:trigger sqrt(x)} :: 0.0 <= x ==> 0.0 <= sqrt(x)
  }

  /** JavaScript's `1 / x`. A zero divisor yields an infinity there, which
      then turns the surrounding arithmetic into infinities or NaN; the model
      returns 0 instead, and every property below that involves a quotient
      assumes a non-zero divisor. */
  function Recip(x: real): (r: real)
    ensures x != 0.0 ==> r * x == 1.0
    ensures x == 0.0 ==> r == 0.0
  {
    if x == 0.0 then 0.0 else 1.0 / x
  }

  function Norm(sqrt: SqrtFn, v: Vec3): real {
    sqrt(v.x * v.x + v.y * v.y + v.z * v.z)
  }

  function Normalize(sqrt: SqrtFn, v: Vec3): Vec3 {
    Scale(v, Recip(Norm(sqrt, v)))
  }

  // ---------------------------------------------------------------------
  // In-place variants: they overwrite the first argument's three cells and
  // read the second one; the two may be the same array.

  method IAdd(v: array<real>, w: array<real>)
    requires v.Length == 3 && w.Length == 3
    modifies v
    ensures FromSeq(v[..]) == Add(FromSeq(old(v[..])), FromSeq(old(w[..])))
  {
    v[0] := v[0] + w[0];
    v[1] := v[1] + w[1];
    v[2] := v[2] + w[2];
  }

  method ISub(v: array<real>, w: array<real>)
    requires v.Length == 3 && w.Length == 3
    modifies v
    ensures FromSeq(v[..]) == Sub(FromSeq(old(v[..])), FromSeq(old(w[..])))
  {
    v[0] := v[0] - w[0];
    v[1] := v[1] - w[1];
    v[2] := v[2] - w[2];
  }

  method IScale(v: array<real>, k: real)
    requires v.Length == 3
    modifies v
    ensures FromSeq(v[..]) == Scale(FromSeq(old(v[..])), k)
  {
    v[0] := v[0] * k;
    v[1] := v[1] * k;
    v[2] := v[2] * k;
  }

  method INormalize(sqrt: SqrtFn, v: array<real>)
    requires v.Length == 3
    modifies v
    ensures FromSeq(v[..]) == Normalize(sqrt, FromSeq(old(v[..])))
  {
    var k := Recip(Norm(sqrt, Vec3(v[0], v[1], v[2])));
    assert Vec3(v[0], v[1], v[2]) == FromSeq(v[..]);
    IScale(v, k);
  }

  // ---------------------------------------------------------------------
  // Algebraic facts about the kernel.

  /** Subtraction undoes addition. */
  lemma SubAddCancel(a: Vec3, b: Vec3)
    ensures Sub(Add(a, b), b) == a
    ensures Add(Sub(a, b), b) == a
  {
  }

  /** Scaling by a non-zero factor is undone by scaling by its reciprocal;
      1 is the identity and 0 sends every vector to zero. */
  lemma ScaleRoundTrip(v: Vec3, k: real)
    ensures k != 0.0 ==> Scale(Scale(v, k), Recip(k)) == v
    ensures Scale(v, 1.0) == v && Scale(v, 0.0) == Zero
  {
    if k != 0.0 {
      var r := Recip(k);
      assert k * r == 1.0;
      assert v.x * k * r == v.x * (k * r);
      assert v.y * k * r == v.y * (k * r);
      assert v.z * k * r == v.z * (k * r);
    }
  }

  lemma DotSymmetric(a: Vec3, b: Vec3)
    ensures Dot(a, b) == Dot(b, a)
  {
  }

  /** With an exact square root, the squared norm is the self dot product. */
  lemma NormSquared(sqrt: SqrtFn, v: Vec3)
    requires ExactSqrt(sqrt)
    ensures Norm(sqrt, v) >= 0.0
    ensures Norm(sqrt, v) * Norm(sqrt, v) == Dot(v, v)
  {
    var q := v.x * v.x + v.y * v.y + v.z * v.z;
    assert 0.0 <= q;
    assert 0.0 <= sqrt(q);
  }

  /** A non-zero vector has a positive self dot product. */
  lemma DotSelfPositive(v: Vec3)
    requires v != Zero
    ensures Dot(v, v) > 0.0
  {
    calc {
      Dot(v, v);
    ==
      v.x * v.x + v.y * v.y + v.z * v.z;
    >
      0.0;
    }
  }

  /** The self dot product is never negative. */
  lemma DotSelfNonNeg(v: Vec3)
    ensures Dot(v, v) >= 0.0
  {
    calc {
      Dot(v, v);
    ==
      v.x * v.x + v.y * v.y + v.z * v.z;
    >=
      0.0;
    }
  }

  lemma SquareNonNeg(a: real)
    ensures a * a >= 0.0
  {
    if a < 0.0 {
      assert a * a == (-a) * (-a);
    }
  }

  /** With an exact square root, the norm of a non-zero vector is positive. */
  lemma NormPositive(sqrt: SqrtFn, v: Vec3)
    requires ExactSqrt(sqrt)
    requires v != Zero
    ensures Norm(sqrt, v) > 0.0
  {
    NormSquared(sqrt, v);
    DotSelfPositive(v);
    var s, q := Norm(sqrt, v), Dot(v, v);
    assert s * s == q && q > 0.0;
  }

  /** The cross product is orthogonal to both of its arguments. */
  lemma CrossOrthogonal(a: Vec3, b: Vec3)
    ensures Dot(Cross(a, b), a) == 0.0
    ensures Dot(Cross(a, b), b) == 0.0
  {
  }

  lemma CrossSelf(a: Vec3)
    ensures Cross(a, a) == Zero
  {
  }

  /** Lagrange's identity: |a|^2 |b|^2 - (a.b)^2 = |a x b|^2. */
  lemma Lagrange(a: Vec3, b: Vec3)
    ensures Dot(a, a) * Dot(b, b) - Dot(a, b) * Dot(a, b) == Dot(Cross(a, b), Cross(a, b))
  {
  }

  /** The Cauchy-Schwarz inequality, in the squared form the cylinder
      intersection needs. */
  lemma CauchySchwarz(a: Vec3, b: Vec3)
    ensures Dot(a, b) * Dot(a, b) <= Dot(a, a) * Dot(b, b)
  {
    Lagrange(a, b);
  }

  /** `normalize` scales a non-zero vector to unit length, given an exact
      square root. */
  lemma NormalizeUnit(sqrt: SqrtFn, v: Vec3)
    requires ExactSqrt(sqrt)
    requires v != Zero
    ensures Dot(Normalize(sqrt, v), Normalize(sqrt, v)) == 1.0
  {
    var s := Norm(sqrt, v);
    NormSquared(sqrt, v);
    NormPositive(sqrt, v);
    var k := Recip(s);
    assert k * s == 1.0;
    var n := Scale(v, k);
    calc {
      Dot(n, n);
      == (v.x * v.x + v.y * v.y + v.z * v.z) * (k * k);
      == (s * s) * (k * k);
      == (k * s) * (k * s);
      == 1.0;
    }
  }

  /** `normalize` keeps the direction: the result is a positive multiple of
      its argument (for a non-zero argument and a non-negative root). */
  lemma NormalizePositiveMultiple(sqrt: SqrtFn, v: Vec3)
    requires ExactSqrt(sqrt)
    requires v != Zero
    ensures Recip(Norm(sqrt, v)) > 0.0
    ensures Dot(Normalize(sqrt, v), v) > 0.0
  {
    NormPositive(sqrt, v);
    DotSelfPositive(v);
    var k := Recip(Norm(sqrt, v));
    assert k > 0.0;
    assert Dot(Normalize(sqrt, v), v) == k * Dot(v, v);
  }
}

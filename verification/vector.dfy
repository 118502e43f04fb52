/** The n-dimensional `Vector` class of script.js: every operation loops over
    the length of its first argument and reads the second at the same
    indices. */
module Vector {
  import opened Vector3

  /** a[0]*b[0] + ... + a[n-1]*b[n-1], accumulated left to right as the
      source's loops do. */
  function SumProducts(a: seq<real>, b: seq<real>, n: nat): real
    requires n <= |a| && n <= |b|
  {
    if n == 0 then 0.0 else SumProducts(a, b, n - 1) + a[n - 1] * b[n - 1]
  }

  /** On three-element arrays the n-dimensional dot product is the kernel's. */
  lemma SumProductsOfThree(a: Vec3, b: Vec3)
    ensures SumProducts(ToSeq(a), ToSeq(b), 3) == Vector3.Dot(a, b)
  {
    var sa, sb := ToSeq(a), ToSeq(b);
    assert SumProducts(sa, sb, 1) == a.x * b.x;
    assert SumProducts(sa, sb, 2) == a.x * b.x + a.y * b.y;
  }

  method Add(a: seq<real>, b: seq<real>) returns (r: seq<real>)
    requires |a| <= |b|
    ensures |r| == |a|
    ensures forall i :: 0 <= i < |a| ==> r[i] == a[i] + b[i]
  {
    r := [];
    var i := 0;
    while i < |a|
      invariant 0 <= i <= |a|
      invariant |r| == i
      invariant forall k :: 0 <= k < i ==> r[k] == a[k] + b[k]
    {
      r := r + [a[i] + b[i]];
      i := i + 1;
    }
  }

  method Sub(a: seq<real>, b: seq<real>) returns (r: seq<real>)
    requires |a| <= |b|
    ensures |r| == |a|
    ensures forall i :: 0 <= i < |a| ==> r[i] == a[i] - b[i]
  {
    r := [];
    var i := 0;
    while i < |a|
      invariant 0 <= i <= |a|
      invariant |r| == i
      invariant forall k :: 0 <= k < i ==> r[k] == a[k] - b[k]
    {
      r := r + [a[i] - b[i]];
      i := i + 1;
    }
  }

  method Scale(v: seq<real>, k: real) returns (r: seq<real>)
    ensures |r| == |v|
    ensures forall i :: 0 <= i < |v| ==> r[i] == k * v[i]
  {
    r := [];
    var i := 0;
    while i < |v|
      invariant 0 <= i <= |v|
      invariant |r| == i
      invariant forall j :: 0 <= j < i ==> r[j] == k * v[j]
    {
      r := r + [k * v[i]];
      i := i + 1;
    }
  }

  /** `iadd` overwrites the first array only; the two may be the same. */
  method IAdd(a: array<real>, b: array<real>)
    requires a.Length <= b.Length
    modifies a
    ensures forall i :: 0 <= i < a.Length ==> a[i] == old(a[i]) + old(b[i])
  {
    var i := 0;
    while i < a.Length
      invariant 0 <= i <= a.Length
      invariant forall k :: 0 <= k < i ==> a[k] == old(a[k]) + old(b[k])
      invariant forall k :: i <= k < a.Length ==> a[k] == old(a[k])
      invariant forall k :: 0 <= k < b.Length && (a != b || i <= k) ==> b[k] == old(b[k])
    {
      a[i] := a[i] + b[i];
      i := i + 1;
    }
  }

  method IScale(v: array<real>, k: real)
    modifies v
    ensures forall i :: 0 <= i < v.Length ==> v[i] == k * old(v[i])
  {
    var i := 0;
    while i < v.Length
      invariant 0 <= i <= v.Length
      invariant forall j :: 0 <= j < i ==> v[j] == k * old(v[j])
      invariant forall j :: i <= j < v.Length ==> v[j] == old(v[j])
    {
      v[i] := k * v[i];
      i := i + 1;
    }
  }

  method Dot(a: seq<real>, b: seq<real>) returns (sum: real)
    requires |a| <= |b|
    ensures sum == SumProducts(a, b, |a|)
  {
    sum := 0.0;
    var i := 0;
    while i < |a|
      invariant 0 <= i <= |a|
      invariant sum == SumProducts(a, b, i)
    {
      sum := sum + a[i] * b[i];
      i := i + 1;
    }
  }

  /** The square root of the sum of squares; with an exact root its square
      is the self dot product. */
  method Norm(sqrt: SqrtFn, v: seq<real>) returns (n: real)
    ensures n == sqrt(SumProducts(v, v, |v|))
    ensures ExactSqrt(sqrt) ==> n >= 0.0 && n * n == SumProducts(v, v, |v|)
  {
    var sum := 0.0;
    var i := 0;
    while i < |v|
      invariant 0 <= i <= |v|
      invariant sum == SumProducts(v, v, i)
    {
      sum := sum + v[i] * v[i];
      i := i + 1;
    }
    SumSquaresNonNeg(v, |v|);
    n := sqrt(sum);
  }

  lemma {:induction false} SumSquaresNonNeg(v: seq<real>, n: nat)
    requires n <= |v|
    ensures SumProducts(v, v, n) >= 0.0
  {
    if n > 0 {
      SumSquaresNonNeg(v, n - 1);
      SquareNonNeg(v[n - 1]);
    }
  }

  method Normalize(sqrt: SqrtFn, v: seq<real>) returns (r: seq<real>)
    ensures |r| == |v|
    ensures forall i :: 0 <= i < |v| ==> r[i] == Recip(sqrt(SumProducts(v, v, |v|))) * v[i]
  {
    var n := Norm(sqrt, v);
    assert n == sqrt(SumProducts(v, v, |v|));
    r := Scale(v, Recip(n));
  }

  /** The cross product reads indices 0..2 of both arguments. */
  function Cross(a: seq<real>, b: seq<real>): (r: seq<real>)
    requires |a| >= 3 && |b| >= 3
    ensures |r| == 3
    ensures FromSeq(r) == Vector3.Cross(Vec3(a[0], a[1], a[2]), Vec3(b[0], b[1], b[2]))
  {
    [a[1] * b[2] - a[2] * b[1], a[2] * b[0] - a[0] * b[2], a[0] * b[1] - a[1] * b[0]]
  }
}

/** `Matrix.multiply` and `Matrix.pmultiply` (the same code in script.js and
    public/js/classes.js), and the 3x3 matrix the camera-relative pass
    applies to every point. The yaw and pitch builders use cos/sin and are
    not part of this model: a rotation is an arbitrary 3x3 matrix here. */
module Matrix {
  import opened Vector3
  import Vector

  /** A matrix as the source stores it: an array of rows. */
  type Rows = seq<seq<real>>

  predicate IsMatrix(m: Rows, rows: nat, cols: nat) {
    |m| == rows && forall i :: 0 <= i < |m| ==> |m[i]| == cols
  }

  /** Column j of a matrix whose rows all have more than j entries. */
  function Column(m: Rows, j: nat): (c: seq<real>)
    requires forall k :: 0 <= k < |m| ==> j < |m[k]|
    ensures |c| == |m| && forall k :: 0 <= k < |m| ==> c[k] == m[k][j]
  {
    seq(|m|, k requires 0 <= k < |m| => m[k][j])
  }

  /** An m x n matrix times an n x p matrix is the m x p matrix of row-column
      sums. The source reads `mat2[0]` as soon as `mat1` has a row, so a
      non-empty product needs a non-empty second factor. */
  method Multiply(m1: Rows, m2: Rows) returns (r: Rows)
    requires |m1| > 0 ==> |m2| > 0 && IsMatrix(m1, |m1|, |m2|) && IsMatrix(m2, |m2|, |m2[0]|)
    ensures |r| == |m1|
    ensures |m1| > 0 ==> IsMatrix(r, |m1|, |m2[0]|)
    ensures forall i, j :: 0 <= i < |r| && 0 <= j < |r[i]| ==>
              r[i][j] == Vector.SumProducts(m1[i], Column(m2, j), |m2|)
  {
    r := [];
    var i := 0;
    while i < |m1|
      invariant 0 <= i <= |m1|
      invariant |r| == i
      invariant forall a :: 0 <= a < i ==> |r[a]| == |m2[0]|
      invariant forall a, b :: 0 <= a < i && 0 <= b < |r[a]| ==>
                  r[a][b] == Vector.SumProducts(m1[a], Column(m2, b), |m2|)
    {
      var row := [];
      var j := 0;
      while j < |m2[0]|
        invariant 0 <= j <= |m2[0]|
        invariant |row| == j
        invariant forall b :: 0 <= b < j ==> row[b] == Vector.SumProducts(m1[i], Column(m2, b), |m2|)
      {
        var sum := 0.0;
        var k := 0;
        while k < |m1[0]|
          invariant 0 <= k <= |m2|
          invariant sum == Vector.SumProducts(m1[i], Column(m2, j), k)
        {
          sum := sum + m1[i][k] * m2[k][j];
          k := k + 1;
        }
        row := row + [sum];
        j := j + 1;
      }
      r := r + [row];
      i := i + 1;
    }
  }

  /** A matrix times a point: one entry per row, each the row's sum of
      products with the point. The source reads `mat[0]`, so the matrix has
      a row, and reads the point at every column index. */
  method PMultiply(mat: Rows, p: seq<real>) returns (r: seq<real>)
    requires |mat| > 0 && IsMatrix(mat, |mat|, |mat[0]|) && |mat[0]| <= |p|
    ensures |r| == |mat|
    ensures forall i :: 0 <= i < |mat| ==> r[i] == Vector.SumProducts(p, mat[i], |mat[0]|)
  {
    r := [];
    var n := |mat[0]|;
    var i := 0;
    while i < |mat|
      invariant 0 <= i <= |mat|
      invariant |r| == i
      invariant forall a :: 0 <= a < i ==> r[a] == Vector.SumProducts(p, mat[a], n)
    {
      var sum := 0.0;
      var j := 0;
      while j < n
        invariant 0 <= j <= n
        invariant sum == Vector.SumProducts(p, mat[i], j)
      {
        sum := sum + p[j] * mat[i][j];
        j := j + 1;
      }
      r := r + [sum];
      i := i + 1;
    }
  }

  // ---------------------------------------------------------------------
  // The 3x3 case used by every `relative` method.

  datatype Mat3 = Mat3(r0: Vec3, r1: Vec3, r2: Vec3)

  function ToRows(m: Mat3): (rows: Rows)
    ensures IsMatrix(rows, 3, 3)
  {
    [ToSeq(m.r0), ToSeq(m.r1), ToSeq(m.r2)]
  }

  /** `Matrix.pmultiply(m, v)` on a 3x3 matrix and a point. */
  function Apply(m: Mat3, v: Vec3): Vec3 {
    Vec3(Dot(v, m.r0), Dot(v, m.r1), Dot(v, m.r2))
  }

  /** `Apply` computes, entry by entry, what `PMultiply` computes. */
  lemma ApplyIsPMultiply(m: Mat3, v: Vec3)
    ensures forall i :: 0 <= i < 3 ==>
              At(Apply(m, v), i) == Vector.SumProducts(ToSeq(v), ToRows(m)[i], 3)
  {
    Vector.SumProductsOfThree(v, m.r0);
    Vector.SumProductsOfThree(v, m.r1);
    Vector.SumProductsOfThree(v, m.r2);
  }

  /** Applying a matrix distributes over subtraction. */
  lemma ApplySub(m: Mat3, a: Vec3, b: Vec3)
    ensures Apply(m, Sub(a, b)) == Sub(Apply(m, a), Apply(m, b))
  {
  }
}

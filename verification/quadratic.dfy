/** Scalar facts about the quadratic equations that the sphere and cylinder
    intersections solve with `Math.sqrt`. */
module Quadratics {
  import opened Vector3

  lemma ProductZero(p: real, q: real)
    requires p * q == 0.0
    ensures p == 0.0 || q == 0.0
  {
  }

  /** With root >= 0, x^2 == root^2 exactly when x is root or -root. */
  lemma SquareRoots(x: real, root: real)
    requires root >= 0.0
    ensures x * x == root * root <==> (x == root || x == -root)
  {
    if x * x == root * root {
      assert (x - root) * (x + root) == 0.0;
      ProductZero(x - root, x + root);
    }
  }

  /** (x)^2 equals a value exactly when the value is non-negative and x is
      one of its two square roots. */
  lemma SquareEquals(sqrt: SqrtFn, x: real, disc: real)
    requires ExactSqrt(sqrt)
    ensures x * x == disc <==> disc >= 0.0 && (x == sqrt(disc) || x == -sqrt(disc))
  {
    SquareNonNeg(x);
    if disc >= 0.0 {
      SquareRoots(x, sqrt(disc));
    }
  }

  /** The quadratic a t^2 + 2 b t + c with a != 0 vanishes exactly at the
      two candidates `(-b -+ sqrt(disc)) / a` for the discriminant
      `disc = b^2 - a c`, and only when that is non-negative. */
  lemma QuadraticRoots(sqrt: SqrtFn, t: real, a: real, b: real, c: real, disc: real)
    requires ExactSqrt(sqrt)
    requires a != 0.0
    requires disc == b * b - a * c
    ensures a * t * t + 2.0 * b * t + c == 0.0 <==>
      disc >= 0.0 && (t == (-b - sqrt(disc)) / a || t == (-b + sqrt(disc)) / a)
  {
    ScaledSquare(t, a, b, c, disc);
    SquareEquals(sqrt, a * t + b, disc);
    if disc >= 0.0 {
      LinearRoots(t, a, b, sqrt(disc));
    }
  }

  /** Multiplying by a non-zero a completes the square. */
  lemma ScaledSquare(t: real, a: real, b: real, c: real, disc: real)
    requires a != 0.0
    requires disc == b * b - a * c
    ensures a * t * t + 2.0 * b * t + c == 0.0 <==> (a * t + b) * (a * t + b) == disc
  {
    var q := a * t * t + 2.0 * b * t + c;
    assert a * q == (a * t + b) * (a * t + b) - disc;
    if a * q == 0.0 {
      ProductZero(a, q);
    }
  }

  /** Solving `a t + b = -+root` for t. */
  lemma LinearRoots(t: real, a: real, b: real, root: real)
    requires a != 0.0
    ensures a * t + b == -root <==> t == (-b - root) / a
    ensures a * t + b == root <==> t == (-b + root) / a
  {
  }

  /** The monic case a = 1, as the sphere uses it. */
  lemma MonicRoots(sqrt: SqrtFn, t: real, b: real, c: real, disc: real)
    requires ExactSqrt(sqrt)
    requires disc == b * b - c
    ensures t * t + 2.0 * b * t + c == 0.0 <==>
      disc >= 0.0 && (t == -b - sqrt(disc) || t == -b + sqrt(disc))
  {
    QuadraticRoots(sqrt, t, 1.0, b, c, disc);
    assert 1.0 * t * t == t * t;
  }

  /** For a positive leading coefficient the minus-root candidate is the
      smaller one. */
  lemma CandidatesOrdered(a: real, b: real, root: real)
    requires a > 0.0 && root >= 0.0
    ensures (-b - root) / a <= (-b + root) / a
  {
    assert (-b + root) / a - (-b - root) / a == (2.0 * root) / a;
  }
}

/** Square roots of reals.

    The source takes `pow(s, 0.5)` from the C maths library. Dafny's reals
    have no built-in root, so the model receives the root as a function
    `sqrt` and requires of it only what a square root is: for every s >= 0,
    sqrt(s) is non-negative and squares back to s. Because that root is
    unique (`RootUnique`), every result of the model is the same whichever
    such function is supplied.
 */
module RealRoots {

  function Sq(a: real): real
  {
    a * a
  }

  /** r is the non-negative square root of s. */
  predicate IsRoot(r: real, s: real)
  {
    0.0 <= r && Sq(r) == s
  }

  /** sqrt returns the non-negative square root of every non-negative real. */
  ghost predicate IsSqrt(sqrt: real -> real)
  {
    forall s :: 0.0 <= s ==> IsRoot(sqrt(s), s)
  }

  /** Squaring is strictly increasing on the non-negative reals. */
  lemma SquareStrictlyIncreasing(a: real, b: real)
    requires 0.0 <= a < b
    ensures a * a < b * b
  {
    var d := b - a;
    assert 0.0 < d;
    assert b * b == a * a + d * (a + b);
    assert 0.0 < d * (a + b);
  }

  /** Two non-negative square roots of the same number coincide. */
  lemma RootUnique(r: real, q: real, s: real)
    requires IsRoot(r, s) && IsRoot(q, s)
    ensures r == q
  {
    if r < q {
      SquareStrictlyIncreasing(r, q);
    } else if q < r {
      SquareStrictlyIncreasing(q, r);
    }
  }
}

/**
 Square roots over the reals, in place of the C library's `sqrt`.
 */
module Roots {

  ghost predicate IsRoot(root: real -> real) { forall x :: x >= 0.0 ==> root(x) >= 0.0 && root(x) * root(x) == x }

  lemma ProductPositive(a: real, b: real, c: real)
    requires a > 0.0 && b > 0.0 && c == a * b
    ensures c > 0.0
  {}

  lemma SquareIsZero(x: real, y: real)
    requires y == x * x
    ensures y == 0.0 <==> x == 0.0
  {
    if x < 0.0 {
      var z := -x;
      assert y == z * z;
      ProductPositive(z, z, y);
    } else if x > 0.0 {
      ProductPositive(x, x, y);
    }
  }

  lemma RootIsZero(root: real -> real, x: real)
    requires IsRoot(root) && x >= 0.0
    ensures root(x) == 0.0 <==> x == 0.0
  {
    SquareIsZero(root(x), x);
  }

  lemma SquaresGrow(a: real, b: real, c: real, d: real)
    requires 0.0 <= b < a && c == a * a && d == b * b
    ensures d < c
  {
    assert c - d == (a - b) * (a + b);
    ProductPositive(a - b, a + b, c - d);
  }

  /** A larger number has a larger root. */
  lemma RootMonotone(root: real -> real, x: real, y: real)
    requires IsRoot(root) && 0.0 <= x <= y
    ensures root(x) <= root(y)
  {
    if root(x) > root(y) { SquaresGrow(root(x), root(y), x, y); }
  }

  lemma RootPositive(root: real -> real, n: nat)
    requires IsRoot(root)
    ensures n > 0 ==> root(n as real) > 0.0
  {
    if n > 0 { RootIsZero(root, n as real); }
  }

  function Abs(x: real): (r: real)
    ensures r >= 0.0
  {
    if x < 0.0 then -x else x
  }

  /** No other number that is not negative has that square. */
  lemma RootUnique(root: real -> real, x: real, r: real)
    requires IsRoot(root) && r >= 0.0 && r * r == x
    ensures root(x) == r
  {
    assert x >= 0.0;
    if root(x) > r {
      SquaresGrow(root(x), r, x, x);
    } else if root(x) < r {
      SquaresGrow(r, root(x), x, x);
    }
  }

  lemma SquareNotLess(u: real, v: real, uu: real, vv: real)
    requires u >= 0.0 && uu == u * u && vv == v * v && vv <= uu
    ensures -u <= v <= u
  {
    if v > u {
      SquaresGrow(v, u, vv, uu);
    } else if -v > u {
      assert vv == (-v) * (-v);
      SquaresGrow(-v, u, vv, uu);
    }
  }
}

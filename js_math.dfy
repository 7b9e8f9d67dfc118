/**
 * The integer arithmetic of JavaScript numbers that the front end relies on.
 * Dafny's `/` and `%` are Euclidean; for a positive divisor `/` is JavaScript's
 * `Math.floor(a / b)`, while JavaScript's `%` truncates toward zero and takes the
 * sign of the dividend.  Numbers are modelled as exact integers (all values the
 * core handles stay far below 2^53).
 */
module JsMath {

  function Abs(x: int): (r: nat)
    ensures r == x || r == -x
  {
    if x < 0 then -x else x
  }

  /** `Math.trunc(a / b)` for a positive divisor. */
  function TruncDiv(a: int, b: int): (q: int)
    requires b > 0
    ensures Abs(q) * b <= Abs(a) < (Abs(q) + 1) * b
    ensures a >= 0 ==> q >= 0
    ensures a <= 0 ==> q <= 0
  {
    if a >= 0 then a / b else -((-a) / b)
  }

  /** JavaScript's remainder `a % b` for a positive divisor. */
  function Rem(a: int, b: int): (r: int)
    requires b > 0
    ensures a == TruncDiv(a, b) * b + r
    ensures Abs(r) < b
    ensures a >= 0 ==> r >= 0
    ensures a <= 0 ==> r <= 0
  {
    a - TruncDiv(a, b) * b
  }

  /** On a non-negative dividend JavaScript's `%` agrees with Dafny's. */
  lemma RemOfNonNegative(a: int, b: int)
    requires a >= 0 && b > 0
    ensures Rem(a, b) == a % b && TruncDiv(a, b) == a / b
  {
  }

  /** Euclidean division is determined by its quotient-remainder equation. */
  lemma DivModUnique(a: int, b: int, k: int, m: int)
    requires b > 0 && a == k * b + m && 0 <= m < b
    ensures a / b == k && a % b == m
  {
    var q, r := a / b, a % b;
    assert a == q * b + r && 0 <= r < b;
    var d := q - k;
    assert d * b == m - r by {
      assert q * b - k * b == (q - k) * b;
    }
    if d >= 1 {
      MulAtLeast(d, b);
    } else if d <= -1 {
      MulAtLeast(-d, b);
    }
  }

  lemma MulAtLeast(x: int, b: int)
    requires x >= 1 && b > 0
    ensures x * b >= b
  {
    assert x * b == (x - 1) * b + b;
  }

  /** On a negative dividend that is not a multiple of `b`, the two remainders differ by exactly `b`. */
  lemma RemOfNegative(a: int, b: int)
    requires a < 0 && b > 0 && a % b != 0
    ensures Rem(a, b) == a % b - b
    ensures TruncDiv(a, b) == a / b + 1
  {
    var q := (-a) / b;
    var r := (-a) % b;
    assert -a == q * b + r && 0 <= r < b;
    if r == 0 {
      DivModUnique(a, b, -q, 0);
    } else {
      DivModUnique(a, b, -q - 1, b - r);
    }
  }
}

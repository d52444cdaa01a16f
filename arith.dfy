/// Integer arithmetic facts the solver does not find on its own (non-linear steps).
module Arith {
  /** Multiplying both sides by a non-negative factor keeps the order. */
  lemma {:induction false} MulLe(a: int, b: int, c: int)
    requires a <= b && c >= 0
    ensures a * c <= b * c
  {
    assert b * c - a * c == (b - a) * c;
  }

  /** A nonnegative factor is at most its product with a positive integer. */
  lemma {:induction false} FactorLt(x: int, a: int, w: int)
    requires x >= 0 && a >= 1 && x * a < w
    ensures x < w
  {
    MulLe(1, a, x);
  }

  /** Row r, column q of rows w wide, with fewer than n rows, lies among the first n w places. */
  lemma {:induction false} RowMajorBound(r: int, q: int, w: int, n: int)
    requires 0 <= r < n && 0 <= q < w
    ensures 0 <= w * r + q < w * n
  {
    MulLe(0, r, w);
    MulLe(r + 1, n, w);
  }

  /** x = d * q + r with 0 <= r < d fixes the quotient and remainder. */
  lemma {:induction false} DivModUnique(x: int, d: int, q: int, r: int)
    requires d > 0 && x == d * q + r && 0 <= r < d
    ensures x / d == q && x % d == r
  {
    var q' := x / d;
    var r' := x % d;
    assert x == d * q' + r';
    if q' < q {
      MulLe(q' + 1, q, d);
      assert false;
    } else if q' > q {
      MulLe(q + 1, q', d);
      assert false;
    }
  }

  /** Dividing by a and then by b is dividing by a * b. */
  lemma {:induction false} DivDiv(x: int, a: int, b: int)
    requires x >= 0 && a > 0 && b > 0
    ensures x / a / b == x / (a * b)
    ensures x / a % b * a + x % a == x % (a * b)
  {
    var s := x / a;
    assert x == a * s + x % a;
    assert s == b * (s / b) + s % b;
    assert x == (a * b) * (s / b) + (a * (s % b) + x % a) by {
      assert a * s == a * (b * (s / b)) + a * (s % b);
    }
    MulLe(s % b, b - 1, a);
    DivModUnique(x, a * b, s / b, a * (s % b) + x % a);
  }

  /** The quotient times the divisor, plus the remainder, gives back the dividend. */
  lemma {:induction false} DivModSum(x: int, d: int)
    requires d > 0
    ensures (x / d) * d + x % d == x
  {
  }

  /** Below d * e, the quotient by d stays below e. */
  lemma {:induction false} DivLt(x: int, d: int, e: int)
    requires x >= 0 && d > 0 && x < d * e
    ensures x / d < e
  {
    var q := x / d;
    assert x == d * q + x % d;
    if q >= e {
      MulLe(e, q, d);
      assert false;
    }
  }

  /** A non-negative number divided by a positive one is non-negative. */
  lemma {:induction false} DivNonneg(x: int, d: int)
    requires x >= 0 && d > 0
    ensures x / d >= 0
  {
    var q := x / d;
    assert x == d * q + x % d;
    if q < 0 {
      MulLe(q, -1, d);
      assert false;
    }
  }

  /** A positive factor cancels from both sides of an equation. */
  lemma {:induction false} MulCancel(a: int, x: int, y: int)
    requires a > 0 && a * x == a * y
    ensures x == y
  {
    if x < y {
      MulLe(x + 1, y, a);
      assert false;
    } else if y < x {
      MulLe(y + 1, x, a);
      assert false;
    }
  }

  /** p k + b (p e) = p (k + b e). */
  lemma {:induction false} ScaleSum(p: int, k: int, b: int, e: int)
    ensures p * k + b * (p * e) == p * (k + b * e)
  {
    assert b * (p * e) == p * (b * e);
  }

  /** A quotient below e and a remainder below d make a number below e d. */
  lemma {:induction false} MixedBound(q: int, r: int, d: int, e: int)
    requires 0 <= q < e && 0 <= r < d
    ensures 0 <= q * d + r < e * d
  {
    MulLe(q + 1, e, d);
    MulLe(0, q, d);
  }

  /** Division by a positive number keeps the order. */
  lemma {:induction false} DivMono(a: int, b: int, d: int)
    requires a <= b && d > 0
    ensures a / d <= b / d
  {
    var qa, qb := a / d, b / d;
    assert a == d * qa + a % d && b == d * qb + b % d;
    if qa > qb {
      MulLe(qb + 1, qa, d);
      assert false;
    }
  }
}

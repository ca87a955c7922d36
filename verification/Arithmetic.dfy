/** Words, powers, and division facts the solver does not find by itself. */
module Arithmetic {

  /** Number of values of a 64-bit word. */
  const WORD: nat := 0x1_0000_0000_0000_0000

  type Word = w: nat | w < WORD

  lemma NonZeroMultiple(d: int, n: int)
    requires n > 0 && d != 0
    ensures d * n >= n || d * n <= -n
  {
    if d > 0 {
      assert (d - 1) * n >= 0;
    } else {
      assert (-d - 1) * n >= 0;
    }
  }

  /** x == q * n + r with 0 <= r < n determines quotient and remainder. */
  lemma DivMod(x: int, n: int, q: int, r: int)
    requires n > 0 && 0 <= r < n && x == q * n + r
    ensures x / n == q && x % n == r
  {
    var d := x / n - q;
    assert d * n == r - x % n;
    if d != 0 {
      NonZeroMultiple(d, n);
    }
  }

  lemma ProductPositive(a: int, b: int)
    requires a > 0 && b > 0
    ensures a * b > 0
  {
  }

  lemma Regroup(q: int, b: int, r: int, a: int)
    requires 0 <= r < b && a > 0
    ensures (q * b + r) * a == q * (a * b) + r * a && 0 <= r * a <= a * b - a
  {
    Distribute(q * b, r, a);
    assert q * b * a == q * (a * b);
    MulMonotone(0, r, a);
    MulMonotone(r, b - 1, a);
    Distribute(b, -1, a);
  }

  lemma Distribute(x: int, y: int, a: int)
    ensures (x + y) * a == x * a + y * a
  {
  }

  lemma MulMonotone(x: int, y: int, a: int)
    requires x <= y && a >= 0
    ensures x * a <= y * a
  {
    Distribute(y - x, x, a);
    assert (y - x) * a >= 0;
  }

  /** Dividing by a product is dividing twice. */
  lemma SubIndex(v: nat, a: nat, b: nat)
    requires a > 0 && b > 0
    ensures a * b > 0 && v / (a * b) == v / a / b
  {
    ProductPositive(a, b);
    Regroup(v / a / b, b, v / a % b, a);
    DivMod(v, a * b, v / a / b, (v / a % b) * a + v % a);
  }

  lemma AddMultiple(e: int, n: int, m: int)
    requires n > 0
    ensures (e + m * n) / n == e / n + m && (e + m * n) % n == e % n
  {
    assert (e / n + m) * n == (e / n) * n + m * n;
    DivMod(e + m * n, n, e / n + m, e % n);
  }

  // ---------------------------------------------------------------- powers

  function Power(b: nat, e: nat): (p: int)
    requires b > 0
    ensures p > 0
  {
    if e == 0 then 1 else ProductPositive(b, Power(b, e - 1)); b * Power(b, e - 1)
  }

  lemma PowerOfTwo(e: nat)
    requires e > 0
    ensures Power(2, e) == 2 * Power(2, e - 1)
  {
  }

  lemma {:induction false} PowerSum(b: nat, e: nat, f: nat)
    requires b > 0
    ensures Power(b, e + f) == Power(b, e) * Power(b, f)
  {
    if e > 0 {
      PowerSum(b, e - 1, f);
      assert Power(b, e) * Power(b, f) == b * (Power(b, e - 1) * Power(b, f));
    }
  }

  lemma {:induction false} PowerMonotone(a: nat, b: nat, e: nat)
    requires 0 < a <= b
    ensures Power(a, e) <= Power(b, e)
  {
    if e > 0 {
      PowerMonotone(a, b, e - 1);
      MulMonotone(a, b, Power(a, e - 1));
      MulMonotone(Power(a, e - 1), Power(b, e - 1), b);
    }
  }

  lemma {:induction false} PowerAbove(r: nat, e: nat)
    requires r >= 3 && e >= 1
    ensures Power(2, e) < Power(r, e)
  {
    if e > 1 {
      PowerAbove(r, e - 1);
      MulMonotone(Power(2, e - 1) + 1, Power(r, e - 1), r);
      MulMonotone(2, r, Power(2, e - 1) + 1);
    } else {
      assert Power(2, 1) == 2 && Power(r, 1) == r * Power(r, 0);
    }
  }
}

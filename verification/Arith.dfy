/** Powers, and the few facts about division that the proofs lean on. */
module Arith {

  function Pow(b: nat, e: nat): (p: nat)
    ensures b > 0 ==> p > 0
    decreases e, b
  {
    if e == 0 then 1 else b * Pow(b, e - 1)
  }

  lemma {:induction false} PowAdd(b: nat, m: nat, n: nat)
    ensures Pow(b, m + n) == Pow(b, m) * Pow(b, n)
    decreases m
  {
    if m != 0 {
      PowAdd(b, m - 1, n);
      assert m + n - 1 == (m - 1) + n;
    }
  }

  lemma MulAtLeast(k: int, d: int)
    requires k >= 1 && d > 0
    ensures k * d >= d
  {
  }

  /** Euclidean division is determined by its defining equation. */
  lemma DivModUnique(a: int, d: int, q: int, r: int)
    requires d > 0 && a == q * d + r && 0 <= r < d
    ensures a / d == q && a % d == r
  {
    var k := a / d - q;
    assert k * d == r - a % d by {
      assert a == a / d * d + a % d;
      assert k * d == a / d * d - q * d;
    }
    if k >= 1 {
      MulAtLeast(k, d);
    } else if k <= -1 {
      MulAtLeast(-k, d);
    }
  }

  lemma ModAddMultiple(a: nat, n: nat, m: nat)
    requires n > 0
    ensures (a + n * m) % n == a % n
  {
    assert a + n * m == (a / n + m) * n + a % n;
    DivModUnique(a + n * m, n, a / n + m, a % n);
  }

  lemma ModOfSum(x: nat, y: nat, n: nat)
    requires n > 0
    ensures (x % n + y) % n == (x + y) % n
  {
    ModAddMultiple(x % n + y, n, x / n);
    assert x == n * (x / n) + x % n;
  }

  lemma ModDouble(x: nat, m: nat)
    requires m > 0
    ensures x % (2 * m) == x % 2 + 2 * (x / 2 % m)
  {
    var q, t := x / 2 / m, x / 2 % m;
    assert x / 2 == q * m + t;
    assert x == q * (2 * m) + (x % 2 + 2 * t);
    DivModUnique(x, 2 * m, q, x % 2 + 2 * t);
  }
}

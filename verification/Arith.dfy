/** Division, remainder and powers of two: the few facts the other modules share. */
module Arith {

  lemma {:induction false} MulLe(a: int, b: int, n: int)
    requires a <= b && 0 <= n
    ensures a * n <= b * n
  {
    assert 0 <= (b - a) * n;
  }

  /** The quotient and remainder of a division are determined by their defining equation. */
  lemma {:induction false} DivModUnique(a: int, n: int, q: int, r: int)
    requires 0 <= r < n && a == q * n + r
    ensures a / n == q && a % n == r
  {
    var d := a / n;
    assert a == d * n + a % n;
    assert (d + 1) * n == d * n + n && (q + 1) * n == q * n + n;
    if d < q {
      MulLe(d + 1, q, n);
    } else if q < d {
      MulLe(q + 1, d, n);
    }
  }

  lemma {:induction false} ModSucc(a: int, n: int)
    requires 0 < n
    ensures (a % n + 1) % n == (a + 1) % n
  {
    var q := a / n;
    if a % n + 1 < n {
      DivModUnique(a + 1, n, q, a % n + 1);
      DivModUnique(a % n + 1, n, 0, a % n + 1);
    } else {
      DivModUnique(n, n, 1, 0);
      assert (q + 1) * n == q * n + n;
      DivModUnique(a + 1, n, q + 1, 0);
    }
  }

  /** Two numbers less than n apart differ modulo n. */
  lemma {:induction false} ModApart(a: int, b: int, n: int)
    requires 0 < b - a < n
    ensures a % n != b % n
  {
    if a % n + (b - a) < n {
      DivModUnique(b, n, a / n, a % n + (b - a));
    } else {
      assert (a / n + 1) * n == (a / n) * n + n;
      DivModUnique(b, n, a / n + 1, a % n + (b - a) - n);
    }
  }

  lemma {:induction false} ModAddMultiple(a: int, k: int, n: int)
    requires 0 < n
    ensures (a + k * n) % n == a % n
    ensures (a + k * n) / n == a / n + k
  {
    assert (a / n + k) * n == (a / n) * n + k * n;
    DivModUnique(a + k * n, n, a / n + k, a % n);
  }

  function Pow2(k: nat): (p: nat)
    ensures p >= 1
  {
    if k == 0 then 1 else 2 * Pow2(k - 1)
  }

  lemma {:induction false} MulAssoc(a: int, b: int, c: int)
    ensures a * (b * c) == (a * b) * c
  {
  }

  lemma {:induction false} Pow2Add(j: nat, k: nat)
    ensures Pow2(j + k) == Pow2(j) * Pow2(k)
  {
    if j > 0 {
      Pow2Add(j - 1, k);
      MulAssoc(2, Pow2(j - 1), Pow2(k));
    }
  }
}

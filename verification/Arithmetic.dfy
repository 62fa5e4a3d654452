/**
  * The machine word, powers of two, and division facts the solver does not find by itself when the divisor is
  * not a constant.
  */
module Arithmetic {
  /** The number of values of a 32-bit word. */
  const WORD: int := 0x1_0000_0000

  function Pow2(n: nat): (p: nat)
    ensures p > 0
  {
    if n == 0 then 1 else 2 * Pow2(n - 1)
  }

  lemma {:induction false} Pow2Add(m: nat, n: nat)
    ensures Pow2(m + n) == Pow2(m) * Pow2(n) > 0
  {
    if m > 0 {
      Pow2Add(m - 1, n);
      var a, b := Pow2(m - 1), Pow2(n);
      assert Pow2(m) == 2 * a && Pow2(m + n) == 2 * Pow2(m - 1 + n);
      hide Pow2;
      TwiceProduct(a, b);
    }
  }

  lemma TwiceProduct(a: nat, b: nat)
    requires a > 0 && b > 0
    ensures 2 * (a * b) == (2 * a) * b > 0
  {
  }

  lemma DivMod(a: nat, n: nat)
    requires n > 0
    ensures a == n * (a / n) + a % n && 0 <= a % n < n && 0 <= a / n
  {
  }

  lemma MulOrder(n: nat, d: int)
    requires n > 0
    ensures d > 0 ==> n * d >= n
    ensures d < 0 ==> n * d <= 0 - n
  {
  }

  lemma WordMod(x: int, q: int, r: int)
    requires x == q * WORD + r && 0 <= r < WORD
    ensures x % WORD == r
  {
  }

  /** Quotient and remainder are determined by a == n * q + r. */
  lemma DivUnique(a: nat, n: nat, q: nat, r: nat)
    requires n > 0 && a == n * q + r && r < n
    ensures a / n == q && a % n == r
  {
    DivMod(a, n);
    assert n * (q - a / n) == a % n - r;
    MulOrder(n, q - a / n);
  }

  lemma DivBelow(a: nat, n: nat, m: nat)
    requires n > 0 && a < n * m
    ensures a / n < m
  {
    DivMod(a, n);
    assert n * (m - a / n) > 0;
    MulOrder(n, m - a / n);
  }

  /** Reducing by a multiple of p first does not change the remainder by p. */
  lemma ModTwice(x: nat, p: nat, q: nat)
    requires p > 0 && q > 0 && p * q > 0
    ensures x % (p * q) % p == x % p
  {
    var w := p * q;
    DivMod(x, w);
    var a, b := x / w, x % w;
    DivMod(b, p);
    Regroup(p, q, a, b / p);
    DivUnique(x, p, q * a + b / p, b % p);
  }

  lemma Regroup(p: int, q: int, a: nat, b: nat)
    requires q > 0
    ensures p * q * a + p * b == p * (q * a + b) && q * a + b >= 0
  {
    assert p * q * a == p * (q * a);
  }
}

/** Integer widths. */
module Widths {
  const U32: nat := 0x1_0000_0000
  const U64: nat := 0x1_0000_0000_0000_0000

  function Pow2(k: nat): (p: nat)
    ensures p > 0
  {
    if k == 0 then 1 else 2 * Pow2(k - 1)
  }

  lemma OutsideOne(k: int, d: int)
    requires d > 0
    ensures (k >= 1 ==> k * d >= d) && (k <= -1 ==> k * d <= -d)
  {
  }

  /** Quotient and remainder are determined by the equation between them. */
  lemma DivMod(n: int, d: int, q: int, r: int)
    requires d > 0 && n == q * d + r && 0 <= r < d
    ensures n / d == q && n % d == r
  {
    OutsideOne(n / d - q, d);
    assert (n / d - q) * d == r - n % d;
  }

  lemma Regrouped(a: nat, b: nat, q: nat, r: nat, s: nat, n: nat)
    requires n == (b * q + r) * a + s && r < b && s < a
    ensures n == q * (a * b) + (r * a + s) && r * a + s < a * b
  {
    assert r * a <= (b - 1) * a;
  }

  lemma DivideTwice(n: nat, a: nat, b: nat)
    requires a > 0 && b > 0
    ensures n / a / b == n / (a * b)
  {
    var q, r, s := n / a / b, n / a % b, n % a;
    Regrouped(a, b, q, r, s, n);
    DivMod(n, a * b, q, r * a + s);
  }
}

/** Facts about products, quotients and powers of two that the solver does not find by itself. */
module Arith {

  const U32 := 0x1_0000_0000
  const U64 := 0x1_0000_0000_0000_0000

  /** A number kept in a signed 32-bit word. */
  function Int32(x: int): (r: int)
    ensures -0x8000_0000 <= r < 0x8000_0000 && r % U32 == x % U32
  {
    var m := x % U32;
    if m < 0x8000_0000 then m else m - U32
  }

  function Pow2(n: nat): (r: nat)
    ensures r > 0
  {
    if n == 0 then 1 else 2 * Pow2(n - 1)
  }

  lemma {:induction false} Pow2Adds(a: nat, b: nat)
    ensures Pow2(a + b) == Pow2(a) * Pow2(b)
  {
    if a > 0 {
      Pow2Adds(a - 1, b);
      assert Pow2(a - 1) * Pow2(b) * 2 == Pow2(a) * Pow2(b);
    }
  }

  lemma {:induction false} Pow2Monotone(a: nat, b: nat)
    requires a <= b
    ensures Pow2(a) <= Pow2(b)
  {
    if a < b { Pow2Monotone(a, b - 1); }
  }

  lemma WordSizes()
    ensures Pow2(8) == 0x100 && Pow2(16) == 0x1_0000 && Pow2(32) == U32 && Pow2(64) == U64
  {
    assert Pow2(8) == 0x100;
    Pow2Adds(8, 8);
    Pow2Adds(16, 16);
    Pow2Adds(32, 32);
  }

  function Pow256(n: nat): (r: nat)
    ensures r > 0
  {
    if n == 0 then 1 else 256 * Pow256(n - 1)
  }

  function Quotient(x: nat, d: nat): nat
    requires d > 0
  {
    x / d
  }

  lemma QuotientSplits(x: nat, d: nat)
    requires d > 0
    ensures x == Quotient(x, d) * d + x % d
  {
  }

  lemma Distributes(a: int, b: int, k: int)
    ensures (a + b) * k == a * k + b * k
  {
  }

  lemma FactorBound(d: int, k: int)
    requires k > 0
    ensures d > 0 ==> d * k >= k
    ensures d < 0 ==> d * k <= -k
  {
  }

  lemma QuotientUnique(c: int, d: int, q: int, r: int)
    requires d > 0 && c == q * d + r && 0 <= r < d
    ensures c / d == q && c % d == r
  {
    assert (c / d - q) * d == r - c % d;
    FactorBound(c / d - q, d);
  }

  lemma ProductIsMultiple(q: int, m: int)
    requires m > 0
    ensures (q * m) % m == 0 && (q * m) / m == q
  {
    QuotientUnique(q * m, m, q, 0);
  }

  lemma DivTwice(c: nat, p: nat)
    requires p > 0
    ensures c / (2 * p) == c / 2 / p
  {
    var q, r := c / 2 / p, c / 2 % p;
    assert c == 2 * (q * p + r) + c % 2;
    assert c == q * (2 * p) + (2 * r + c % 2);
    QuotientUnique(c, 2 * p, q, 2 * r + c % 2);
  }
}

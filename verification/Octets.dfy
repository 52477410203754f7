/** Fixed-width unsigned integers, as the modelled C code stores them, and their digits. */
module Octets {
  type Byte = b: int | 0 <= b < 0x100
  type U16 = x: int | 0 <= x < 0x1_0000
  type U32 = x: int | 0 <= x < 0x1_0000_0000

  lemma MulGap(n: nat, a: nat, b: nat)
    requires a < b
    ensures n * a + n <= n * b
  {
    var e := b - a - 1;
    assert n * b == n * (a + 1 + e) == n * a + n + n * e;
    assert n * e >= 0;
  }

  lemma QuotientIsUnique(n: nat, q: nat, r: nat, q2: nat, r2: nat)
    requires r < n && r2 < n && n * q + r == n * q2 + r2
    ensures q == q2 && r == r2
  {
    if q < q2 {
      MulGap(n, q, q2);
    } else if q2 < q {
      MulGap(n, q2, q);
    }
  }

  // Quotient and remainder are what they are.
  lemma DivIs(h: nat, n: nat, q: nat, r: nat)
    requires r < n && h == n * q + r
    ensures h / n == q && h % n == r
  {
    QuotientIsUnique(n, q, r, h / n, h % n);
  }
}

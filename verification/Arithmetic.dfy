/** Division by a variable divisor, powers of two, and the bitwise "or" used to round a file position up to a cluster
    boundary. */
module Arithmetic {

  function Min(a: int, b: int): int {
    if a < b then a else b
  }

  lemma DivMod(i: nat, d: nat)
    requires d > 0
    ensures i == i / d * d + i % d && 0 <= i % d < d && i / d >= 0
  {}

  lemma DivModUnique(q: nat, r: nat, d: nat)
    requires r < d
    ensures (q * d + r) / d == q && (q * d + r) % d == r
  {
    var i := q * d + r;
    DivMod(i, d);
    MulGap(i / d, q, d);
    MulGap(q, i / d, d);
  }

  lemma {:induction false} MulGap(a: nat, b: nat, d: nat)
    ensures a < b ==> a * d + d <= b * d
    ensures a <= b ==> a * d <= b * d
  {
    if a < b {
      assert b * d == (b - 1) * d + d;
      MulGap(a, b - 1, d);
    }
  }

  lemma OneMore(k: nat, d: nat)
    ensures (k + 1) * d == k * d + d
  {}

  lemma DivBelow(i: nat, n: nat, d: nat)
    requires d > 0 && i < n * d
    ensures i / d < n
  {
    DivMod(i, d);
    MulGap(n, i / d, d);
  }

  function Pow2(k: nat): (p: nat)
    ensures p >= 1
  {
    if k == 0 then 1 else 2 * Pow2(k - 1)
  }

  /** x | y on unbounded unsigned numbers. */
  function BitOr(x: nat, y: nat): nat {
    if x == 0 then y
    else 2 * BitOr(x / 2, y / 2) + (if x % 2 == 1 || y % 2 == 1 then 1 else 0)
  }

  /** Last position of the p-aligned block that holds x. */
  function BlockEnd(x: nat, p: nat): nat
    requires p > 0
  {
    x / p * p + p - 1
  }

  /** x | (2^k - 1) is the last position of the 2^k-aligned block that holds x. */
  lemma {:induction false} OrLowMask(x: nat, k: nat)
    ensures BitOr(x, Pow2(k) - 1) == BlockEnd(x, Pow2(k))
    decreases k
  {
    hide BitOr, BlockEnd;
    if x == 0 {
      OrIntoZero(Pow2(k));
    } else if k == 0 {
      OrZero(x);
      OneBlock(x);
    } else {
      OrLowMask(x / 2, k - 1);
      OrStep(x, Pow2(k - 1), Pow2(k));
    }
  }

  lemma OrIntoZero(p: nat)
    requires p > 0
    ensures BitOr(0, p - 1) == BlockEnd(0, p)
  {
    DivModUnique(0, 0, p);
  }

  lemma OneBlock(x: nat)
    ensures BlockEnd(x, 1) == x
  {}

  lemma OrStep(x: nat, q: nat, p: nat)
    requires x > 0 && q > 0 && p == 2 * q && BitOr(x / 2, q - 1) == BlockEnd(x / 2, q)
    ensures BitOr(x, p - 1) == BlockEnd(x, p)
  {
    hide BitOr;
    OrOdd(x, q, x / 2 / q);
    HalfQuotient(x, q);
  }

  lemma OrOdd(x: nat, q: nat, d: nat)
    requires x > 0 && q > 0 && BitOr(x / 2, q - 1) == d * q + q - 1
    ensures BitOr(x, 2 * q - 1) == d * (2 * q) + 2 * q - 1
  {
    assert (2 * q - 1) / 2 == q - 1;
    DoubleProduct(d, q);
  }

  lemma {:induction false} OrZero(x: nat)
    ensures BitOr(x, 0) == x
  {
    if x > 0 { OrZero(x / 2); }
  }

  lemma DoubleProduct(d: nat, q: nat)
    ensures 2 * (d * q) == d * (2 * q)
  {}

  lemma HalfQuotient(x: nat, q: nat)
    requires q > 0
    ensures x / 2 / q == x / (2 * q)
  {
    var h, d := x / 2, x / 2 / q;
    var r := 2 * (h % q) + x % 2;
    DivMod(h, q);
    assert x == d * (2 * q) + r;
    DivModUnique(d, r, 2 * q);
  }
}

/** JavaScript's bitwise operators on non-negative numbers, defined bit by bit. */
module JsBits {

  function Pow2(k: nat): (p: nat)
    ensures p >= 1
  {
    if k == 0 then 1 else 2 * Pow2(k - 1)
  }

  /** Bitwise or. */
  function Or(a: nat, b: nat): nat {
    if a == 0 then b else 2 * Or(a / 2, b / 2) + (if a % 2 == 1 || b % 2 == 1 then 1 else 0)
  }

  /** Bitwise exclusive or. */
  function Xor(a: nat, b: nat): nat {
    if a == 0 then b else 2 * Xor(a / 2, b / 2) + (if a % 2 == b % 2 then 0 else 1)
  }

  /** Shift left by k. */
  function Shl(v: nat, k: nat): nat {
    if k == 0 then v else 2 * Shl(v, k - 1)
  }

  /** Shift right by k. */
  function Shr(v: nat, k: nat): nat {
    if k == 0 then v else Shr(v / 2, k - 1)
  }

  /** Bitwise and with 2^k - 1. */
  function Low(v: nat, k: nat): nat {
    if k == 0 then 0 else v % 2 + 2 * Low(v / 2, k - 1)
  }

  /** A number fits in k bits exactly when shifting it right by k leaves nothing. */
  lemma {:induction false} ShrZero(v: nat, k: nat)
    ensures Shr(v, k) == 0 <==> v < Pow2(k)
  {
    if k > 0 {
      ShrZero(v / 2, k - 1);
    }
  }

  lemma {:induction false} ShrAdd(v: nat, i: nat, j: nat)
    ensures Shr(Shr(v, i), j) == Shr(v, i + j)
  {
    if i > 0 {
      ShrAdd(v / 2, i - 1, j);
    }
  }

  lemma QuotientIs(v: nat, d: nat, q: nat, r: nat)
    requires v == q * d + r && r < d
    ensures v / d == q
  {
    var k := v / d - q;
    assert k * d == r - v % d;
    AtLeastOnce(k, d);
  }

  lemma AtLeastOnce(k: int, d: int)
    requires d > 0
    ensures (k >= 1 ==> k * d >= d) && (k <= -1 ==> k * d <= -d)
  {
  }

  lemma HalvedQuotient(v: nat, p: nat)
    requires p > 0
    ensures v / 2 / p == v / (2 * p)
  {
    var q, r := v / 2 / p, v / 2 % p;
    Doubled(q, p);
    QuotientIs(v, 2 * p, q, 2 * r + v % 2);
  }

  /** Shifting right by k divides by 2^k. */
  lemma {:induction false} ShrDivides(v: nat, k: nat)
    ensures Shr(v, k) == v / Pow2(k)
  {
    if k > 0 {
      ShrDivides(v / 2, k - 1);
      HalvedQuotient(v, Pow2(k - 1));
    }
  }

  lemma {:induction false} ShlOfZero(k: nat)
    ensures Shl(0, k) == 0
  {
    if k > 0 {
      ShlOfZero(k - 1);
    }
  }

  lemma OrHalf(a: nat, b: nat)
    ensures Or(a, b) / 2 == Or(a / 2, b / 2)
    ensures Or(a, b) % 2 == 1 <==> a % 2 == 1 || b % 2 == 1
  {
  }

  lemma {:induction false} OrZero(a: nat)
    ensures Or(a, 0) == a
  {
    if a > 0 {
      OrZero(a / 2);
    }
  }

  lemma XorHalf(a: nat, b: nat)
    ensures Xor(a, b) / 2 == Xor(a / 2, b / 2)
    ensures Xor(a, b) % 2 == 1 <==> a % 2 != b % 2
  {
  }

  lemma {:induction false} XorZero(a: nat)
    ensures Xor(a, 0) == a
  {
    if a > 0 {
      XorZero(a / 2);
    }
  }

  /** Exclusive or with all ones turns a word over. */
  lemma {:induction false} XorOnes(a: nat, k: nat)
    requires a < Pow2(k)
    ensures Xor(a, Pow2(k) - 1) == Pow2(k) - 1 - a
  {
    if k > 0 {
      XorHalf(a, Pow2(k) - 1);
      assert (Pow2(k) - 1) / 2 == Pow2(k - 1) - 1;
      XorOnes(a / 2, k - 1);
    }
  }

  /** Shift right by k, keeping the sign. */
  function Sar(n: int, k: nat): int
    decreases k
  {
    if k == 0 then n else Sar(n / 2, k - 1)
  }

  lemma {:induction false} SarSign(n: int, k: nat)
    requires 0 <= n + Pow2(k) && n < Pow2(k)
    ensures Sar(n, k) == if n < 0 then -1 else 0
    decreases k
  {
    if k > 0 {
      SarSign(n / 2, k - 1);
    }
  }

  /** A field shifted past the bits below it is joined by addition. */
  lemma {:induction false} OrAdds(a: nat, b: nat, k: nat)
    requires a < Pow2(k)
    ensures Or(a, Shl(b, k)) == a + b * Pow2(k)
    decreases k
  {
    if k > 0 {
      OrHalf(a, Shl(b, k));
      OrAdds(a / 2, b, k - 1);
      assert Shl(b, k) / 2 == Shl(b, k - 1);
      Doubled(b, Pow2(k - 1));
    }
  }

  lemma Doubled(b: nat, p: nat)
    ensures b * (2 * p) == 2 * (b * p)
  {
  }

  lemma {:induction false} Pow2Sum(i: nat, j: nat)
    ensures Pow2(i + j) == Pow2(i) * Pow2(j)
  {
    if i > 0 {
      Pow2Sum(i - 1, j);
      Doubled(Pow2(j), Pow2(i - 1));
    }
  }

  lemma Pow2Square(i: nat, k: nat, p: nat)
    requires k == i + i && Pow2(i) == p
    ensures Pow2(k) == p * p
  {
    Pow2Sum(i, i);
  }

  lemma Pow2Sixteen()
    ensures Pow2(16) == 0x1_0000
  {
    assert Pow2(8) == 0x100;
    Pow2Square(8, 16, 0x100);
  }
}

/**
  The field GF(256) as the QR encoder builds it: an EXP table filled by a recurrence, a LOG table
  filled by inverting it, and products taken through logarithms. The lemmas show that this
  table arithmetic really is a field, so that polynomials over it behave.
 */
module Galois {

  /** Multiplication by x modulo x^8 + x^4 + x^3 + x^2 + 1. */
  function TimesX(a: bv8): bv8 {
    (a << 1) ^ (0x1D & (0 - (a >> 7)))
  }

  /** Multiplication by x^k. */
  function Shift(k: nat, a: bv8): bv8 {
    if k == 0 then a else Shift(k - 1, TimesX(a))
  }

  /** The i-th power of the primitive element x. */
  function Alpha(i: nat): bv8 {
    Shift(i, 1)
  }

  /** The first power that the polynomial reduces. */
  lemma AlphaEight(i: nat)
    requires i == 8
    ensures Alpha(i) == 0x1D
  {
    assert Alpha(8) == Shift(7, TimesX(1)) == Shift(6, 4) == Shift(5, 8) == Shift(4, 0x10);
    assert Shift(4, 0x10) == Shift(3, 0x20) == Shift(2, 0x40) == Shift(1, 0x80) == Shift(0, 0x1D);
  }

  lemma TimesXLinear(a: bv8, b: bv8, c: bv8)
    requires c == a ^ b
    ensures TimesX(c) == TimesX(a) ^ TimesX(b)
  {
  }

  lemma {:induction false} ShiftSum(k: nat, a: bv8, b: bv8, c: bv8)
    requires c == a ^ b
    ensures Shift(k, c) == Shift(k, a) ^ Shift(k, b)
  {
    if k > 0 {
      TimesXLinear(a, b, c);
      ShiftSum(k - 1, TimesX(a), TimesX(b), TimesX(c));
    }
  }

  lemma ShiftLinear(k: nat, a: bv8, b: bv8)
    ensures Shift(k, a ^ b) == Shift(k, a) ^ Shift(k, b)
  {
    ShiftSum(k, a, b, a ^ b);
  }

  lemma {:induction false} ShiftAdd(j: nat, k: nat, a: bv8)
    ensures Shift(j + k, a) == Shift(j, Shift(k, a))
  {
    if k > 0 {
      ShiftAdd(j, k - 1, TimesX(a));
    }
  }

  lemma {:induction false} ShiftZero(k: nat)
    ensures Shift(k, 0) == 0
  {
    if k > 0 {
      ShiftZero(k - 1);
    }
  }

  lemma {:induction false} ShiftNonzero(k: nat, a: bv8)
    requires a != 0
    ensures Shift(k, a) != 0
  {
    if k > 0 {
      ShiftNonzero(k - 1, TimesX(a));
    }
  }

  lemma AlphaAdd(j: nat, k: nat)
    ensures Alpha(j + k) == Shift(j, Alpha(k))
  {
    ShiftAdd(j, k, 1);
  }

  lemma AlphaSmall()
    ensures Alpha(0) == 1 && Alpha(1) == 2 && Alpha(2) == 4 && Alpha(3) == 8 && Alpha(4) == 16
    ensures Alpha(5) == 32 && Alpha(6) == 64 && Alpha(7) == 128 && Alpha(8) == 0x1D
  {
  }

  lemma ShiftSplit(k: nat)
    ensures Shift(k, 0x1D) == Shift(k, 16) ^ Shift(k, 8) ^ Shift(k, 4) ^ Shift(k, 1)
  {
    ShiftLinear(k, 0x1C, 1);
    ShiftLinear(k, 0x18, 4);
    ShiftLinear(k, 16, 8);
  }

  /** The recurrence that fills the EXP table steps through the powers of x. */
  lemma AlphaRecurrence(i: nat)
    requires i >= 8
    ensures Alpha(i) == Alpha(i - 4) ^ Alpha(i - 5) ^ Alpha(i - 6) ^ Alpha(i - 8)
  {
    AlphaSmall();
    AlphaAdd(i - 8, 8);
    AlphaAdd(i - 8, 4);
    AlphaAdd(i - 8, 3);
    AlphaAdd(i - 8, 2);
    ShiftSplit(i - 8);
  }

  // ---------- the order of x is 255 ----------

  function X8(a: bv8): bv8 {
    TimesX(TimesX(TimesX(TimesX(TimesX(TimesX(TimesX(TimesX(a))))))))
  }

  lemma ShiftEight(k: nat, a: bv8)
    ensures Shift(k + 8, a) == Shift(k, X8(a))
  {
    var b := TimesX(TimesX(a));
    var c := TimesX(TimesX(b));
    var d := TimesX(TimesX(c));
    assert Shift(k + 8, a) == Shift(k + 6, b);
    assert Shift(k + 6, b) == Shift(k + 4, c);
    assert Shift(k + 4, c) == Shift(k + 2, d);
    assert Shift(k + 2, d) == Shift(k, TimesX(TimesX(d)));
  }

  /** The powers of x^8. */
  function Octave(i: nat): bv8 {
    if i == 0 then 1 else X8(Octave(i - 1))
  }

  lemma {:induction false} AlphaOctave(i: nat, k: nat)
    ensures Alpha(8 * i + k) == Shift(k, Octave(i))
  {
    if i > 0 {
      AlphaOctave(i - 1, k + 8);
      ShiftEight(k, Octave(i - 1));
    }
  }

  lemma OctaveValues()
    ensures Octave(1) == 0x1D && Octave(6) == 0x46 && Octave(10) == 0xFD && Octave(31) == 0x1B
  {
    assert Octave(5) == 0x6A;
    assert Octave(10) == 0xFD;
    assert Octave(15) == 0x3B;
    assert Octave(20) == 0xE6;
    assert Octave(25) == 0x1C;
  }

  lemma AlphaLandmarks()
    ensures Alpha(255) == 1 && Alpha(15) == 0x26 && Alpha(51) == 0x0A && Alpha(85) == 0xD6
  {
    OctaveValues();
    AlphaOctave(31, 7);
    AlphaOctave(1, 7);
    AlphaOctave(6, 3);
    AlphaOctave(10, 5);
  }

  lemma {:induction false} AlphaMultiple(d: nat, m: nat)
    requires Alpha(d) == 1
    ensures Alpha(d * m) == 1
  {
    if m > 0 {
      AlphaMultiple(d, m - 1);
      AlphaAdd(d * (m - 1), d);
      assert d * m == d * (m - 1) + d;
    }
  }

  lemma AlphaWraps(i: nat, q: nat)
    ensures Alpha(i + 255 * q) == Alpha(i)
  {
    AlphaLandmarks();
    AlphaMultiple(255, q);
    AlphaAdd(i, 255 * q);
  }

  /** If x^d = 1 and some multiple of d is c modulo 255, then x^c = 1. */
  lemma PowerReduces(d: nat, m: nat, k: nat, c: nat)
    requires Alpha(d) == 1
    requires d * m == c + 255 * k
    ensures Alpha(c) == 1
  {
    AlphaMultiple(d, m);
    AlphaWraps(c, k);
  }

  /** An exponent not divisible by 17 has a multiple that is 15 modulo 255. */
  lemma ReducesTo15(d: nat)
    requires Alpha(d) == 1 && d % 17 != 0
    ensures Alpha(15) == 1
  {
    var q, r := d / 17, d % 17;
    if r == 1 {
      PowerReduces(d, 15, 1 * q + 0, 15);
    } else if r == 2 {
      PowerReduces(d, 135, 9 * q + 1, 15);
    } else if r == 3 {
      PowerReduces(d, 90, 6 * q + 1, 15);
    } else if r == 4 {
      PowerReduces(d, 195, 13 * q + 3, 15);
    } else if r == 5 {
      PowerReduces(d, 105, 7 * q + 2, 15);
    } else if r == 6 {
      PowerReduces(d, 45, 3 * q + 1, 15);
    } else if r == 7 {
      PowerReduces(d, 75, 5 * q + 2, 15);
    } else if r == 8 {
      PowerReduces(d, 225, 15 * q + 7, 15);
    } else if r == 9 {
      PowerReduces(d, 30, 2 * q + 1, 15);
    } else if r == 10 {
      PowerReduces(d, 180, 12 * q + 7, 15);
    } else if r == 11 {
      PowerReduces(d, 210, 14 * q + 9, 15);
    } else if r == 12 {
      PowerReduces(d, 150, 10 * q + 7, 15);
    } else if r == 13 {
      PowerReduces(d, 60, 4 * q + 3, 15);
    } else if r == 14 {
      PowerReduces(d, 165, 11 * q + 9, 15);
    } else if r == 15 {
      PowerReduces(d, 120, 8 * q + 7, 15);
    } else if r == 16 {
      PowerReduces(d, 240, 16 * q + 15, 15);
    }
  }

  /** An exponent not divisible by 5 has a multiple that is 51 modulo 255. */
  lemma ReducesTo51(d: nat)
    requires Alpha(d) == 1 && d % 5 != 0
    ensures Alpha(51) == 1
  {
    var q, r := d / 5, d % 5;
    if r == 1 {
      PowerReduces(d, 51, q, 51);
    } else if r == 2 {
      PowerReduces(d, 153, 3 * q + 1, 51);
    } else if r == 3 {
      PowerReduces(d, 102, 2 * q + 1, 51);
    } else {
      PowerReduces(d, 204, 4 * q + 3, 51);
    }
  }

  /** An exponent not divisible by 3 has a multiple that is 85 modulo 255. */
  lemma ReducesTo85(d: nat)
    requires Alpha(d) == 1 && d % 3 != 0
    ensures Alpha(85) == 1
  {
    var q, r := d / 3, d % 3;
    if r == 1 {
      PowerReduces(d, 85, q, 85);
    } else {
      PowerReduces(d, 170, 2 * q + 1, 85);
    }
  }

  /** No smaller power of x is 1: an exponent below 255 misses one of the primes 17, 5 and 3. */
  lemma OrderIs255(d: nat)
    requires 0 < d < 255
    ensures Alpha(d) != 1
  {
    AlphaLandmarks();
    if Alpha(d) == 1 {
      if d % 17 != 0 {
        ReducesTo15(d);
      } else if d % 5 != 0 {
        ReducesTo51(d);
      } else {
        ReducesTo85(d);
      }
    }
  }

  // ---------- logarithms ----------

  lemma AlphaNonzero(k: nat)
    ensures Alpha(k) != 0
  {
    ShiftNonzero(k, 1);
  }

  lemma ShiftInjective(k: nat, a: bv8)
    requires Shift(k, a) == Shift(k, 1)
    ensures a == 1
  {
    if a != 1 {
      ShiftLinear(k, a, 1);
      ShiftNonzero(k, a ^ 1);
    }
  }

  lemma AlphaInjective(i: nat, j: nat)
    requires i < j < 255
    ensures Alpha(i) != Alpha(j)
  {
    if Alpha(i) == Alpha(j) {
      AlphaAdd(i, j - i);
      ShiftInjective(i, Alpha(j - i));
      OrderIs255(j - i);
    }
  }

  function Code(a: bv8): (n: nat)
    ensures n < 256 && (a != 0 ==> n > 0)
  {
    a as int
  }

  lemma CodeInjective(a: bv8, b: bv8)
    requires Code(a) == Code(b)
    ensures a == b
  {
  }

  ghost function Powers(k: nat): set<int> {
    if k == 0 then {} else Powers(k - 1) + {Code(Alpha(k - 1))}
  }

  lemma {:induction false} PowersMember(k: nat, n: int)
    requires n in Powers(k)
    ensures exists i :: 0 <= i < k && Code(Alpha(i)) == n
  {
    if n == Code(Alpha(k - 1)) {
    } else {
      PowersMember(k - 1, n);
    }
  }

  lemma {:induction false} PowersSize(k: nat)
    requires k <= 255
    ensures |Powers(k)| == k
    ensures forall n :: n in Powers(k) ==> 1 <= n < 256
  {
    if k > 0 {
      PowersSize(k - 1);
      AlphaNonzero(k - 1);
      if Code(Alpha(k - 1)) in Powers(k - 1) {
        PowersMember(k - 1, Code(Alpha(k - 1)));
        var i :| 0 <= i < k - 1 && Code(Alpha(i)) == Code(Alpha(k - 1));
        CodeInjective(Alpha(i), Alpha(k - 1));
        AlphaInjective(i, k - 1);
      }
    }
  }

  ghost function UpTo(m: nat): set<int> {
    if m == 0 then {} else UpTo(m - 1) + {m}
  }

  lemma {:induction false} UpToSize(m: nat)
    ensures |UpTo(m)| == m
    ensures forall n :: n in UpTo(m) <==> 1 <= n <= m
  {
    if m > 0 {
      UpToSize(m - 1);
    }
  }

  /** A set of m numbers between 1 and m is all of them. */
  lemma FullSet(a: set<int>, b: set<int>, m: nat)
    requires |a| == m && |b| == m
    requires forall n :: n in a ==> 1 <= n <= m
    requires forall n :: n in b <==> 1 <= n <= m
    ensures a == b
  {
    assert forall n :: n in a ==> n in b;
    assert |b - a| == |b| - |a|;
    assert b == a + (b - a);
  }

  lemma PowersReachAll(m: nat, n: int)
    requires m == 255 && 1 <= n <= m
    ensures exists k :: 0 <= k < m && Code(Alpha(k)) == n
  {
    PowersSize(m);
    UpToSize(m);
    FullSet(Powers(m), UpTo(m), m);
    PowersMember(m, n);
  }

  /** Every nonzero byte is a power of x: 255 distinct powers leave none out. */
  lemma LogExists(n: bv8)
    requires n != 0
    ensures exists k :: 0 <= k < 255 && Alpha(k) == n
  {
    PowersReachAll(255, Code(n));
    var k :| 0 <= k < 255 && Code(Alpha(k)) == Code(n);
    CodeInjective(Alpha(k), n);
  }

  /** The discrete logarithm that the LOG table holds. */
  ghost function Log(n: bv8): (k: nat)
    requires n != 0
    ensures k < 255 && Alpha(k) == n
  {
    LogExists(n);
    var k :| 0 <= k < 255 && Alpha(k) == n;
    k
  }

  lemma LogOfAlpha(k: nat)
    requires k < 255
    ensures Alpha(k) != 0 && Log(Alpha(k)) == k
  {
    AlphaNonzero(k);
    var j := Log(Alpha(k));
    if j < k {
      AlphaInjective(j, k);
    } else if k < j {
      AlphaInjective(k, j);
    }
  }

  lemma AlphaMod(i: nat)
    ensures Alpha(i % 255) == Alpha(i)
  {
    AlphaWraps(i % 255, i / 255);
  }

  // ---------- the product and the field laws ----------

  /** The field product, taken through logarithms. */
  ghost function Mul(a: bv8, b: bv8): bv8 {
    if a == 0 || b == 0 then 0 else Alpha(Log(a) + Log(b))
  }

  lemma MulIsShift(a: bv8, b: bv8)
    requires a != 0
    ensures Mul(a, b) == Shift(Log(a), b)
  {
    if b == 0 {
      ShiftZero(Log(a));
    } else {
      AlphaAdd(Log(a), Log(b));
    }
  }

  lemma MulComm(a: bv8, b: bv8)
    ensures Mul(a, b) == Mul(b, a)
  {
    if a != 0 && b != 0 {
      assert Log(a) + Log(b) == Log(b) + Log(a);
    }
  }

  lemma LogOfPower(i: nat)
    ensures Alpha(i) != 0 && Log(Alpha(i)) == i % 255
  {
    AlphaMod(i);
    LogOfAlpha(i % 255);
  }

  lemma MulAlpha(i: nat, j: nat)
    ensures Mul(Alpha(i), Alpha(j)) == Alpha(i + j)
  {
    LogOfPower(i);
    LogOfPower(j);
    var q := i / 255 + j / 255;
    AlphaWraps(i % 255 + j % 255, q);
    assert i % 255 + j % 255 + 255 * q == i + j;
  }

  lemma MulAssoc(a: bv8, b: bv8, c: bv8)
    ensures Mul(Mul(a, b), c) == Mul(a, Mul(b, c))
  {
    if a != 0 && b != 0 && c != 0 {
      var i, j, k := Log(a), Log(b), Log(c);
      MulAlpha(i, j);
      MulAlpha(j, k);
      MulAlpha(i + j, k);
      MulAlpha(i, j + k);
      assert (i + j) + k == i + (j + k);
    }
  }

  lemma MulOne(a: bv8)
    ensures Mul(a, 1) == a
  {
    if a != 0 {
      LogOfAlpha(0);
    }
  }

  lemma MulDistrib(a: bv8, b: bv8, c: bv8)
    ensures Mul(a, b ^ c) == Mul(a, b) ^ Mul(a, c)
  {
    if a != 0 {
      MulIsShift(a, b);
      MulIsShift(a, c);
      MulIsShift(a, b ^ c);
      ShiftLinear(Log(a), b, c);
    }
  }

  lemma MulNonzero(a: bv8, b: bv8)
    requires a != 0 && b != 0
    ensures Mul(a, b) != 0
  {
    AlphaNonzero(Log(a) + Log(b));
  }
}

/**
  Signed division by repeated trial quotients. The floating-point quotient and logarithm are any
  functions within an error bound: the quotient at most 2^-51 of itself too large, the logarithm at
  most one too large.
 */
module LongDivision {
  import opened Common
  import opened Long64
  import JsBits

  /** g for `floor(rem / divisor)` on doubles. */
  ghost predicate GoodQuotient(g: (int, int) -> int) {
    forall r, d :: 0 < d <= r < W63 ==> (g(r, d) * d - r) * W51 <= r
  }

  /** log for `ceil(log(n) / LN2)` on doubles. */
  ghost predicate GoodLog(log: int -> int) {
    forall n :: n >= 1 && log(n) > 48 ==> JsBits.Pow2(log(n) - 2) < n
  }

  /** Division of mathematical integers, rounding toward zero. */
  function Trunc(a: int, b: int): int
    requires b != 0
  {
    if b > 0 then (if a >= 0 then a / b else -((-a) / b))
    else (if a >= 0 then -(a / -b) else (-a) / -b)
  }

  method Times(a: Long, b: Long) returns (c: Long)
    ensures Value(c) == Wrap(Value(a) * Value(b))
    ensures -W63 <= Value(a) * Value(b) < W63 ==> Value(c) == Value(a) * Value(b)
  {
    MultiplyValue(a, b);
    c := Multiply(a, b);
  }

  method Minus(a: Long, b: Long) returns (c: Long)
    ensures Value(c) == Wrap(Value(a) - Value(b))
    ensures -W63 <= Value(a) - Value(b) < W63 ==> Value(c) == Value(a) - Value(b)
  {
    SubtractValue(a, b);
    c := Subtract(a, b);
  }

  method Plus(a: Long, b: Long) returns (c: Long)
    ensures Value(c) == Wrap(Value(a) + Value(b))
    ensures -W63 <= Value(a) + Value(b) < W63 ==> Value(c) == Value(a) + Value(b)
  {
    AddValue(a, b);
    c := Add(a, b);
  }

  // ---------- one trial ----------

  /** The step is a tiny part of the guess. */
  lemma DeltaSmall(l: nat, n: int)
    requires l > 48 && JsBits.Pow2(l - 2) < n
    ensures JsBits.Pow2(l - 48) * 0x4000_0000_0000 < n
  {
    JsBits.Pow2Sum(l - 48, 46);
    assert JsBits.Pow2(16) == 0x1_0000 && JsBits.Pow2(14) == 0x4000;
    JsBits.Pow2Sum(16, 16);
    JsBits.Pow2Sum(32, 14);
  }

  lemma QuotientAtLeast(t: int, d: int, r: int)
    requires d > 0 && r >= 0 && t * d > r
    ensures t > r / d
  {
    var q := r / d;
    assert q * d <= r;
  }

  lemma GuessAtMost(n: int, d: int, r: int)
    requires 0 < d <= r < W63 && (n * d - r) * W51 <= r
    ensures n * d < W63 + 0x1000 && n <= 2 * (r / d) + 1
  {
    var q := r / d;
    assert n * d < 2 * (q * d) + 2 * d;
    assert n * d < (2 * q + 2) * d;
    assert n >= 2 * q + 2 ==> n * d >= (2 * q + 2) * d;
  }

  lemma ProductLess(t: int, n: int, d: int)
    requires t <= n && d > 0
    ensures t * d <= n * d
  {
    assert (n - t) * d >= 0;
    assert (n - t) * d == n * d - t * d;
  }

  lemma DeltaFits(delta: int, n: int, q: int)
    requires delta == 1 || delta * 0x4000_0000_0000 < n
    requires n <= 2 * q + 1 && q >= 1
    ensures delta <= q
  {
  }

  /** The clamp of fromNumber. */
  function Clamp(n: int): int {
    if n >= W63 then W63 - 1 else n
  }

  /** approx copies of the divisor, as Longs; while they are too many the product shows it. */
  method Attempt(approx: int, b: Long, rem: Long) returns (approxRes: Long, approxRem: Long, tooLarge: bool)
    requires 1 <= approx && Value(b) > 0 && 0 <= Value(rem) && approx * Value(b) < W63 + 0x1000
    ensures Value(approxRes) == Clamp(approx)
    ensures tooLarge == (Clamp(approx) * Value(b) > Value(rem))
    ensures !tooLarge ==> Value(approxRem) == Clamp(approx) * Value(b)
  {
    approxRes := FromNumber(approx);
    approxRem := Times(approxRes, b);
    tooLarge := IsNegative(approxRem) || Compare(approxRem, rem) > 0;
    ProductLess(Clamp(approx), approx, Value(b));
    ProductLess(0, Clamp(approx), Value(b));
    Shows(Clamp(approx) * Value(b), Value(rem));
  }

  /** A product that went past 2^63 is negative. */
  lemma Shows(p: int, r: int)
    requires 0 <= p < W63 + 0x1000 && 0 <= r < W63
    ensures (Wrap(p) < 0 || Wrap(p) > r) == (p > r) && (p <= r ==> Wrap(p) == p)
  {
  }

  /** A quotient between one and the true one; the fix-up for zero is never needed. */
  method Trial(rem: Long, b: Long, g: (int, int) -> int, log: int -> int) returns (approxRes: Long, approxRem: Long)
    requires 0 < Value(b) <= Value(rem) && GoodQuotient(g) && GoodLog(log)
    ensures Value(approxRes) >= 1
    ensures Value(approxRem) == Value(approxRes) * Value(b) <= Value(rem)
  {
    var r, d := Value(rem), Value(b);
    ghost var q := r / d;
    var approx := if g(r, d) < 1 then 1 else g(r, d);
    assert (approx * d - r) * W51 <= r;
    GuessAtMost(approx, d, r);
    var log2 := log(approx);
    var delta := 1;
    if log2 > 48 {
      DeltaSmall(log2, approx);
      delta := JsBits.Pow2(log2 - 48);
    }
    DeltaFits(delta, approx, q);
    var tooLarge;
    approxRes, approxRem, tooLarge := Attempt(approx, b, rem);
    while tooLarge
      invariant 1 <= approx && 1 <= delta <= q && approx * d < W63 + 0x1000
      invariant Value(approxRes) == Clamp(approx)
      invariant tooLarge == (Clamp(approx) * d > r)
      invariant !tooLarge ==> Value(approxRem) == Clamp(approx) * d
      decreases approx
    {
      QuotientAtLeast(Clamp(approx), d, r);
      ProductLess(approx - delta, approx, d);
      approx := approx - delta;
      approxRes, approxRem, tooLarge := Attempt(approx, b, rem);
    }
    assert approxRes != ZERO;
    if approxRes == ZERO {
      approxRes := ONE;
    }
  }

  // ---------- the quotient ----------

  lemma Telescope(total: int, res: int, step: int, rem: int, d: int)
    requires res * d + rem == total
    ensures (res + step) * d + (rem - step * d) == total
  {
  }

  lemma QuotientIs(total: int, res: int, rem: int, d: int)
    requires res * d + rem == total && 0 <= rem < d
    ensures res == total / d
  {
    var q := total / d;
    assert total == q * d + total % d;
    assert (res + 1) * d == res * d + d && (q + 1) * d == q * d + d;
    if res < q {
      ProductLess(res + 1, q, d);
    } else if res > q {
      ProductLess(q + 1, res, d);
    }
  }

  lemma QuotientBound(res: int, rem: int, total: int, d: int)
    requires res * d + rem == total && 0 <= rem && d >= 1 && res >= 0
    ensures res <= total
  {
    ProductLess(1, d, 1);
    assert res * d >= res;
  }

  /** So much of the total is divided, and so much is left. */
  ghost predicate Divided(total: int, res: int, rem: int, d: int) {
    0 <= res && 0 <= rem && res * d + rem == total
  }

  lemma DividedStep(total: int, res: int, step: int, rem: int, product: int, d: int)
    requires Divided(total, res, rem, d) && step >= 1 && d >= 1 && product == step * d <= rem
    ensures Divided(total, res + step, rem - product, d) && res + step <= total && product > 0
  {
    ProductLess(1, step, d);
    Telescope(total, res, step, rem, d);
    QuotientBound(res + step, rem - product, total, d);
  }

  method DivPositive(a: Long, b: Long, g: (int, int) -> int, log: int -> int) returns (res: Long)
    requires Value(a) >= 0 && Value(b) > 0 && GoodQuotient(g) && GoodLog(log)
    ensures Value(res) == Value(a) / Value(b)
  {
    res := ZERO;
    var rem := a;
    while Compare(rem, b) >= 0
      invariant Divided(Value(a), Value(res), Value(rem), Value(b))
      decreases Value(rem)
    {
      var approxRes, approxRem := Trial(rem, b, g, log);
      DividedStep(Value(a), Value(res), Value(approxRes), Value(rem), Value(approxRem), Value(b));
      res := Plus(res, approxRes);
      rem := Minus(rem, approxRem);
    }
    QuotientIs(Value(a), Value(res), Value(rem), Value(b));
  }

  lemma QuotientInRange(a: int, b: int)
    requires a >= 0 && b > 0
    ensures 0 <= a / b <= a
  {
    QuotientBound(a / b, a % b, a, b);
  }

  lemma QuotientTimes(n: int, d: int, q: int)
    requires n >= 0 && d > 0 && q == n / d
    ensures 0 <= q * d <= n
  {
    assert n == q * d + n % d;
    QuotientInRange(n, d);
  }

  function Abs(a: int): int {
    if a < 0 then -a else a
  }

  lemma TruncSigns(a: int, b: int)
    requires b != 0
    ensures Trunc(a, b) == if (a < 0) == (b < 0) then Abs(a) / Abs(b) else -(Abs(a) / Abs(b))
  {
  }

  lemma SignedQuotient(a: int, b: int, q: int)
    requires b != 0 && q == Abs(a) / Abs(b)
    ensures 0 <= q <= Abs(a) && Trunc(a, b) == if (a < 0) == (b < 0) then q else -q
  {
    TruncSigns(a, b);
    QuotientInRange(Abs(a), Abs(b));
  }

  method Negated(x: Long) returns (y: Long)
    requires x != MIN_VALUE
    ensures Value(y) == -Value(x)
  {
    NegateValue(x);
    y := Negate(x);
  }

  method Magnitude(x: Long) returns (y: Long)
    requires x != MIN_VALUE
    ensures Value(y) == Abs(Value(x))
  {
    y := x;
    if IsNegative(x) {
      y := Negated(x);
    }
  }

  /** Any dividend but MIN_VALUE. */
  method DivOrdinary(a: Long, b: Long, g: (int, int) -> int, log: int -> int) returns (res: Long)
    requires a != MIN_VALUE && Value(b) != 0 && GoodQuotient(g) && GoodLog(log)
    ensures Value(res) == Trunc(Value(a), Value(b))
  {
    if a == ZERO {
      return ZERO;
    }
    if b == MIN_VALUE {
      NegateValue(a);
      SmallQuotient(Value(a));
      return ZERO;
    }
    res := DivSigned(a, b, g, log);
  }

  /** The magnitudes divided, with the sign of the quotient. */
  method DivSigned(a: Long, b: Long, g: (int, int) -> int, log: int -> int) returns (res: Long)
    requires a != MIN_VALUE && b != MIN_VALUE && Value(b) != 0 && GoodQuotient(g) && GoodLog(log)
    ensures Value(res) == Trunc(Value(a), Value(b))
  {
    var n := Magnitude(a);
    var d := Magnitude(b);
    res := DivPositive(n, d, g, log);
    SignedQuotient(Value(a), Value(b), Value(res));
    if IsNegative(a) != IsNegative(b) {
      res := Negated(res);
    }
  }

  lemma SmallQuotient(a: int)
    requires -W63 <= a < W63 && a != -W63
    ensures Trunc(a, -W63) == 0
  {
  }

  // ---------- MIN_VALUE ----------

  lemma HalfWords(high: int, u: int, low: int)
    requires 0 <= u < W32 && low == u / 2 + (if high % 2 == 1 then 0x8000_0000 else 0)
    ensures 0 <= low == low % W32 && (high * W32 + u) / 2 == high / 2 * W32 + low
  {
  }

  /** `>> 1`. */
  function HalfDown(x: Long): (y: Long)
    ensures Value(y) == Value(x) / 2
  {
    var low := U(x.low) / 2 + (if x.high % 2 == 1 then 0x8000_0000 else 0);
    HalfWords(x.high, U(x.low), low);
    Long(ToInt32(low), x.high / 2)
  }

  lemma Doubling(u: int)
    requires 0 <= u < W32
    ensures 0 <= u / 0x8000_0000 <= 1
    ensures (2 * u) % W32 == 2 * u - W32 * (u / 0x8000_0000)
    ensures (2 * u + 1) % W32 == 2 * u + 1 - W32 * (u / 0x8000_0000)
  {
  }

  lemma DoubledWords(h: int, l: int, h': int, l': int)
    requires 0 <= h < W32 && 0 <= l < W32
    requires l' == (2 * l) % W32 && h' == (2 * h + l / 0x8000_0000) % W32
    ensures h' * W32 + l' == M(2 * (h * W32 + l))
  {
    Doubling(h);
    Doubling(l);
    MUnique(2 * (h * W32 + l), h' * W32 + l', h / 0x8000_0000);
  }

  /** `<< 1`. */
  function Twice(x: Long): (y: Long)
    ensures N(y) == M(2 * N(x))
  {
    var y := Long(ToInt32(2 * U(x.low)), ToInt32(2 * U(x.high) + U(x.low) / 0x8000_0000));
    assert N(y) == M(2 * N(x)) by { DoubledWords(U(x.high), U(x.low), U(y.high), U(y.low)); }
    y
  }

  lemma Doubled(p: int, k: int, r: int, t: int)
    requires 1 < p && 0 <= r < p && W62 == k * p + r && t == (2 * r) / p
    ensures W63 / p == 2 * k + t
  {
    assert 2 * r == t * p + (2 * r) % p;
    assert (2 * k + t) * p == 2 * (k * p) + t * p;
    QuotientIs(W63, 2 * k + t, (2 * r) % p, p);
  }

  lemma HalfQuotient(p: int, k: int, r: int)
    requires 1 < p < W63 && 0 <= r < p && W62 == k * p + r && k >= 0
    ensures k == 0 ==> W63 / p == 1
    ensures 0 <= k <= W62 / 2 && (k > 0 ==> 2 * r < W63)
  {
    if k == 0 {
      QuotientIs(W63, 1, W63 - p, p);
    } else {
      ProductLess(2, p, k);
      ProductLess(1, k, p);
    }
  }

  function SignedAs(d: int, q: int): int {
    if d < 0 then q else -q
  }

  /** Quotients of numbers that are not positive. */
  lemma TruncDown(n: int, d: int)
    requires n >= 0 && d != 0
    ensures Trunc(-n, d) == SignedAs(d, n / Abs(d))
  {
  }

  lemma Rest(d: int, p: int, k: int, r: int)
    requires p == Abs(d) && W62 == k * p + r
    ensures -W63 - d * (2 * SignedAs(d, k)) == -(2 * r)
  {
    assert d * (2 * k) == 2 * (k * d);
    assert d * (2 * -k) == -(2 * (k * d));
  }

  /** The quotient and remainder of 2^62 by |d|. */
  lemma HalfParts(d: int, k: int, r: int)
    requires d != 0 && d != 1 && d != -1 && -W63 < d < W63 && k == W62 / Abs(d) && r == W62 % Abs(d)
    ensures Trunc(-W62, d) == SignedAs(d, k) && Trunc(-W63, d) == SignedAs(d, 2 * k + (2 * r) / Abs(d))
    ensures Trunc(-(2 * r), d) == SignedAs(d, (2 * r) / Abs(d))
    ensures k == 0 ==> Trunc(-W63, d) == SignedAs(d, 1)
    ensures 0 <= k <= W62 / 2 && 0 <= 2 * r && (k > 0 ==> 2 * r < W63)
    ensures -W63 - d * (2 * SignedAs(d, k)) == -(2 * r)
  {
    TruncDown(W62, d);
    TruncDown(W63, d);
    TruncDown(2 * r, d);
    Doubled(Abs(d), k, r, (2 * r) / Abs(d));
    HalfQuotient(Abs(d), k, r);
    Rest(d, Abs(d), k, r);
  }

  lemma MinInRange(d: int)
    requires d != 0 && d != 1 && d != -1
    ensures -W63 < Trunc(-W63, d) < W63
  {
    TruncDown(W63, d);
    var q := W63 / Abs(d);
    QuotientTimes(W63, Abs(d), q);
    QuotientInRange(W63, Abs(d));
    ProductLess(2, Abs(d), q + 1);
    assert (q + 1) * Abs(d) == q * Abs(d) + Abs(d);
  }

  /** What is left of MIN_VALUE after twice the quotient of its half. */
  lemma HalvesJoin(d: int, h: int, rem: int)
    requires d != 0 && d != 1 && d != -1 && -W63 < d < W63
    requires h == Trunc(-W62, d) && rem == -W63 - d * (2 * h)
    ensures -W62 <= 2 * h <= W62
    ensures h == 0 ==> Trunc(-W63, d) == if d < 0 then 1 else -1
    ensures h != 0 ==> -W63 < rem <= 0 && Trunc(-W63, d) == 2 * h + Trunc(rem, d)
  {
    HalfParts(d, W62 / Abs(d), W62 % Abs(d));
  }

  /** Signed division of any two Longs, for any rounding of the floating-point steps within bounds. */
  method Div(a: Long, b: Long, g: (int, int) -> int, log: int -> int) returns (res: Option<Long>)
    requires GoodQuotient(g) && GoodLog(log)
    ensures res.None? <==> Value(b) == 0
    ensures res.Some? ==>
              Value(res.value) == if Value(a) == -W63 && Value(b) == -1 then -W63 else Trunc(Value(a), Value(b))
  {
    if b == ZERO {
      return None;
    }
    var q;
    if a == MIN_VALUE {
      q := DivMin(b, g, log);
    } else {
      if Value(a) == -W63 { ValueInjective(a, MIN_VALUE); }
      if Value(b) == 0 { ValueInjective(b, ZERO); }
      q := DivOrdinary(a, b, g, log);
    }
    return Some(q);
  }

  method DivMin(b: Long, g: (int, int) -> int, log: int -> int) returns (res: Long)
    requires b != ZERO && GoodQuotient(g) && GoodLog(log)
    ensures Value(b) != 0
    ensures Value(res) == if Value(b) == -1 then -W63 else Trunc(-W63, Value(b))
  {
    if Value(b) == 0 { ValueInjective(b, ZERO); }
    if b == ONE || b == NEG_ONE {
      return MIN_VALUE;
    }
    if b == MIN_VALUE {
      return ONE;
    }
    if Value(b) == 1 { ValueInjective(b, ONE); }
    if Value(b) == -1 { ValueInjective(b, NEG_ONE); }
    if Value(b) == -W63 { ValueInjective(b, MIN_VALUE); }
    var half := DivOrdinary(HalfDown(MIN_VALUE), b, g, log);
    MinInRange(Value(b));
    HalvesJoin(Value(b), Value(half), -W63 - Value(b) * (2 * Value(half)));
    var approx := Double(half);
    if approx == ZERO {
      return if IsNegative(b) then ONE else NEG_ONE;
    }
    res := AddRest(b, approx, g, log);
  }

  method Double(x: Long) returns (y: Long)
    requires -W62 <= 2 * Value(x) <= W62
    ensures Value(y) == 2 * Value(x) && (y == ZERO <==> Value(x) == 0)
  {
    y := Twice(x);
    MValue(x);
    MMulLeft(Value(x), 2);
    ValueOfResidue(y, 2 * Value(x));
    if Value(y) == 0 { ValueInjective(y, ZERO); }
  }

  method AddRest(b: Long, approx: Long, g: (int, int) -> int, log: int -> int) returns (res: Long)
    requires Value(b) != 0 && -W62 <= Value(approx) <= W62 && GoodQuotient(g) && GoodLog(log)
    requires -W63 < -W63 - Value(b) * Value(approx) <= 0
    requires Trunc(-W63, Value(b)) == Value(approx) + Trunc(-W63 - Value(b) * Value(approx), Value(b))
    requires -W63 <= Trunc(-W63, Value(b)) < W63
    ensures Value(res) == Trunc(-W63, Value(b))
  {
    var p := Times(b, approx);
    var rem := Minus(MIN_VALUE, p);
    var q := DivOrdinary(rem, b, g, log);
    res := Plus(approx, q);
  }

  lemma SignedTimes(q: int, b: int)
    ensures q * b == if b < 0 then -(q * Abs(b)) else q * Abs(b)
  {
  }

  lemma NegatedTimes(k: int, b: int)
    ensures -k * b == -(k * b)
  {
  }

  lemma TruncTimes(a: int, b: int, q: int)
    requires b != 0 && q == Trunc(a, b)
    ensures a >= 0 ==> 0 <= q * b <= a
    ensures a < 0 ==> a <= q * b <= 0
  {
    var k := Abs(a) / Abs(b);
    TruncSigns(a, b);
    QuotientTimes(Abs(a), Abs(b), k);
    SignedTimes(k, b);
    SignedTimes(-k, b);
    assert -k * Abs(b) == -(k * Abs(b));
  }

  /** What the quotient leaves is less than the divisor and has the sign of the dividend. */
  lemma TruncLeaves(a: int, b: int, q: int)
    requires b != 0 && q == Trunc(a, b)
    ensures 0 <= Abs(a - q * b) < Abs(b) && (a >= 0 ==> a - q * b >= 0) && (a <= 0 ==> a - q * b <= 0)
  {
    TruncSigns(a, b);
    Divides(Abs(a), Abs(b), Abs(a) / Abs(b), Abs(a) % Abs(b));
    LeftOver(a, b, Abs(a) / Abs(b), q, Abs(a) % Abs(b));
  }

  lemma Divides(x: int, y: int, k: int, r: int)
    requires y > 0 && k == x / y && r == x % y
    ensures x == k * y + r && 0 <= r < y
  {
  }

  lemma LeftOver(a: int, b: int, k: int, q: int, r: int)
    requires Abs(a) == k * Abs(b) + r && q == if (a < 0) == (b < 0) then k else -k
    ensures a - q * b == if a < 0 then -r else r
  {
    SignedTimes(q, b);
    NegatedTimes(k, Abs(b));
  }

  /** The remainder has the sign of the dividend. */
  method Modulo(a: Long, b: Long, g: (int, int) -> int, log: int -> int) returns (res: Option<Long>)
    requires GoodQuotient(g) && GoodLog(log)
    ensures res.None? <==> Value(b) == 0
    ensures res.Some? ==> Value(res.value) == Value(a) - Trunc(Value(a), Value(b)) * Value(b)
    ensures res.Some? ==> Abs(Value(res.value)) < Abs(Value(b))
    ensures res.Some? ==> (Value(a) >= 0 ==> Value(res.value) >= 0) && (Value(a) <= 0 ==> Value(res.value) <= 0)
  {
    var q := Div(a, b, g, log);
    if q.None? {
      return None;
    }
    TruncTimes(Value(a), Value(b), Trunc(Value(a), Value(b)));
    TruncLeaves(Value(a), Value(b), Trunc(Value(a), Value(b)));
    var p := Times(q.value, b);
    assert Value(p) == Trunc(Value(a), Value(b)) * Value(b) || (Value(p) == -W63 && Value(a) == -W63 && Value(b) == -1);
    var rem := Minus(a, p);
    return Some(rem);
  }
}

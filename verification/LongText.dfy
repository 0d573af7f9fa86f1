/** Printing Longs six digits at a time and parsing them eight digits at a time, in any radix. */
module LongText {
  import opened Common
  import opened Long64
  import opened LongDivision

  // ---------- numerals ----------

  function DigitChar(d: int): char
    requires 0 <= d < 36
  {
    "0123456789abcdefghijklmnopqrstuvwxyz"[d]
  }

  /** 36 for anything that is no digit in any radix. */
  function DigitValue(c: char): (d: int)
    ensures 0 <= d <= 36
  {
    if '0' <= c <= '9' then c as int - '0' as int
    else if 'a' <= c <= 'z' then c as int - 'a' as int + 10
    else if 'A' <= c <= 'Z' then c as int - 'A' as int + 10
    else 36
  }

  lemma DigitInverse(d: int)
    requires 0 <= d < 36
    ensures DigitValue(DigitChar(d)) == d && DigitChar(d) != '-' && !('A' <= DigitChar(d) <= 'Z')
  {
  }

  type Radix = r: int | 2 <= r <= 36 witness 10

  /** n / r and n % r, by repeated subtraction. */
  function Quot(n: nat, r: Radix): nat {
    if n < r then 0 else 1 + Quot(n - r, r)
  }

  function Rem(n: nat, r: Radix): (m: nat)
    ensures m < r
  {
    if n < r then n else Rem(n - r, r)
  }

  lemma {:induction false} QuotRem(n: nat, r: Radix)
    ensures n == Quot(n, r) * r + Rem(n, r)
  {
    if n >= r {
      QuotRem(n - r, r);
      assert (1 + Quot(n - r, r)) * r == r + Quot(n - r, r) * r;
    }
  }

  lemma {:induction false} QuotOf(a: nat, b: nat, r: Radix)
    requires b < r
    ensures a * r >= 0 && Quot(a * r + b, r) == a && Rem(a * r + b, r) == b
  {
    if a > 0 {
      QuotOf(a - 1, b, r);
      assert a * r == (a - 1) * r + r;
    }
  }

  lemma QuotIs(n: nat, r: Radix)
    ensures Quot(n, r) == n / r && Rem(n, r) == n % r
  {
    QuotRem(n, r);
    QuotientIs(n, Quot(n, r), Rem(n, r), r);
  }

  lemma {:induction false} Shrinks(n: nat, r: Radix)
    requires n >= r
    ensures 1 <= Quot(n, r) < n
  {
    if n - r >= r {
      Shrinks(n - r, r);
    }
  }

  /** The plain numeral of n in radix r. */
  function Digits(n: nat, r: Radix): (s: string)
    ensures |s| > 0
    decreases n
  {
    if n < r then [DigitChar(n)]
    else
      assert Quot(n, r) < n by { Shrinks(n, r); }
      Digits(Quot(n, r), r) + [DigitChar(Rem(n, r))]
  }

  /** No numeral but that of zero starts with a zero. */
  lemma {:induction false} NoLeadingZero(n: nat, r: Radix)
    requires n >= 1
    ensures Digits(n, r)[0] != '0'
  {
    if n >= r {
      Shrinks(n, r);
      NoLeadingZero(Quot(n, r), r);
    }
  }

  function Numeral(v: int, r: Radix): string {
    if v < 0 then "-" + Digits(-v, r) else Digits(v, r)
  }

  predicate AllDigits(s: string, r: Radix) {
    forall i :: 0 <= i < |s| ==> DigitValue(s[i]) < r
  }

  /** a copies of r, and b. */
  function Put(a: nat, r: Radix, b: nat): (n: nat)
    ensures n == a * r + b
  {
    if a == 0 then b else
      assert (a - 1) * r + r == a * r;
      Put(a - 1, r, b) + r
  }

  /** What a string of digits denotes. */
  function Denote(s: string, r: Radix): nat
    requires AllDigits(s, r)
  {
    if |s| == 0 then 0 else Put(Denote(s[..|s| - 1], r), r, DigitValue(s[|s| - 1]))
  }

  lemma {:induction false} DigitsDenote(n: nat, r: Radix)
    ensures AllDigits(Digits(n, r), r) && Denote(Digits(n, r), r) == n
    ensures forall i :: 0 <= i < |Digits(n, r)| ==> Digits(n, r)[i] != '-' && !('A' <= Digits(n, r)[i] <= 'Z')
    decreases n
  {
    var s := Digits(n, r);
    if n < r {
      DigitInverse(n);
      assert s[..0] == "";
    } else {
      Shrinks(n, r);
      DigitInverse(Rem(n, r));
      DigitsDenote(Quot(n, r), r);
      assert s[..|s| - 1] == Digits(Quot(n, r), r);
      QuotRem(n, r);
    }
  }

  // ---------- chunks of six ----------

  function Power(r: Radix, k: nat): (p: nat)
    ensures p >= 1
  {
    if k == 0 then 1 else Put(Power(r, k - 1), r, 0)
  }

  /** The k lowest digits of t, zeros included. */
  function Fixed(t: nat, k: nat, r: Radix): (s: string)
    ensures |s| == k
    decreases k
  {
    if k == 0 then "" else Fixed(Quot(t, r), k - 1, r) + [DigitChar(Rem(t, r))]
  }

  lemma PowerQuot(t: nat, k: nat, r: Radix)
    requires k > 0 && t < Power(r, k)
    ensures Quot(t, r) < Power(r, k - 1)
  {
    QuotRem(t, r);
    if Quot(t, r) >= Power(r, k - 1) {
      ProductLess(Power(r, k - 1), Quot(t, r), r);
    }
  }

  /** q * r^k + t. */
  function Stack(q: nat, t: nat, k: nat, r: Radix): (n: nat)
    ensures q >= 1 ==> n >= 1
    decreases k
  {
    if k == 0 then q + t else Put(Stack(q, Quot(t, r), k - 1, r), r, Rem(t, r))
  }

  lemma {:induction false} StackIs(q: nat, t: nat, k: nat, r: Radix)
    ensures Stack(q, t, k, r) == q * Power(r, k) + t
    decreases k
  {
    if k > 0 {
      StackIs(q, Quot(t, r), k - 1, r);
      QuotRem(t, r);
      StackStep(q, Power(r, k - 1), Power(r, k), Quot(t, r), Stack(q, Quot(t, r), k - 1, r), r);
    }
  }

  lemma StackStep(q: nat, p: nat, p': nat, a: nat, d: nat, r: Radix)
    requires d == q * p + a && p' == p * r
    ensures d * r == q * p' + a * r
  {
    Distribute(q, p, a, r);
  }

  lemma Distribute(q: int, p: int, a: int, r: int)
    ensures (q * p + a) * r == q * (p * r) + a * r
  {
  }

  lemma DigitsPut(a: nat, b: nat, r: Radix)
    requires a >= 1 && b < r
    ensures Digits(Put(a, r, b), r) == Digits(a, r) + [DigitChar(b)]
  {
    QuotOf(a, b, r);
    ProductLess(1, a, r);
    DigitsStep(Put(a, r, b), r, a, b);
  }

  lemma DigitsStep(n: nat, r: Radix, q: nat, d: nat)
    requires n >= r && Quot(n, r) == q && Rem(n, r) == d
    ensures Digits(n, r) == Digits(q, r) + [DigitChar(d)]
  {
  }

  lemma {:induction false} DigitsSplit(q: nat, t: nat, k: nat, r: Radix)
    requires q >= 1 && t < Power(r, k)
    ensures Digits(Stack(q, t, k, r), r) == Digits(q, r) + Fixed(t, k, r)
    decreases k
  {
    if k == 0 {
      assert Digits(q, r) + Fixed(t, 0, r) == Digits(q, r);
    } else {
      PowerQuot(t, k, r);
      DigitsSplit(q, Quot(t, r), k - 1, r);
      DigitsPut(Stack(q, Quot(t, r), k - 1, r), Rem(t, r), r);
      Associate(Digits(q, r), Fixed(Quot(t, r), k - 1, r), [DigitChar(Rem(t, r))]);
    }
  }

  lemma PowerPut(n: nat, k: nat, r: Radix)
    requires Quot(n, r) < Power(r, k)
    ensures n < Power(r, k + 1)
  {
    QuotRem(n, r);
    BelowNext(n, Quot(n, r), Rem(n, r), r, Power(r, k));
  }

  lemma BelowNext(n: nat, q: nat, m: nat, r: nat, p: nat)
    requires n == q * r + m && m < r && q < p
    ensures n < p * r
  {
    ProductLess(q + 1, p, r);
    assert (q + 1) * r == q * r + r;
  }

  /** The plain numeral is the fixed one of its own length. */
  lemma {:induction false} DigitsFixed(n: nat, r: Radix)
    ensures n < Power(r, |Digits(n, r)|) && Digits(n, r) == Fixed(n, |Digits(n, r)|, r)
    decreases n
  {
    if n < r {
      PowerPut(n, 0, r);
      assert Fixed(n, 1, r) == Fixed(0, 0, r) + [DigitChar(n)];
    } else {
      Shrinks(n, r);
      DigitsFixed(Quot(n, r), r);
      PowerPut(n, |Digits(Quot(n, r), r)|, r);
    }
  }

  lemma {:induction false} DigitsShort(n: nat, k: nat, r: Radix)
    requires k > 0 && n < Power(r, k)
    ensures |Digits(n, r)| <= k
  {
    if n >= r {
      Shrinks(n, r);
      PowerQuot(n, k, r);
      DigitsShort(Quot(n, r), k - 1, r);
    }
  }

  lemma {:induction false} ZeroInFront(t: nat, k: nat, r: Radix)
    requires t < Power(r, k)
    ensures "0" + Fixed(t, k, r) == Fixed(t, k + 1, r)
    decreases k
  {
    if k == 0 {
      assert Fixed(0, 1, r) == Fixed(0, 0, r) + [DigitChar(0)];
    } else {
      PowerQuot(t, k, r);
      ZeroInFront(Quot(t, r), k - 1, r);
      Associate("0", Fixed(Quot(t, r), k - 1, r), [DigitChar(Rem(t, r))]);
    }
  }

  lemma PowerGrows(r: Radix, k: nat)
    ensures Power(r, k) <= Power(r, k + 1)
  {
    ProductLess(1, r, Power(r, k));
  }

  /** Zeros in front up to k digits. */
  method Pad(t: nat, k: nat, r: Radix) returns (digits: string)
    requires t < Power(r, k) && k > 0
    ensures digits == Fixed(t, k, r)
  {
    digits := Digits(t, r);
    DigitsFixed(t, r);
    DigitsShort(t, k, r);
    while |digits| < k
      invariant |digits| <= k && t < Power(r, |digits|) && digits == Fixed(t, |digits|, r)
    {
      ZeroInFront(t, |digits|, r);
      PowerGrows(r, |digits|);
      digits := "0" + digits;
    }
  }

  // ---------- printing ----------

  lemma PowerBound(r: Radix, k: nat, b: nat)
    requires Power(r, k) <= b
    ensures Power(r, k + 1) <= 36 * b
  {
    ProductLess(r, 36, Power(r, k));
  }

  lemma {:induction false} PowerAtLeast(r: Radix, k: nat)
    requires k > 0
    ensures Power(r, k) >= 2
  {
    if k > 1 {
      PowerAtLeast(r, k - 1);
    }
    ProductLess(1, Power(r, k - 1), r);
  }

  /** Six digits fit in 32 bits, eight in the whole numbers that doubles hold exactly. */
  lemma ChunkBounds(r: Radix)
    ensures 2 <= Power(r, 6) < W32 && Power(r, 8) < 0x20_0000_0000_0000
  {
    PowerAtLeast(r, 6);
    PowerBound(r, 0, 1);
    PowerBound(r, 1, 36);
    PowerBound(r, 2, 1296);
    PowerBound(r, 3, 46656);
    PowerBound(r, 4, 1679616);
    PowerBound(r, 5, 60466176);
    PowerBound(r, 6, 2176782336);
    PowerBound(r, 7, 78364164096);
  }

  lemma LowWord(x: Long)
    requires 0 <= Value(x) < W32
    ensures U(x.low) == Value(x)
  {
  }

  lemma ChunkFacts(n: nat, p: nat, q: int)
    requires p >= 2 && q == n / p
    ensures q >= 0 && 0 <= n - q * p < p && 0 <= q * p <= n && (q == 0 || q < n)
  {
    QuotientTimes(n, p, q);
    QuotientInRange(n, p);
    assert n == q * p + n % p;
    if q > 0 { ProductLess(2, p, q); }
  }

  /** The lowest chunk of rem and what is above it. */
  method NextChunk(rem: Long, pow: Long, g: (int, int) -> int, log: int -> int) returns (remDiv: Long, intval: nat)
    requires GoodQuotient(g) && GoodLog(log) && Value(rem) >= 0 && 2 <= Value(pow) < W32
    ensures Value(remDiv) >= 0 && intval < Value(pow) && Value(rem) == Value(remDiv) * Value(pow) + intval
    ensures if remDiv == ZERO then intval == Value(rem) else 0 < Value(remDiv) < Value(rem)
  {
    remDiv := DivPositive(rem, pow, g, log);
    ChunkFacts(Value(rem), Value(pow), Value(remDiv));
    var p := Times(remDiv, pow);
    var low := Minus(rem, p);
    LowWord(low);
    intval := U(low.low);
    if Value(remDiv) == 0 { ValueInjective(remDiv, ZERO); }
  }

  lemma ChunkPrinted(n: nat, q: nat, t: nat, k: nat, r: Radix, p: nat)
    requires p == Power(r, k) && t < p && n == q * p + t && q > 0
    ensures Digits(n, r) == Digits(q, r) + Fixed(t, k, r)
  {
    StackIs(q, t, k, r);
    DigitsSplit(q, t, k, r);
  }

  /** Chunks of k digits, from the right; the source takes k = 6. */
  method ToStringPositive(x: Long, k: nat, r: Radix, g: (int, int) -> int, log: int -> int) returns (s: string)
    requires GoodQuotient(g) && GoodLog(log) && Value(x) > 0 && k > 0 && 2 <= Power(r, k) < W32
    ensures s == Digits(Value(x), r)
  {
    var radixToPower := FromNumber(Power(r, k));
    var rem := x;
    var result := "";
    while true
      invariant Value(rem) > 0 && Digits(Value(x), r) == Digits(Value(rem), r) + result
      decreases Value(rem)
    {
      var remDiv, intval := NextChunk(rem, radixToPower, g, log);
      if remDiv == ZERO {
        return Digits(intval, r) + result;
      }
      ChunkPrinted(Value(rem), Value(remDiv), intval, k, r, Power(r, k));
      var digits := Pad(intval, k, r);
      Associate(Digits(Value(remDiv), r), digits, result);
      result := digits + result;
      rem := remDiv;
    }
  }

  /** A radix of zero means ten. */
  function Base(radix: int): int {
    if radix == 0 then 10 else radix
  }

  method ToStringSigned(x: Long, r: Radix, g: (int, int) -> int, log: int -> int) returns (s: string)
    requires GoodQuotient(g) && GoodLog(log) && x != MIN_VALUE
    ensures s == Numeral(Value(x), r)
  {
    if x == ZERO {
      return "0";
    }
    if Value(x) == 0 { ValueInjective(x, ZERO); }
    ChunkBounds(r);
    if IsNegative(x) {
      NegateValue(x);
      var t := ToStringPositive(Negate(x), 6, r, g, log);
      return "-" + t;
    }
    s := ToStringPositive(x, 6, r, g, log);
  }

  lemma MinParts(n: int, r: Radix)
    requires n >= r
    ensures 0 < n / r < n && 0 <= n % r < r && Trunc(-n, r) == -(n / r)
    ensures -(n / r) * r == -n + n % r
  {
    QuotIs(n, r);
    Shrinks(n, r);
    assert n == n / r * r + n % r;
    assert -(n / r) * r == -(n / r * r);
  }

  lemma MinDigits(n: int, r: Radix, q: int, m: int)
    requires n >= r && q == n / r > 0 && m == n % r
    ensures Numeral(-n, r) == Numeral(-q, r) + Digits(m, r)
  {
    QuotIs(n, r);
    Associate("-", Digits(q, r), [DigitChar(m)]);
  }

  method SplitMin(r: Radix, g: (int, int) -> int, log: int -> int) returns (div: Long, digit: int)
    requires GoodQuotient(g) && GoodLog(log)
    ensures Value(div) == -(W63 / r) && div != MIN_VALUE && digit == W63 % r
  {
    MinParts(W63, r);
    var radixLong := FromNumber(r);
    div := DivMin(radixLong, g, log);
    var p := Times(div, radixLong);
    var rem := Minus(p, MIN_VALUE);
    LowWord(rem);
    digit := U(rem.low);
  }

  /** MIN_VALUE cannot be negated: its lowest digit is taken off first. */
  method ToStringMin(r: Radix, g: (int, int) -> int, log: int -> int) returns (s: string)
    requires GoodQuotient(g) && GoodLog(log)
    ensures s == Numeral(-W63, r)
  {
    var div, digit := SplitMin(r, g, log);
    MinParts(W63, r);
    MinDigits(W63, r, W63 / r, digit);
    var t := ToStringSigned(div, r, g, log);
    s := t + Digits(digit, r);
  }

  /** The plain signed numeral; None where the radix is out of range. */
  method ToString(x: Long, radix: int, g: (int, int) -> int, log: int -> int) returns (s: Option<string>)
    requires GoodQuotient(g) && GoodLog(log)
    ensures s.None? <==> !(2 <= Base(radix) <= 36)
    ensures s.Some? ==> s.value == Numeral(Value(x), Base(radix))
  {
    var r := Base(radix);
    if r < 2 || 36 < r {
      return None;
    }
    var t;
    if x == MIN_VALUE {
      t := ToStringMin(r, g, log);
    } else {
      t := ToStringSigned(x, r, g, log);
    }
    return Some(t);
  }

  // ---------- parsing ----------

  /** The names of the numbers that a Long cannot hold. */
  predicate IsSpecial(s: string) {
    s == "NaN" || s == "Infinity" || s == "+Infinity" || s == "-Infinity"
  }

  predicate IsSpace(c: char) {
    var n := c as int;
    || 9 <= n <= 13 || n == 32 || n == 0xA0 || n == 0x1680 || 0x2000 <= n <= 0x200A
    || n == 0x2028 || n == 0x2029 || n == 0x202F || n == 0x205F || n == 0x3000 || n == 0xFEFF
  }

  function TrimStart(s: string): string {
    if |s| > 0 && IsSpace(s[0]) then TrimStart(s[1..]) else s
  }

  /** The digits a string starts with. */
  function Leading(s: string, r: Radix): (t: string)
    ensures AllDigits(t, r)
  {
    if |s| > 0 && DigitValue(s[0]) < r then [s[0]] + Leading(s[1..], r) else ""
  }

  /** JavaScript's parseInt; None for NaN. */
  function ParseInt(s: string, r: Radix): Option<int> {
    var t := TrimStart(s);
    var u := if |t| > 0 && (t[0] == '-' || t[0] == '+') then t[1..] else t;
    var w := if r == 16 && |u| >= 2 && u[0] == '0' && (u[1] == 'x' || u[1] == 'X') then u[2..] else u;
    var digits := Leading(w, r);
    var n: int := Denote(digits, r);
    if digits == "" then None else Some(if |t| > 0 && t[0] == '-' then -n else n)
  }

  lemma {:induction false} LeadingAll(s: string, r: Radix)
    requires AllDigits(s, r)
    ensures Leading(s, r) == s
  {
    if |s| > 0 {
      LeadingAll(s[1..], r);
    }
  }

  lemma ParseDigits(s: string, r: Radix)
    requires AllDigits(s, r) && |s| > 0
    ensures ParseInt(s, r) == Some(Denote(s, r))
  {
    DigitIsPlain(s[0], r);
    if |s| > 1 { DigitIsPlain(s[1], r); }
    assert TrimStart(s) == s;
    LeadingAll(s, r);
  }

  lemma DigitIsPlain(c: char, r: Radix)
    requires DigitValue(c) < r
    ensures !IsSpace(c) && c != '-' && c != '+' && (r == 16 ==> c != 'x' && c != 'X')
  {
  }

  lemma DenoteLast(s: string, front: string, c: char, r: Radix)
    requires AllDigits(s, r) && s == front + [c]
    ensures AllDigits(front, r) && Denote(s, r) == Put(Denote(front, r), r, DigitValue(c))
  {
    assert s[..|s| - 1] == front && s[|s| - 1] == c;
  }

  lemma LastOfJoin(s: string, t: string, front: string, c: char)
    requires t == front + [c]
    ensures s + t == s + front + [c]
  {
  }

  lemma {:induction false} DenoteJoin(s: string, t: string, r: Radix)
    requires AllDigits(s, r) && AllDigits(t, r)
    ensures AllDigits(s + t, r)
    ensures Denote(s + t, r) == Denote(s, r) * Power(r, |t|) + Denote(t, r)
  {
    if |t| == 0 {
      assert s + t == s;
    } else {
      var n := |t| - 1;
      var front, c := t[..n], t[n];
      DenoteJoin(s, front, r);
      DenoteLast(t, front, c, r);
      LastOfJoin(s, t, front, c);
      DenoteLast(s + t, s + front, c, r);
      var p, d := Power(r, n), Denote(s + front, r);
      JoinStep(Denote(s, r), p, Power(r, n + 1), Denote(front, r), d, r, DigitValue(c));
    }
  }

  lemma JoinStep(q: nat, p: nat, p': nat, a: nat, d: nat, r: Radix, digit: nat)
    requires d == q * p + a && p' == p * r
    ensures Put(d, r, digit) == q * p' + Put(a, r, digit)
  {
    Distribute(q, p, a, r);
  }

  lemma {:induction false} DenoteBound(s: string, r: Radix)
    requires AllDigits(s, r)
    ensures Denote(s, r) < Power(r, |s|)
  {
    if |s| > 0 {
      var n := |s| - 1;
      DenoteBound(s[..n], r);
      ProductLess(Denote(s[..n], r) + 1, Power(r, n), r);
      assert (Denote(s[..n], r) + 1) * r == Denote(s[..n], r) * r + r;
    }
  }

  /** The first '-' of a string, -1 when there is none. */
  function MinusAt(s: string): (i: int)
    ensures -1 <= i < |s|
    ensures if i < 0 then '-' !in s else s[i] == '-' && '-' !in s[..i]
  {
    if |s| == 0 then -1
    else if s[0] == '-' then 0
    else
      var i := MinusAt(s[1..]);
      if i < 0 then -1 else
        assert s[..i + 1] == [s[0]] + s[1..][..i];
        i + 1
  }

  /** When fromString throws. */
  predicate Throws(s: string, r: int) {
    |s| == 0 || (!IsSpecial(s) && (r < 2 || 36 < r || MinusAt(s) > 0 || (s[0] == '-' && Throws(s[1..], r))))
  }

  /** Digits behind any number of signs. */
  predicate WellFormed(s: string, r: Radix) {
    |s| > 0 && if s[0] == '-' then WellFormed(s[1..], r) else AllDigits(s, r)
  }

  function Meaning(s: string, r: Radix): int
    requires WellFormed(s, r)
  {
    if IsSpecial(s) then 0 else if s[0] == '-' then -Meaning(s[1..], r) else Denote(s, r)
  }

  lemma WrapStep(n: int, m: int, p: int, v: int, w: int)
    requires m == Wrap(n) && w == Wrap(m * p)
    ensures Wrap(w + v) == Wrap(n * p + v)
  {
    WrapResidue(n);
    WrapResidue(m * p);
    MMulLeft(n, p);
    MMulLeft(m, p);
    MAdd(w, v);
    MAdd(m * p, v);
    MAdd(n * p, v);
  }

  lemma WrapResidue(n: int)
    ensures M(Wrap(n)) == M(n)
  {
    MShift(M(n), -1);
    MUnique(M(n), M(n), 0);
  }

  lemma WrapNegate(n: int)
    ensures Wrap(-Wrap(n)) == Wrap(-n)
  {
    WrapResidue(n);
    MNeg(n);
    MNeg(Wrap(n));
  }

  /** Adds one chunk: result * radix^size + value; not a number counts as zero. */
  method AddChunk(result: Long, chunk: string, r: Radix) returns (next: Long)
    requires |chunk| > 0 && Power(r, |chunk|) < W63
    ensures AllDigits(chunk, r) ==>
              Value(next) == Wrap(Wrap(Value(result) * Power(r, |chunk|)) + Denote(chunk, r))
  {
    var value := ParseInt(chunk, r);
    var power := FromNumber(Power(r, |chunk|));
    var p := Times(result, power);
    next := Plus(p, if value.None? then ZERO else FromNumber(value.value));
    if AllDigits(chunk, r) {
      ParseDigits(chunk, r);
      DenoteBound(chunk, r);
    }
  }

  lemma ChunkDenotes(s: string, i: nat, j: nat, r: Radix, before: int, after: int)
    requires i <= j <= |s| && AllDigits(s, r)
    requires before == Wrap(Denote(s[..i], r))
    requires after == Wrap(Wrap(before * Power(r, j - i)) + Denote(s[i..j], r))
    ensures after == Wrap(Denote(s[..j], r))
  {
    assert s[..i] + s[i..j] == s[..j];
    DenoteJoin(s[..i], s[i..j], r);
    ChunkWraps(Denote(s[..i], r), Power(r, j - i), Denote(s[i..j], r), Denote(s[..j], r), before, after);
  }

  lemma ChunkWraps(n: int, p: int, v: int, d: int, before: int, after: int)
    requires d == n * p + v && before == Wrap(n) && after == Wrap(Wrap(before * p) + v)
    ensures after == Wrap(d)
  {
    WrapStep(n, before, p, v, Wrap(before * p));
  }

  lemma {:induction false} PowerUpTo(r: Radix, i: nat, j: nat)
    requires i <= j
    ensures Power(r, i) <= Power(r, j)
  {
    if i < j {
      PowerUpTo(r, i, j - 1);
      PowerGrows(r, j - 1);
    }
  }

  method ParseChunk(s: string, i: nat, j: nat, k: nat, r: Radix, result: Long) returns (next: Long)
    requires i < j <= |s| && j <= i + k && Power(r, k) < W63
    ensures AllDigits(s, r) && Value(result) == Wrap(Denote(s[..i], r)) ==> Value(next) == Wrap(Denote(s[..j], r))
  {
    PowerUpTo(r, j - i, k);
    next := AddChunk(result, s[i..j], r);
    if AllDigits(s, r) && Value(result) == Wrap(Denote(s[..i], r)) {
      ChunkDenotes(s, i, j, r, Value(result), Value(next));
    }
  }

  /** A string without signs, k digits at a time from the left; the source takes k = 8. */
  method ParseChunks(s: string, k: nat, r: Radix) returns (result: Long)
    requires k > 0 && Power(r, k) < W63
    ensures AllDigits(s, r) ==> Value(result) == Wrap(Denote(s, r))
  {
    result := ZERO;
    var i := 0;
    while i < |s|
      invariant 0 <= i <= |s|
      invariant AllDigits(s, r) ==> Value(result) == Wrap(Denote(s[..i], r))
    {
      var size := if |s| - i < k then |s| - i else k;
      result := ParseChunk(s, i, i + size, k, r, result);
      i := i + size;
    }
    assert s[..i] == s;
  }

  /** None where it throws; a well-formed numeral of any length gives its meaning modulo 2^64. */
  method FromString(s: string, radix: int) returns (res: Option<Long>)
    ensures res.None? <==> Throws(s, Base(radix))
    ensures res.Some? && 2 <= Base(radix) <= 36 && WellFormed(s, Base(radix)) ==>
              Value(res.value) == Wrap(Meaning(s, Base(radix)))
    decreases |s|
  {
    if |s| == 0 {
      return None;
    }
    if IsSpecial(s) {
      return Some(ZERO);
    }
    var r := Base(radix);
    if r < 2 || 36 < r {
      return None;
    }
    var p := MinusAt(s);
    if p > 0 {
      return None;
    }
    if p == 0 {
      res := FromString(s[1..], r);
      if res.Some? {
        NegateValue(res.value);
        if WellFormed(s, r) { WrapNegate(Meaning(s[1..], r)); }
        res := Some(Negate(res.value));
      }
      return;
    }
    ChunkBounds(r);
    var result := ParseChunks(s, 8, r);
    return Some(result);
  }

  // ---------- the round trip ----------

  /** A numeral as toString writes it, without its sign. */
  ghost predicate IsPlain(d: string, r: Radix) {
    && |d| > 0 && AllDigits(d, r)
    && forall i :: 0 <= i < |d| ==> d[i] != '-' && !('A' <= d[i] <= 'Z')
  }

  lemma PlainParses(d: string, r: Radix)
    requires IsPlain(d, r)
    ensures !Throws(d, r) && WellFormed(d, r) && Meaning(d, r) == Denote(d, r)
  {
    assert d[0] != '-' && !('A' <= d[0] <= 'Z') && DigitValue(d[0]) < r;
  }

  lemma MinusParses(d: string, r: Radix)
    requires IsPlain(d, r)
    ensures var s := "-" + d; !Throws(s, r) && WellFormed(s, r) && Meaning(s, r) + Denote(d, r) == 0
  {
    PlainParses(d, r);
    var s := "-" + d;
    assert s[1..] == d && s[0] == '-' && s[1] == d[0] && !('A' <= d[0] <= 'Z');
  }

  lemma NumeralParses(v: int, r: Radix)
    ensures !Throws(Numeral(v, r), r) && WellFormed(Numeral(v, r), r) && Meaning(Numeral(v, r), r) == v
  {
    var n := if v < 0 then -v else v;
    DigitsDenote(n, r);
    if v < 0 {
      MinusParses(Digits(n, r), r);
    } else {
      PlainParses(Digits(n, r), r);
    }
  }

  lemma Recovered(x: Long, y: Long)
    requires Value(y) == Wrap(Value(x))
    ensures y == x
  {
    WrapKeeps(Value(x));
    ValueInjective(x, y);
  }

  lemma WrapKeeps(v: int)
    requires -W63 <= v < W63
    ensures Wrap(v) == v
  {
    if v < 0 {
      assert v + W64 == v % W64;
    }
  }

  /** Parsing what was printed gives the number back, in every radix, MIN_VALUE included. */
  method RoundTrip(x: Long, radix: int, g: (int, int) -> int, log: int -> int) returns (y: Option<Long>)
    requires GoodQuotient(g) && GoodLog(log) && 2 <= Base(radix) <= 36
    ensures y == Some(x)
  {
    var s := ToString(x, radix, g, log);
    NumeralParses(Value(x), Base(radix));
    y := FromString(s.value, radix);
    Recovered(x, y.value);
  }
}

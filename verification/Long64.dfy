/**
  Signed 64-bit integers as two 32-bit words, with addition and multiplication in 16-bit limbs.
  Every operation is described by the residue modulo 2^64 that its words hold.
 */
module Long64 {
  import opened Common

  type int32 = x: int | -0x8000_0000 <= x < 0x8000_0000

  datatype Long = Long(low: int32, high: int32)

  const ZERO := Long(0, 0)
  const ONE := Long(1, 0)
  const NEG_ONE := Long(-1, -1)
  const MIN_VALUE := Long(0, -0x8000_0000)
  const MAX_VALUE := Long(-1, 0x7FFF_FFFF)

  // ---------- words and residues ----------

  /** `w >>> 0`. */
  function U(w: int32): (u: int)
    ensures 0 <= u < W32
  {
    if w < 0 then w + W32 else w
  }

  /** `n | 0`. */
  function ToInt32(n: int): (w: int32)
    ensures U(w) == n % W32
  {
    var m := n % W32;
    if m >= 0x8000_0000 then m - W32 else m
  }

  /** The residue modulo 2^64. */
  function N(x: Long): (n: int)
    ensures 0 <= n < W64
  {
    U(x.high) * W32 + U(x.low)
  }

  /** The signed value. */
  function Value(x: Long): (v: int)
    ensures -W63 <= v < W63 && v == (if N(x) < W63 then N(x) else N(x) - W64)
  {
    x.high * W32 + U(x.low)
  }

  function Wrap(v: int): (w: int)
    ensures -W63 <= w < W63
  {
    var m := v % W64;
    if m < W63 then m else m - W64
  }

  function M(v: int): (m: int)
    ensures 0 <= m < W64
  {
    v % W64
  }

  lemma MUnique(s: int, r: int, k: int)
    requires s == r + W64 * k && 0 <= r < W64
    ensures M(s) == r
  {
  }

  lemma MShift(s: int, k: int)
    ensures M(s + W64 * k) == M(s)
  {
    MUnique(s + W64 * k, M(s), s / W64 + k);
  }

  lemma MAdd(a: int, b: int)
    ensures M(M(a) + M(b)) == M(a + b)
  {
    MUnique(M(a) + M(b), M(a + b), (a + b) / W64 - a / W64 - b / W64);
  }

  lemma MNeg(a: int)
    ensures M(-M(a)) == M(-a)
  {
    MUnique(-M(a), M(-a), (-a) / W64 + a / W64);
  }

  lemma MulParts(r: int, q: int, b: int)
    ensures (r + W64 * q) * b == r * b + W64 * (q * b)
  {
  }

  lemma MMulLeft(a: int, b: int)
    ensures M(M(a) * b) == M(a * b)
  {
    MulParts(M(a), a / W64, b);
    MShift(M(a) * b, a / W64 * b);
  }

  lemma MMul(a: int, b: int)
    ensures M(M(a) * M(b)) == M(a * b)
  {
    MMulLeft(a, M(b));
    MMulLeft(b, a);
  }

  lemma MValue(x: Long)
    ensures M(Value(x)) == N(x)
  {
    MShift(N(x), -1);
  }

  /** The words are determined by the value. */
  lemma ValueInjective(x: Long, y: Long)
    requires Value(x) == Value(y)
    ensures x == y
  {
  }

  /** The value of a Long whose residue is that of v. */
  lemma ValueOfResidue(x: Long, v: int)
    requires N(x) == M(v)
    ensures Value(x) == Wrap(v) && (-W63 <= v < W63 ==> Value(x) == v)
  {
    if 0 <= v < W63 {
      MUnique(v, v, 0);
    } else if -W63 <= v < 0 {
      MUnique(v, v + W64, -1);
    }
  }

  // ---------- limbs ----------

  function Hi(w: int32): (h: int)
    ensures 0 <= h < W16
  {
    U(w) / W16
  }

  function Lo(w: int32): (l: int)
    ensures 0 <= l < W16 && U(w) == Hi(w) * W16 + l
  {
    U(w) % W16
  }

  /** `(h << 16) | l` for l below 2^16. */
  function Join(h: int, l: int): (w: int32)
    requires 0 <= h < W16 && 0 <= l < W16
    ensures U(w) == h * W16 + l
  {
    ToInt32(h * W16 + l)
  }

  /** `c >>> 16`, which first takes c modulo 2^32. */
  function Carry(c: int): int {
    c % W32 / W16
  }

  lemma CarryExact(c: int)
    requires 0 <= c < W32
    ensures Carry(c) == c / W16 && 0 <= Carry(c) < W16 && c == Carry(c) * W16 + c % W16
  {
  }

  function FromLimbs(c48: int, c32: int, c16: int, c00: int): (x: Long)
    ensures N(x) == c00 % W16 + W16 * (c16 % W16) + W32 * (c32 % W16) + W48 * (c48 % W16)
  {
    Long(Join(c16 % W16, c00 % W16), Join(c48 % W16, c32 % W16))
  }

  lemma Limbs(x: Long)
    ensures N(x) == Lo(x.low) + W16 * Hi(x.low) + W32 * Lo(x.high) + W48 * Hi(x.high)
  {
  }

  // ---------- addition ----------

  function Add(a: Long, b: Long): (c: Long)
    ensures N(c) == M(N(a) + N(b))
  {
    var c00 := Lo(a.low) + Lo(b.low);
    var c16 := Carry(c00) + Hi(a.low) + Hi(b.low);
    var c32 := Carry(c16) + Lo(a.high) + Lo(b.high);
    var c48 := Carry(c32) + Hi(a.high) + Hi(b.high);
    assert N(FromLimbs(c48, c32, c16, c00)) == M(N(a) + N(b)) by {
      CarryExact(c00);
      CarryExact(c16);
      CarryExact(c32);
      Limbs(a);
      Limbs(b);
      MUnique(N(a) + N(b), N(FromLimbs(c48, c32, c16, c00)), c48 / W16);
    }
    FromLimbs(c48, c32, c16, c00)
  }

  function Not(x: Long): (y: Long)
    ensures N(y) == W64 - 1 - N(x)
  {
    Long(-1 - x.low, -1 - x.high)
  }

  function Negate(x: Long): (y: Long)
    ensures N(y) == M(-N(x))
  {
    assert M(W64 - N(x)) == M(-N(x)) by { MShift(-N(x), 1); }
    if x == MIN_VALUE then MIN_VALUE else Add(Not(x), ONE)
  }

  function Subtract(a: Long, b: Long): (c: Long)
    ensures N(c) == M(N(a) - N(b))
  {
    assert M(N(a) + M(-N(b))) == M(N(a) - N(b)) by { MAdd(N(a), -N(b)); MUnique(N(a), N(a), 0); }
    Add(a, Negate(b))
  }

  predicate IsNegative(x: Long) {
    x.high < 0
  }

  lemma AddValue(a: Long, b: Long)
    ensures Value(Add(a, b)) == Wrap(Value(a) + Value(b))
    ensures -W63 <= Value(a) + Value(b) < W63 ==> Value(Add(a, b)) == Value(a) + Value(b)
  {
    MValue(a);
    MValue(b);
    MAdd(Value(a), Value(b));
    ValueOfResidue(Add(a, b), Value(a) + Value(b));
  }

  lemma NegateValue(x: Long)
    ensures Value(Negate(x)) == Wrap(-Value(x))
    ensures x != MIN_VALUE ==> Value(Negate(x)) == -Value(x)
  {
    MValue(x);
    MNeg(Value(x));
    ValueOfResidue(Negate(x), -Value(x));
    if Value(x) == -W63 {
      ValueInjective(x, MIN_VALUE);
    }
  }

  lemma MSub(a: int, b: int)
    ensures M(M(a) - M(b)) == M(a - b)
  {
    MUnique(M(a) - M(b), M(a - b), (a - b) / W64 - a / W64 + b / W64);
  }

  lemma SubtractResidue(a: Long, b: Long)
    ensures N(Subtract(a, b)) == M(Value(a) - Value(b))
  {
    MValue(a);
    MValue(b);
    MSub(Value(a), Value(b));
  }

  lemma SubtractValue(a: Long, b: Long)
    ensures Value(Subtract(a, b)) == Wrap(Value(a) - Value(b))
    ensures -W63 <= Value(a) - Value(b) < W63 ==> Value(Subtract(a, b)) == Value(a) - Value(b)
  {
    SubtractResidue(a, b);
    ValueOfResidue(Subtract(a, b), Value(a) - Value(b));
  }

  /** -1, 0 or 1. */
  function Compare(a: Long, b: Long): (c: int)
    ensures c == if Value(a) < Value(b) then -1 else if Value(a) == Value(b) then 0 else 1
  {
    if a == b then 0
    else if IsNegative(a) && !IsNegative(b) then -1
    else if !IsNegative(a) && IsNegative(b) then 1
    else
      assert (Value(a) == Value(b) ==> a == b) && IsNegative(Subtract(a, b)) == (Value(a) < Value(b)) by {
        SubtractValue(a, b);
        if Value(a) == Value(b) { ValueInjective(a, b); }
      }
      if IsNegative(Subtract(a, b)) then -1 else 1
  }

  // ---------- numbers ----------

  /** fromNumber on whole numbers: out of range they saturate. */
  function FromNumber(v: int): (x: Long)
    ensures Value(x) == if v < -W63 then -W63 else if v >= W63 then W63 - 1 else v
    decreases v < 0
  {
    if v <= -W63 then MIN_VALUE
    else if v + 1 >= W63 then MAX_VALUE
    else if v < 0 then
      var y := FromNumber(-v);
      assert y != MIN_VALUE && Value(Negate(y)) == v by { NegateValue(y); }
      Negate(y)
    else Long(ToInt32(v % W32), ToInt32(v / W32))
  }

  // ---------- multiplication ----------

  lemma TimesAtMost(x: int, y: int, k: int)
    requires 0 <= x && 0 <= y <= k
    ensures 0 <= x * y <= x * k
  {
    assert x * (k - y) >= 0;
    assert x * (k - y) == x * k - x * y;
  }

  predicate IsProduct(p: int) {
    0 <= p <= 0xFFFF * 0xFFFF
  }

  lemma ProductBound(x: int, y: int)
    requires 0 <= x < W16 && 0 <= y < W16
    ensures IsProduct(x * y)
  {
    TimesAtMost(x, y, 0xFFFF);
  }

  lemma Spread(x0: int, x1: int, x2: int, x3: int, y: int)
    ensures (x0 + W16 * x1 + W32 * x2 + W48 * x3) * y == x0 * y + W16 * (x1 * y) + W32 * (x2 * y) + W48 * (x3 * y)
  {
  }

  /** A number in limbs. */
  ghost predicate InLimbs(n: int, x0: int, x1: int, x2: int, x3: int) {
    n == x0 + W16 * x1 + W32 * x2 + W48 * x3
  }

  lemma Row(n: int, x0: int, x1: int, x2: int, x3: int, y: int)
    requires InLimbs(n, x0, x1, x2, x3)
    ensures InLimbs(n * y, x0 * y, x1 * y, x2 * y, x3 * y)
  {
    Spread(x0, x1, x2, x3, y);
  }

  /** Four rows of limb products; those of weight 2^64 and more are gathered in `over`. */
  lemma Gather(t: int, r0: int, r1: int, r2: int, r3: int, p00: int, p10: int, p20: int, p30: int, p01: int, p11: int,
               p21: int, p31: int, p02: int, p12: int, p22: int, p32: int, p03: int, p13: int, p23: int, p33: int)
    returns (over: int)
    requires InLimbs(t, r0, r1, r2, r3)
    requires InLimbs(r0, p00, p10, p20, p30) && InLimbs(r1, p01, p11, p21, p31)
    requires InLimbs(r2, p02, p12, p22, p32) && InLimbs(r3, p03, p13, p23, p33)
    ensures t == p00 + W16 * (p10 + p01) + W32 * (p20 + p11 + p02) + W48 * (p30 + p21 + p12 + p03) + W64 * over
  {
    over := p31 + p22 + p13 + W16 * (p32 + p23) + W32 * p33;
  }

  /** The product of two numbers in limbs, by the weight of its limb products. */
  lemma Expand(n: int, m: int, a0: int, a1: int, a2: int, a3: int, b0: int, b1: int, b2: int, b3: int)
    returns (over: int)
    requires InLimbs(n, a0, a1, a2, a3) && InLimbs(m, b0, b1, b2, b3)
    ensures n * m == a0 * b0 + W16 * (a1 * b0 + a0 * b1) + W32 * (a2 * b0 + a1 * b1 + a0 * b2)
                     + W48 * (a3 * b0 + a2 * b1 + a1 * b2 + a0 * b3) + W64 * over
  {
    Row(m, b0, b1, b2, b3, n);
    Row(n, a0, a1, a2, a3, b0);
    Row(n, a0, a1, a2, a3, b1);
    Row(n, a0, a1, a2, a3, b2);
    Row(n, a0, a1, a2, a3, b3);
    over := Gather(n * m, n * b0, n * b1, n * b2, n * b3,
      a0 * b0, a1 * b0, a2 * b0, a3 * b0, a0 * b1, a1 * b1, a2 * b1, a3 * b1,
      a0 * b2, a1 * b2, a2 * b2, a3 * b2, a0 * b3, a1 * b3, a2 * b3, a3 * b3);
  }

  /** One column of the sum: no carry is lost. */
  lemma Column(c: int, p: int)
    requires 0 <= c <= 0x1_FFFE && IsProduct(p)
    ensures 0 <= c + p < W32 && 0 <= Carry(c + p) <= 0xFFFF && c + p == Carry(c + p) * W16 + (c + p) % W16
  {
    CarryExact(c + p);
  }

  /** The words made of six limb products and the sum of the four topmost, column by column. */
  function FromColumns(p00: int, p10: int, p01: int, p20: int, p11: int, p02: int, top: int): Long {
    var c16a := Carry(p00) + p10;
    var c16b := c16a % W16 + p01;
    var c32a := Carry(c16a) + Carry(c16b) + p20;
    var c32b := c32a % W16 + p11;
    var c32c := c32b % W16 + p02;
    FromLimbs(Carry(c32a) + Carry(c32b) + Carry(c32c) + top, c32c, c16b, p00)
  }

  /** The carries of the column sums, none of which reaches 2^32. */
  /** The two lower columns. */
  lemma LowColumns(p00: int, p10: int, p01: int, c16a: int, c16b: int)
    requires IsProduct(p00) && IsProduct(p10) && IsProduct(p01)
    requires c16a == Carry(p00) + p10 && c16b == c16a % W16 + p01
    ensures c16a < W32 && c16b < W32 && 0 <= Carry(c16a) + Carry(c16b) <= 0x1_FFFE
    ensures p00 + W16 * (p10 + p01) == p00 % W16 + W16 * (c16b % W16) + W32 * (Carry(c16a) + Carry(c16b))
  {
    Column(0, p00);
    Column(Carry(p00), p10);
    Column(c16a % W16, p01);
  }

  /** The two upper ones, with the carry of the lower. */
  lemma HighColumns(carry: int, p20: int, p11: int, p02: int, top: int, c32a: int, c32b: int, c32c: int, c48: int)
    requires 0 <= carry <= 0x1_FFFE && IsProduct(p20) && IsProduct(p11) && IsProduct(p02)
    requires c32a == carry + p20 && c32b == c32a % W16 + p11 && c32c == c32b % W16 + p02
    requires c48 == Carry(c32a) + Carry(c32b) + Carry(c32c) + top
    ensures c32a < W32 && c32b < W32 && c32c < W32
    ensures carry + (p20 + p11 + p02) + W16 * top
         == c32c % W16 + W16 * (c48 % W16) + W32 * (c48 / W16)
  {
    Column(carry, p20);
    Column(c32a % W16, p11);
    Column(c32b % W16, p02);
  }

  lemma Columns(p00: int, p10: int, p01: int, p20: int, p11: int, p02: int, top: int, c16a: int, c16b: int, c32a: int,
                c32b: int, c32c: int, c48: int)
    requires IsProduct(p00) && IsProduct(p10) && IsProduct(p01) && IsProduct(p20) && IsProduct(p11) && IsProduct(p02)
    requires c16a == Carry(p00) + p10 && c16b == c16a % W16 + p01
    requires c32a == Carry(c16a) + Carry(c16b) + p20 && c32b == c32a % W16 + p11 && c32c == c32b % W16 + p02
    requires c48 == Carry(c32a) + Carry(c32b) + Carry(c32c) + top
    ensures c16a < W32 && c16b < W32 && c32a < W32 && c32b < W32 && c32c < W32
    ensures p00 + W16 * (p10 + p01) + W32 * (p20 + p11 + p02) + W48 * top
         == p00 % W16 + W16 * (c16b % W16) + W32 * (c32c % W16) + W48 * (c48 % W16) + W64 * (c48 / W16)
  {
    LowColumns(p00, p10, p01, c16a, c16b);
    HighColumns(Carry(c16a) + Carry(c16b), p20, p11, p02, top, c32a, c32b, c32c, c48);
  }

  lemma Finish(c48: int, c32: int, c16: int, c00: int, over: int, t: int)
    requires t == c00 % W16 + W16 * (c16 % W16) + W32 * (c32 % W16) + W48 * (c48 % W16) + W64 * (c48 / W16) + W64 * over
    ensures N(FromLimbs(c48, c32, c16, c00)) == M(t)
  {
    MUnique(t, N(FromLimbs(c48, c32, c16, c00)), c48 / W16 + over);
  }

  lemma ColumnsFinish(p00: int, p10: int, p01: int, p20: int, p11: int, p02: int, top: int, c16a: int, c16b: int,
                      c32a: int, c32b: int, c32c: int, c48: int, over: int, t: int, x: Long)
    requires IsProduct(p00) && IsProduct(p10) && IsProduct(p01) && IsProduct(p20) && IsProduct(p11) && IsProduct(p02)
    requires c16a == Carry(p00) + p10 && c16b == c16a % W16 + p01
    requires c32a == Carry(c16a) + Carry(c16b) + p20 && c32b == c32a % W16 + p11 && c32c == c32b % W16 + p02
    requires c48 == Carry(c32a) + Carry(c32b) + Carry(c32c) + top
    requires t == p00 + W16 * (p10 + p01) + W32 * (p20 + p11 + p02) + W48 * top + W64 * over
    requires x == FromLimbs(c48, c32c, c16b, p00)
    ensures N(x) == M(t)
  {
    Columns(p00, p10, p01, p20, p11, p02, top, c16a, c16b, c32a, c32b, c32c, c48);
    Finish(c48, c32c, c16b, p00, over, t);
  }

  lemma ColumnsAre(p00: int, p10: int, p01: int, p20: int, p11: int, p02: int, top: int, c16a: int, c16b: int,
                   c32a: int, c32b: int, c32c: int, c48: int)
    requires c16a == Carry(p00) + p10 && c16b == c16a % W16 + p01
    requires c32a == Carry(c16a) + Carry(c16b) + p20 && c32b == c32a % W16 + p11 && c32c == c32b % W16 + p02
    requires c48 == Carry(c32a) + Carry(c32b) + Carry(c32c) + top
    ensures FromColumns(p00, p10, p01, p20, p11, p02, top) == FromLimbs(c48, c32c, c16b, p00)
  {
  }

  lemma FromColumnsExact(p00: int, p10: int, p01: int, p20: int, p11: int, p02: int, top: int, over: int, t: int,
                         x: Long)
    requires IsProduct(p00) && IsProduct(p10) && IsProduct(p01) && IsProduct(p20) && IsProduct(p11) && IsProduct(p02)
    requires t == p00 + W16 * (p10 + p01) + W32 * (p20 + p11 + p02) + W48 * top + W64 * over
    requires x == FromColumns(p00, p10, p01, p20, p11, p02, top)
    ensures N(x) == M(t)
  {
    var c16a := Carry(p00) + p10;
    var c16b := c16a % W16 + p01;
    var c32a := Carry(c16a) + Carry(c16b) + p20;
    var c32b := c32a % W16 + p11;
    var c32c := c32b % W16 + p02;
    var c48 := Carry(c32a) + Carry(c32b) + Carry(c32c) + top;
    ColumnsAre(p00, p10, p01, p20, p11, p02, top, c16a, c16b, c32a, c32b, c32c, c48);
    ColumnsFinish(p00, p10, p01, p20, p11, p02, top, c16a, c16b, c32a, c32b, c32c, c48, over, t, x);
  }

  /** Ten of the sixteen limb products. */
  function MultiplyLimbs(a: Long, b: Long): Long {
    var (a00, a16, a32, a48) := (Lo(a.low), Hi(a.low), Lo(a.high), Hi(a.high));
    var (b00, b16, b32, b48) := (Lo(b.low), Hi(b.low), Lo(b.high), Hi(b.high));
    FromColumns(a00 * b00, a16 * b00, a00 * b16, a32 * b00, a16 * b16, a00 * b32,
                a48 * b00 + a32 * b16 + a16 * b32 + a00 * b48)
  }

  lemma MultiplyLimbsExact(a: Long, b: Long)
    ensures N(MultiplyLimbs(a, b)) == M(N(a) * N(b))
  {
    var a00, a16, a32, a48 := Lo(a.low), Hi(a.low), Lo(a.high), Hi(a.high);
    var b00, b16, b32, b48 := Lo(b.low), Hi(b.low), Lo(b.high), Hi(b.high);
    Limbs(a);
    Limbs(b);
    var over := Expand(N(a), N(b), a00, a16, a32, a48, b00, b16, b32, b48);
    ProductBound(a00, b00);
    ProductBound(a16, b00);
    ProductBound(a00, b16);
    ProductBound(a32, b00);
    ProductBound(a16, b16);
    ProductBound(a00, b32);
    FromColumnsExact(a00 * b00, a16 * b00, a00 * b16, a32 * b00, a16 * b16, a00 * b32,
                     a48 * b00 + a32 * b16 + a16 * b32 + a00 * b48, over, N(a) * N(b), MultiplyLimbs(a, b));
  }

  function IsOdd(x: Long): bool {
    x.low % 2 == 1
  }

  const TWO_PWR_24 := Long(0x100_0000, 0)

  function MultiplyPositive(a: Long, b: Long): Long {
    if Compare(a, TWO_PWR_24) < 0 && Compare(b, TWO_PWR_24) < 0 then FromNumber(Value(a) * Value(b))
    else MultiplyLimbs(a, b)
  }

  /** Reduces a product to one of operands that are not negative. */
  function Signed(f: (Long, Long) -> Long, a: Long, b: Long): Long {
    if IsNegative(a) then
      if IsNegative(b) then f(Negate(a), Negate(b)) else Negate(f(Negate(a), b))
    else if IsNegative(b) then Negate(f(a, Negate(b)))
    else f(a, b)
  }

  function Multiply(a: Long, b: Long): Long {
    if a == ZERO || b == ZERO then ZERO
    else if a == MIN_VALUE then if IsOdd(b) then MIN_VALUE else ZERO
    else if b == MIN_VALUE then if IsOdd(a) then MIN_VALUE else ZERO
    else Signed(MultiplyPositive, a, b)
  }

  lemma SmallProduct(x: int, y: int)
    requires 0 <= x < 0x100_0000 && 0 <= y < 0x100_0000
    ensures 0 <= x * y < W48
  {
    TimesAtMost(x, y, 0x100_0000);
  }

  lemma MultiplyPositiveExact(a: Long, b: Long)
    requires !IsNegative(a) && !IsNegative(b)
    ensures N(MultiplyPositive(a, b)) == M(N(a) * N(b))
  {
    if Compare(a, TWO_PWR_24) < 0 && Compare(b, TWO_PWR_24) < 0 {
      SmallProduct(Value(a), Value(b));
      MUnique(N(a) * N(b), N(a) * N(b), 0);
    } else {
      MultiplyLimbsExact(a, b);
    }
  }

  lemma MinTimes(x: Long)
    ensures M(N(MIN_VALUE) * N(x)) == if IsOdd(x) then N(MIN_VALUE) else 0
  {
    var h := N(x) / 2;
    assert N(MIN_VALUE) == W63;
    if IsOdd(x) {
      assert N(x) == 2 * h + 1;
      MUnique(W63 * N(x), W63, h);
    } else {
      assert N(x) == 2 * h;
      MUnique(W63 * N(x), 0, h);
    }
  }

  lemma NegatedBoth(x: int, y: int)
    ensures M(M(-x) * M(-y)) == M(x * y)
  {
    MMul(-x, -y);
    assert (-x) * (-y) == x * y;
  }

  lemma NegatedOne(x: int, y: int)
    ensures M(-M(M(-x) * y)) == M(x * y)
  {
    MMulLeft(-x, y);
    NegatedProduct(x, y);
    MNeg(-(x * y));
  }

  lemma NegatedProduct(x: int, y: int)
    ensures (-x) * y == -(x * y)
  {
  }

  lemma NegatedLeft(p: int, x: int, y: int, z: int)
    requires p == M(z * y) && z == M(-x)
    ensures M(-p) == M(x * y)
  {
    NegatedOne(x, y);
  }

  lemma NegatedRight(p: int, x: int, y: int, z: int)
    requires p == M(x * z) && z == M(-y)
    ensures M(-p) == M(x * y)
  {
    NegatedOne(y, x);
    assert x * z == z * x && x * y == y * x;
  }

  ghost predicate Ordinary(x: Long) {
    x != MIN_VALUE && x != ZERO
  }

  ghost predicate Multiplies(f: (Long, Long) -> Long) {
    forall x, y :: !IsNegative(x) && !IsNegative(y) ==> N(f(x, y)) == M(N(x) * N(y))
  }

  lemma SignedBoth(f: (Long, Long) -> Long, a: Long, b: Long)
    requires Multiplies(f) && Ordinary(a) && Ordinary(b) && IsNegative(a) && IsNegative(b)
    ensures N(Signed(f, a, b)) == M(N(a) * N(b))
  {
    NegateValue(a);
    NegateValue(b);
    NegatedBoth(N(a), N(b));
  }

  lemma SignedLeft(f: (Long, Long) -> Long, a: Long, b: Long)
    requires Multiplies(f) && Ordinary(a) && Ordinary(b) && IsNegative(a) && !IsNegative(b)
    ensures N(Signed(f, a, b)) == M(N(a) * N(b))
  {
    NegateValue(a);
    NegatedLeft(N(f(Negate(a), b)), N(a), N(b), N(Negate(a)));
  }

  lemma SignedRight(f: (Long, Long) -> Long, a: Long, b: Long)
    requires Multiplies(f) && Ordinary(a) && Ordinary(b) && !IsNegative(a) && IsNegative(b)
    ensures N(Signed(f, a, b)) == M(N(a) * N(b))
  {
    NegateValue(b);
    NegatedRight(N(f(a, Negate(b))), N(a), N(b), N(Negate(b)));
  }

  lemma SignedExact(f: (Long, Long) -> Long, a: Long, b: Long)
    requires Multiplies(f) && Ordinary(a) && Ordinary(b)
    ensures N(Signed(f, a, b)) == M(N(a) * N(b))
  {
    if IsNegative(a) {
      if IsNegative(b) { SignedBoth(f, a, b); } else { SignedLeft(f, a, b); }
    } else if IsNegative(b) {
      SignedRight(f, a, b);
    }
  }

  lemma MultiplySigned(a: Long, b: Long)
    requires Ordinary(a) && Ordinary(b)
    ensures N(Multiply(a, b)) == M(N(a) * N(b))
  {
    forall x, y | !IsNegative(x) && !IsNegative(y)
      ensures N(MultiplyPositive(x, y)) == M(N(x) * N(y))
    {
      MultiplyPositiveExact(x, y);
    }
    SignedExact(MultiplyPositive, a, b);
  }

  /** On every path the product modulo 2^64. */
  lemma MultiplyExact(a: Long, b: Long)
    ensures N(Multiply(a, b)) == M(N(a) * N(b))
  {
    if a == ZERO || b == ZERO {
      assert N(a) * N(b) == 0;
    } else if a == MIN_VALUE {
      MinTimes(b);
    } else if b == MIN_VALUE {
      MinTimes(a);
      assert N(a) * N(b) == N(b) * N(a);
    } else {
      MultiplySigned(a, b);
    }
  }

  lemma MultiplyValue(a: Long, b: Long)
    ensures Value(Multiply(a, b)) == Wrap(Value(a) * Value(b))
    ensures -W63 <= Value(a) * Value(b) < W63 ==> Value(Multiply(a, b)) == Value(a) * Value(b)
  {
    MultiplyExact(a, b);
    MValue(a);
    MValue(b);
    MMul(Value(a), Value(b));
    ValueOfResidue(Multiply(a, b), Value(a) * Value(b));
  }
}

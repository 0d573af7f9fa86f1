/**
  The Reed-Solomon remainder of the QR encoder: the EXP and LOG tables, polynomial product and
  remainder through logarithms, the generator polynomial and the error-correction bytes of one block.
 */
module ReedSolomon {
  import opened Common
  import opened FieldTheory
  import opened Vandermonde
  import opened Galois

  /** A slot of a JavaScript number array: `new Array(n)` leaves its slots unset. */
  datatype Slot = Unset | Num(n: bv8)

  /** GF(256) as a field record. */
  ghost function Gf(): Field<bv8> {
    Field(0, 1, (a: bv8, b: bv8) => a ^ b, (a: bv8, b: bv8) => Mul(a, b))
  }

  lemma GfAdd(a: bv8, b: bv8)
    ensures Gf().add(a, b) == a ^ b
  {
  }

  lemma GfMul(a: bv8, b: bv8)
    ensures Gf().mul(a, b) == Mul(a, b)
  {
  }

  lemma GfAddComm(a: bv8, b: bv8)
    ensures Gf().add(a, b) == Gf().add(b, a)
  {
    assert a ^ b == b ^ a;
  }

  lemma GfAddAssoc(a: bv8, b: bv8, c: bv8)
    ensures Gf().add(Gf().add(a, b), c) == Gf().add(a, Gf().add(b, c))
  {
    assert (a ^ b) ^ c == a ^ (b ^ c);
  }

  lemma GfAddZero(a: bv8)
    ensures Gf().add(a, Gf().zero) == a && Gf().add(a, a) == Gf().zero
  {
  }

  lemma GfAddLaws(a: bv8, b: bv8, c: bv8)
    ensures AddLaws(Gf(), a, b, c)
  {
    GfAddComm(a, b);
    GfAddAssoc(a, b, c);
    GfAddZero(a);
  }

  lemma GfMulLaws(a: bv8, b: bv8, c: bv8)
    ensures MulLaws(Gf(), a, b, c)
  {
    Galois.MulComm(a, b);
    Galois.MulAssoc(a, b, c);
    Galois.MulOne(a);
    if a != 0 && b != 0 {
      Galois.MulNonzero(a, b);
    }
  }

  lemma GfDistrib(a: bv8, b: bv8, c: bv8)
    ensures Gf().mul(a, Gf().add(b, c)) == Gf().add(Gf().mul(a, b), Gf().mul(a, c))
  {
    var d, m, n := b ^ c, Mul(a, b), Mul(a, c);
    assert Mul(a, d) == m ^ n by { Galois.MulDistrib(a, b, c); }
    assert Gf().add(b, c) == d by { GfAdd(b, c); }
    assert Gf().mul(a, d) == Mul(a, d) by { GfMul(a, d); }
    assert Gf().mul(a, b) == m && Gf().mul(a, c) == n by {
      GfMul(a, b);
      GfMul(a, c);
    }
    assert Gf().add(m, n) == m ^ n by { GfAdd(m, n); }
  }

  /** The table arithmetic is a field of characteristic two. */
  lemma GfIsField()
    ensures IsField(Gf())
  {
    forall a: bv8, b: bv8, c: bv8
      ensures FieldLaws(Gf(), a, b, c)
    {
      GfAddLaws(a, b, c);
      GfMulLaws(a, b, c);
      GfDistrib(a, b, c);
    }
  }

  lemma {:induction false} PowIsAlpha(i: nat)
    ensures Pow(Gf(), 2, i) == Alpha(i)
  {
    if i > 0 {
      PowIsAlpha(i - 1);
      assert Alpha(1) == 2;
      MulAlpha(i - 1, 1);
    }
  }

  lemma PointsDistinct(n: nat)
    requires n <= 255
    ensures Distinct(Points(Gf(), 2, n))
  {
    var xs := Points(Gf(), 2, n);
    forall i, j | 0 <= i < j < |xs|
      ensures xs[i] != xs[j]
    {
      PowIsAlpha(n - 1 - i);
      PowIsAlpha(n - 1 - j);
      AlphaInjective(n - 1 - j, n - 1 - i);
    }
  }

  // ---------- tables ----------

  lemma AlphaLow(i: nat)
    requires i < 8
    ensures Alpha(i) == (1 as bv8) << i
  {
    AlphaSmall();
    if i == 0 {
    } else if i == 1 {
    } else if i == 2 {
    } else if i == 3 {
    } else if i == 4 {
    } else if i == 5 {
    } else if i == 6 {
    } else {
    }
  }

  /** The EXP and LOG tables. They are filled once and only read afterwards. */
  class QrMath {
    const expTable: seq<bv8>
    const logTable: seq<nat>

    ghost predicate Valid() {
      && |expTable| == 256 && |logTable| == 256
      && (forall i :: 0 <= i < 256 ==> expTable[i] == Alpha(i))
      && (forall i :: 0 <= i < 255 ==> logTable[Code(Alpha(i))] == i)
    }

    constructor ()
      ensures Valid()
    {
      var e := new bv8[256];
      var l := new nat[256];
      var i := 0;
      while i < 8
        invariant 0 <= i <= 8
        invariant forall j :: 0 <= j < i ==> e[j] == Alpha(j)
      {
        e[i] := (1 as bv8) << i;
        AlphaLow(i);
        i := i + 1;
      }
      i := 8;
      while i < 256
        invariant 8 <= i <= 256
        invariant forall j :: 0 <= j < i ==> e[j] == Alpha(j)
      {
        e[i] := e[i - 4] ^ e[i - 5] ^ e[i - 6] ^ e[i - 8];
        AlphaRecurrence(i);
        i := i + 1;
      }
      i := 0;
      while i < 255
        invariant 0 <= i <= 255
        invariant forall j :: 0 <= j < 256 ==> e[j] == Alpha(j)
        invariant forall j :: 0 <= j < i ==> l[Code(Alpha(j))] == j
      {
        forall j | 0 <= j < i
          ensures Code(Alpha(j)) != Code(Alpha(i))
        {
          AlphaInjective(j, i);
          if Code(Alpha(j)) == Code(Alpha(i)) {
            CodeInjective(Alpha(j), Alpha(i));
          }
        }
        l[Code(e[i])] := i;
        i := i + 1;
      }
      expTable := e[..];
      logTable := l[..];
    }

    /** The logarithm, or None where the encoder throws. */
    method Glog(n: bv8) returns (r: Option<nat>)
      requires Valid()
      ensures r == if n == 0 then None else Some(Log(n))
    {
      if n < 1 {
        return None;
      }
      assert n == Alpha(Log(n));
      return Some(logTable[Code(n)]);
    }

    method Gexp(n: int) returns (r: bv8)
      requires Valid()
      ensures r == Alpha(n % 255)
    {
      var m := n;
      while m < 0
        invariant m % 255 == n % 255
      {
        m := m + 255;
      }
      while m >= 256
        invariant m % 255 == n % 255 && m >= 0
      {
        m := m - 255;
      }
      AlphaMod(m);
      return expTable[m];
    }
  }

  // ---------- polynomials ----------

  function Val(s: Slot): bv8 {
    if s.Num? then s.n else 0
  }

  function Vals(p: seq<Slot>): (r: seq<bv8>)
    ensures |r| == |p|
  {
    seq(|p|, i requires 0 <= i < |p| => Val(p[i]))
  }

  function Nums(p: seq<bv8>): seq<Slot> {
    seq(|p|, i requires 0 <= i < |p| => Num(p[i]))
  }

  function Unsets(n: nat): seq<Slot> {
    seq(n, _ => Unset)
  }

  /** The leading slots that hold the number zero; an unset slot is not equal to zero. */
  function LeadingZeros(p: seq<Slot>): (n: nat)
    ensures n <= |p|
    ensures forall i :: 0 <= i < n ==> p[i] == Num(0)
    ensures n < |p| ==> p[n] != Num(0)
  {
    if |p| > 0 && p[0] == Num(0) then 1 + LeadingZeros(p[1..]) else 0
  }

  function NewPoly(num: seq<Slot>, shift: nat): seq<Slot> {
    num[LeadingZeros(num)..] + Unsets(shift)
  }

  method QrPolynomial(num: seq<Slot>, shift: nat) returns (p: seq<Slot>)
    ensures p == NewPoly(num, shift)
  {
    var offset := 0;
    while offset < |num| && num[offset] == Num(0)
      invariant 0 <= offset <= |num|
      invariant LeadingZeros(num) == offset + LeadingZeros(num[offset..])
    {
      offset := offset + 1;
      assert num[offset - 1..][1..] == num[offset..];
    }
    var slots := new Slot[|num| - offset + shift](_ => Unset);
    var i := 0;
    while i < |num| - offset
      invariant 0 <= i <= |num| - offset
      invariant forall t :: 0 <= t < slots.Length ==> slots[t] == if t < i then num[t + offset] else Unset
    {
      slots[i] := num[i + offset];
      i := i + 1;
    }
    p := slots[..];
  }

  /** What every polynomial of the encoder satisfies: no leading zero, unset slots only in the tail. */
  ghost predicate Normal(p: seq<Slot>, tail: nat) {
    && (|p| > 0 ==> p[0] != Num(0))
    && (forall i :: 0 <= i < |p| - tail ==> p[i].Num?)
  }

  lemma NewPolyValue(num: seq<Slot>, x: bv8)
    ensures Eval(Gf(), Vals(NewPoly(num, 0)), x) == Eval(Gf(), Vals(num), x)
  {
    var n := LeadingZeros(num);
    var p := NewPoly(num, 0);
    assert Vals(num) == Zeros(Gf(), n) + Vals(p);
    GfIsField();
    EvalLeadingZeros(Gf(), n, Vals(p), x);
  }

  ghost predicate HasZero(p: seq<bv8>) {
    exists i :: 0 <= i < |p| && p[i] == 0
  }

  lemma XorProduct(a: bv8, c: bv8, e: bv8, g: bv8)
    requires g == Mul(c, e)
    ensures a ^ g == Gf().add(a, Gf().mul(c, e))
  {
    GfMul(c, e);
    GfAdd(a, g);
  }

  /** gexp(glog(a) + glog(b)), or None where glog throws. */
  method LogProduct(q: QrMath, a: bv8, b: bv8) returns (r: Option<bv8>)
    requires q.Valid()
    ensures r == if a == 0 || b == 0 then None else Some(Mul(a, b))
  {
    var la := q.Glog(a);
    if la.None? {
      return None;
    }
    var lb := q.Glog(b);
    if lb.None? {
      return None;
    }
    var g := q.Gexp(la.value + lb.value);
    AlphaMod(la.value + lb.value);
    return Some(g);
  }

  /** The inner loop of the product: c * e is added at position i, unless a zero makes it throw. */
  method AddMultiple(q: QrMath, num: array<bv8>, c: bv8, e: seq<bv8>, i: nat) returns (ok: bool)
    requires q.Valid() && i + |e| <= num.Length
    modifies num
    ensures ok <==> |e| == 0 || (c != 0 && !HasZero(e))
    ensures ok ==> AddsAt(Gf(), c, e, i, old(num[..]), num[..])
  {
    var j := 0;
    while j < |e|
      invariant 0 <= j <= |e| && AddedUpTo(c, e, i, j, old(num[..]), num[..])
      invariant j > 0 ==> c != 0
      invariant forall t :: 0 <= t < j ==> e[t] != 0
    {
      var g := LogProduct(q, c, e[j]);
      if g.None? {
        return false;
      }
      XorProduct(num[i + j], c, e[j], g.value);
      num[i + j] := num[i + j] ^ g.value;
      j := j + 1;
    }
    return true;
  }

  /** The first j coefficients of c * e are added at position i. */
  ghost predicate AddedUpTo(c: bv8, e: seq<bv8>, i: nat, j: nat, base: seq<bv8>, num: seq<bv8>) {
    && j <= |e| && |num| == |base|
    && forall t :: 0 <= t < |num| ==>
         num[t] == if i <= t < i + j then Gf().add(base[t], Gf().mul(c, e[t - i])) else base[t]
  }

  lemma NonzeroLead(a: seq<bv8>, e: seq<bv8>)
    requires |a| >= 1 && |e| >= 1 && a[0] != 0 && e[0] != 0
    ensures Vals(NewPoly(Nums(Product(Gf(), a, e)), 0)) == Product(Gf(), a, e)
  {
    GfIsField();
    ProductLead(Gf(), a, e);
    GfMul(a[0], e[0]);
    Galois.MulNonzero(a[0], e[0]);
  }

  /** The polynomial product; None where a zero coefficient makes the logarithm throw. */
  method Multiply(q: QrMath, a: seq<bv8>, e: seq<bv8>) returns (r: Option<seq<bv8>>)
    requires q.Valid() && |a| >= 1 && |e| >= 1
    ensures r.None? <==> HasZero(a) || HasZero(e)
    ensures r.Some? ==> r.value == Product(Gf(), a, e)
  {
    ghost var k := Gf();
    GfIsField();
    var num := new bv8[|a| + |e| - 1](_ => 0);
    assert num[..] == Product(k, a[..0], e) + Zeros(k, |a|);
    var i := 0;
    while i < |a|
      invariant 0 <= i <= |a|
      invariant num[..] == Product(k, a[..i], e) + Zeros(k, |a| - i)
      invariant forall t :: 0 <= t < i ==> a[t] != 0
      invariant i > 0 ==> !HasZero(e)
    {
      ghost var base := num[..];
      var ok := AddMultiple(q, num, a[i], e, i);
      if !ok {
        return None;
      }
      ProductStep(k, a, e, i, base, num[..]);
      i := i + 1;
    }
    assert a[..|a|] == a;
    assert num[..] == Product(k, a, e);
    NonzeroLead(a, e);
    var p := QrPolynomial(Nums(num[..]), 0);
    r := Some(Vals(p));
  }

  lemma RatioProduct(e: bv8, l: nat, ratio: int)
    requires e == Alpha(l)
    ensures Alpha((l + ratio) % 255) == Mul(Alpha(ratio % 255), e)
  {
    MulAlpha(ratio % 255, l);
    AlphaMod(ratio % 255 + l);
    assert (ratio % 255 + l) % 255 == (l + ratio) % 255;
  }

  lemma CancelsLead(t: bv8, lt: nat, e: bv8, le: nat)
    requires t == Alpha(lt) && e == Alpha(le) && lt < 255
    ensures Mul(Alpha((lt - le) % 255), e) == t
  {
    RatioProduct(e, le, lt - le);
    AlphaMod(lt);
  }

  // ---------- the remainder ----------

  /** num is p with the multiple c * e added at its front. */
  ghost predicate AddsFront(p: seq<Slot>, e: seq<bv8>, c: bv8, num: seq<Slot>) {
    && |num| == |p|
    && forall t :: 0 <= t < |p| ==>
         if t < |e| then num[t] == Num(Gf().add(Val(p[t]), Gf().mul(c, e[t]))) else num[t] == p[t]
  }

  lemma AddsFrontValue(p: seq<Slot>, e: seq<bv8>, c: bv8, num: seq<Slot>, x: bv8)
    requires |e| <= |p| && AddsFront(p, e, c, num) && Eval(Gf(), e, x) == 0
    ensures Eval(Gf(), Vals(NewPoly(num, 0)), x) == Eval(Gf(), Vals(p), x)
  {
    NewPolyValue(num, x);
    GfIsField();
    EvalCongruent(Gf(), Vals(p), e, c, Vals(num), x);
  }

  /** Adding the multiple that cancels the lead shortens the polynomial and keeps it normal. */
  lemma AddsFrontShortens(p: seq<Slot>, e: seq<bv8>, c: bv8, num: seq<Slot>)
    requires 1 <= |e| <= |p| && Normal(p, |e| - 1) && AddsFront(p, e, c, num)
    requires Mul(c, e[0]) == Val(p[0])
    ensures |NewPoly(num, 0)| < |p| && Normal(NewPoly(num, 0), |e| - 1)
  {
    GfMul(c, e[0]);
    GfAddZero(Val(p[0]));
    assert num[0] == Num(0);
    assert LeadingZeros(num) >= 1;
  }

  /** The loop that adds gexp(glog(e[i]) + ratio) to every leading slot. */
  method AddRatio(q: QrMath, p: seq<Slot>, e: seq<bv8>, ratio: int) returns (r: Option<seq<Slot>>)
    requires q.Valid() && |e| <= |p|
    ensures r.None? <==> HasZero(e)
    ensures r.Some? ==> AddsFront(p, e, Alpha(ratio % 255), r.value)
  {
    ghost var k, c := Gf(), Alpha(ratio % 255);
    var num := new Slot[|p|](i requires 0 <= i < |p| => p[i]);
    var i := 0;
    while i < |e|
      invariant 0 <= i <= |e|
      invariant forall t :: 0 <= t < |p| ==>
                  if t < i then num[t] == Num(k.add(Val(p[t]), k.mul(c, e[t]))) else num[t] == p[t]
      invariant forall t :: 0 <= t < i ==> e[t] != 0
    {
      var l := q.Glog(e[i]);
      if l.None? {
        return None;
      }
      var g := q.Gexp(l.value + ratio);
      RatioProduct(e[i], l.value, ratio);
      XorProduct(Val(num[i]), c, e[i], g);
      num[i] := Num(Val(num[i]) ^ g);
      i := i + 1;
    }
    return Some(num[..]);
  }

  /** What the remainder keeps: its value wherever the divisor vanishes. */
  ghost predicate Congruent(p: seq<bv8>, r: seq<bv8>, e: seq<bv8>) {
    forall x :: Eval(Gf(), e, x) == 0 ==> Eval(Gf(), r, x) == Eval(Gf(), p, x)
  }

  /** The recursive remainder. It throws exactly when it must divide by a polynomial with a zero coefficient. */
  method Mod(q: QrMath, p: seq<Slot>, e: seq<bv8>) returns (r: Option<seq<Slot>>)
    requires q.Valid() && |e| >= 1 && Normal(p, |e| - 1)
    ensures r.None? <==> |p| >= |e| && HasZero(e)
    ensures r.Some? ==> |r.value| < |e| && Congruent(Vals(p), Vals(r.value), e)
    decreases |p|
  {
    if |p| - |e| < 0 {
      return Some(p);
    }
    var lp := q.Glog(Val(p[0]));
    var le := q.Glog(e[0]);
    if le.None? {
      return None;
    }
    var ratio := lp.value - le.value;
    var num := AddRatio(q, p, e, ratio);
    if num.None? {
      return None;
    }
    CancelsLead(Val(p[0]), lp.value, e[0], le.value);
    AddsFrontShortens(p, e, Alpha(ratio % 255), num.value);
    forall x | Eval(Gf(), e, x) == 0
      ensures Eval(Gf(), Vals(NewPoly(num.value, 0)), x) == Eval(Gf(), Vals(p), x)
    {
      AddsFrontValue(p, e, Alpha(ratio % 255), num.value, x);
    }
    var next := QrPolynomial(num.value, 0);
    r := Mod(q, next, e);
  }

  // ---------- the error-correction bytes ----------

  /** The generator polynomial: the product of (x - alpha^i) for i below n. */
  ghost function GeneratorPoly(n: nat): (g: seq<bv8>)
    ensures |g| == n + 1
  {
    Generator(Gf(), 2, n)
  }

  /** No generator coefficient is zero below degree 255; at degree 255 the generator is x^255 - 1. */
  lemma GeneratorHasZero(n: nat)
    requires n <= 255
    ensures HasZero(GeneratorPoly(n)) <==> n == 255
  {
    GfIsField();
    if n < 255 {
      PointsDistinct(n + 1);
      GeneratorNonzero(Gf(), 2, n);
    } else {
      GeneratorAt255(n);
    }
  }

  lemma CycleHasZero(g: seq<bv8>, n: nat)
    requires n >= 2 && g == [Gf().one] + Zeros(Gf(), n - 1) + [Gf().one]
    ensures HasZero(g)
  {
    assert g[1] == 0;
  }

  lemma GeneratorAt255(n: nat)
    requires n == 255
    ensures HasZero(GeneratorPoly(n))
  {
    GfIsField();
    PointsDistinct(n);
    PowIsAlpha(n);
    AlphaCycle(n);
    GeneratorOfCycle(Gf(), 2, n);
    CycleHasZero(GeneratorPoly(n), n);
  }

  lemma AlphaCycle(n: nat)
    requires n == 255
    ensures Alpha(n) == 1
  {
    AlphaLandmarks();
  }

  /** The factor that takes one generator to the next. */
  lemma NextFactor(i: nat, g: bv8)
    requires i <= 255 && g == Alpha(i % 255)
    ensures HasZero(GeneratorPoly(i)) <==> i == 255
    ensures !HasZero([1, g]) && Product(Gf(), GeneratorPoly(i), [1, g]) == GeneratorPoly(i + 1)
  {
    AlphaMod(i);
    PowIsAlpha(i);
    GeneratorHasZero(i);
    AlphaNonzero(i);
  }

  /** The generator is built for every degree up to 255 and never beyond. */
  method GetErrorCorrectPolynomial(q: QrMath, n: nat) returns (r: Option<seq<bv8>>)
    requires q.Valid()
    ensures r == if n <= 255 then Some(GeneratorPoly(n)) else None
  {
    var a: seq<bv8> := [1];
    var i := 0;
    while i < n
      invariant 0 <= i <= n && i <= 255
      invariant a == GeneratorPoly(i)
    {
      var g := q.Gexp(i);
      NextFactor(i, g);
      var m := Multiply(q, a, [1, g]);
      if m.None? {
        return None;
      }
      a := m.value;
      i := i + 1;
    }
    return Some(a);
  }

  ghost predicate IsZeroBlock(data: seq<bv8>) {
    forall i :: 0 <= i < |data| ==> data[i] == 0
  }

  /** data followed by check vanishes at alpha^0 .. alpha^(n-1), n being the number of check bytes. */
  ghost predicate Codeword(data: seq<bv8>, check: seq<bv8>) {
    forall i: nat :: i < |check| ==> Eval(Gf(), data + check, Alpha(i)) == 0
  }

  lemma RawPoly(data: seq<bv8>, n: nat, x: bv8)
    ensures Eval(Gf(), Vals(NewPoly(Nums(data), n)), x) == Eval(Gf(), data + Zeros(Gf(), n), x)
  {
    var z := LeadingZeros(Nums(data));
    var raw := NewPoly(Nums(data), n);
    forall t | 0 <= t < z
      ensures data[t] == 0
    {
      assert Nums(data)[t] == Num(0);
    }
    assert data + Zeros(Gf(), n) == Zeros(Gf(), z) + Vals(raw);
    GfIsField();
    EvalLeadingZeros(Gf(), z, Vals(raw), x);
  }

  lemma RawPolyShape(data: seq<bv8>, n: nat)
    ensures Normal(NewPoly(Nums(data), n), n)
    ensures |NewPoly(Nums(data), n)| > n <==> !IsZeroBlock(data)
  {
    var z := LeadingZeros(Nums(data));
    if !IsZeroBlock(data) {
      var i :| 0 <= i < |data| && data[i] != 0;
      assert Nums(data)[i] != Num(0);
    }
  }

  lemma CheckByteRoot(data: seq<bv8>, m: seq<bv8>, check: seq<bv8>, i: nat)
    requires i < |check| && |m| <= |check| && check == Zeros(Gf(), |check| - |m|) + m
    requires Congruent(Vals(NewPoly(Nums(data), |check|)), m, GeneratorPoly(|check|))
    ensures Eval(Gf(), data + check, Alpha(i)) == 0
  {
    var x := Alpha(i);
    GfIsField();
    PowIsAlpha(i);
    GeneratorRoots(Gf(), 2, |check|);
    RawPoly(data, |check|, x);
    EvalLeadingZeros(Gf(), |check| - |m|, m, x);
    EvalCodeword(Gf(), data, check, x);
  }

  lemma RemainderCompletes(data: seq<bv8>, m: seq<bv8>, check: seq<bv8>)
    requires |m| <= |check| && check == Zeros(Gf(), |check| - |m|) + m
    requires Congruent(Vals(NewPoly(Nums(data), |check|)), m, GeneratorPoly(|check|))
    ensures Codeword(data, check)
  {
    forall i: nat | i < |check|
      ensures Eval(Gf(), data + check, Alpha(i)) == 0
    {
      CheckByteRoot(data, m, check, i);
    }
  }

  /** The remainder's values, right-aligned in n bytes. */
  method AlignRight(m: seq<Slot>, n: nat) returns (ec: seq<bv8>)
    requires |m| <= n
    ensures ec == Zeros(Gf(), n - |m|) + Vals(m)
  {
    var bytes := new bv8[n];
    var i := 0;
    while i < n
      invariant 0 <= i <= n
      invariant forall t :: 0 <= t < i ==> bytes[t] == if t + |m| - n >= 0 then Val(m[t + |m| - n]) else 0
    {
      var modIndex := i + |m| - n;
      bytes[i] := if modIndex >= 0 then Val(m[modIndex]) else 0;
      i := i + 1;
    }
    return bytes[..];
  }

  /**
    The check bytes of one block. They exist for every block with up to 254 of them, and beyond
    that only for 255 of them behind an all-zero block; then data and check form a codeword.
   */
  method ErrorBytes(q: QrMath, data: seq<bv8>, n: nat) returns (r: Option<seq<bv8>>)
    requires q.Valid()
    ensures r.Some? <==> n <= 254 || (n == 255 && IsZeroBlock(data))
    ensures r.Some? ==> |r.value| == n && Codeword(data, r.value)
  {
    var rsPoly := GetErrorCorrectPolynomial(q, n);
    if rsPoly.None? {
      return None;
    }
    GeneratorHasZero(n);
    r := CheckBytes(q, data, n, rsPoly.value);
  }

  /** The remainder of the block by the generator, if the generator can be divided by. */
  method CheckBytes(q: QrMath, data: seq<bv8>, n: nat, rsPoly: seq<bv8>) returns (r: Option<seq<bv8>>)
    requires q.Valid() && rsPoly == GeneratorPoly(n)
    ensures r.Some? <==> !HasZero(GeneratorPoly(n)) || IsZeroBlock(data)
    ensures r.Some? ==> |r.value| == n && Codeword(data, r.value)
  {
    var rawPoly := QrPolynomial(Nums(data), |rsPoly| - 1);
    RawPolyShape(data, n);
    var modPoly := Mod(q, rawPoly, rsPoly);
    if modPoly.None? {
      return None;
    }
    var ec := AlignRight(modPoly.value, n);
    RemainderCompletes(data, Vals(modPoly.value), ec);
    return Some(ec);
  }

  /** The check bytes of a block are the only ones that complete it to a codeword. */
  lemma ErrorBytesUnique(data: seq<bv8>, r: seq<bv8>, s: seq<bv8>)
    requires |r| == |s| <= 255 && Codeword(data, r) && Codeword(data, s)
    ensures r == s
  {
    GfIsField();
    PointsDistinct(|r|);
    forall i: nat | i < |r|
      ensures Eval(Gf(), data + r, Pow(Gf(), 2, i)) == 0 && Eval(Gf(), data + s, Pow(Gf(), 2, i)) == 0
    {
      PowIsAlpha(i);
    }
    CheckSymbolsUnique(Gf(), data, r, s, 2);
  }

  ghost predicate IsMultiple(w: seq<bv8>, g: seq<bv8>)
    requires |g| >= 1
  {
    exists h: seq<bv8> :: Product(Gf(), h, g) == w
  }

  /** Codewords are the multiples of the generator. */
  lemma CodewordsAreMultiples(data: seq<bv8>, check: seq<bv8>)
    requires |check| <= 255
    ensures Codeword(data, check) <==> IsMultiple(data + check, GeneratorPoly(|check|))
  {
    var g := GeneratorPoly(|check|);
    if IsMultiple(data + check, g) {
      var h: seq<bv8> :| Product(Gf(), h, g) == data + check;
      MultipleVanishes(data, check, h);
    }
    if Codeword(data, check) {
      GfIsField();
      GeneratorMonic(Gf(), 2, |check|);
      var h := Quotient(Gf(), data, g);
      var w := Product(Gf(), h, g);
      assert w == data + w[|data|..];
      MultipleVanishes(data, w[|data|..], h);
      ErrorBytesUnique(data, check, w[|data|..]);
    }
  }

  lemma MultipleVanishes(data: seq<bv8>, check: seq<bv8>, h: seq<bv8>)
    requires Product(Gf(), h, GeneratorPoly(|check|)) == data + check
    ensures Codeword(data, check)
  {
    GfIsField();
    GeneratorRoots(Gf(), 2, |check|);
    forall i: nat | i < |check|
      ensures Eval(Gf(), data + check, Alpha(i)) == 0
    {
      PowIsAlpha(i);
      EvalProduct(Gf(), h, GeneratorPoly(|check|), Alpha(i));
      MulZero(Gf(), Eval(Gf(), h, Alpha(i)));
    }
  }
}

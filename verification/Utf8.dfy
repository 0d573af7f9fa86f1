/** The bytes of a string are UTF-8 as section 3 of RFC 3629 has it, exactly for well-formed strings. */
module Utf8 {
  import opened Common
  import opened Wire
  import opened Utf

  /** A Unicode scalar value: no surrogate, and not above 10FFFF. */
  predicate IsScalarValue(cp: nat) {
    cp < 0xD800 || 0xE000 <= cp <= 0x10_FFFF
  }

  predicate IsTail(b: byte) {
    0x80 <= b <= 0xBF
  }

  predicate AllTails(w: seq<byte>) {
    forall i :: 0 <= i < |w| ==> IsTail(w[i])
  }

  /** The bits below the markers of two, three and four bytes. */
  function Bits2(a: int, b: int): int {
    (a - 0xC0) * 0x40 + (b - 0x80)
  }

  function Bits3(a: int, b: int, c: int): int {
    (a - 0xE0) * 0x1000 + (b - 0x80) * 0x40 + (c - 0x80)
  }

  function Bits4(a: int, b: int, c: int, d: int): int {
    (a - 0xF0) * 0x4_0000 + (b - 0x80) * 0x1000 + (c - 0x80) * 0x40 + (d - 0x80)
  }

  /** A decoder that refuses stray and missing continuation bytes, overlong forms, surrogates and large numbers. */
  function Strict(w: seq<byte>): Option<seq<nat>> {
    if |w| == 0 then Some([])
    else if w[0] < 0x80 then Before(w[0], Strict(w[1..]))
    else if 0xC0 <= w[0] <= 0xDF && |w| >= 2 && AllTails(w[1..2]) && Bits2(w[0], w[1]) >= 0x80 then
      Before(Bits2(w[0], w[1]), Strict(w[2..]))
    else if 0xE0 <= w[0] <= 0xEF && |w| >= 3 && AllTails(w[1..3])
            && Bits3(w[0], w[1], w[2]) >= 0x800 && IsScalarValue(Bits3(w[0], w[1], w[2])) then
      Before(Bits3(w[0], w[1], w[2]), Strict(w[3..]))
    else if 0xF0 <= w[0] <= 0xF7 && |w| >= 4 && AllTails(w[1..4])
            && Bits4(w[0], w[1], w[2], w[3]) >= 0x1_0000 && IsScalarValue(Bits4(w[0], w[1], w[2], w[3])) then
      Before(Bits4(w[0], w[1], w[2], w[3]), Strict(w[4..]))
    else None
  }

  function Before(cp: nat, rest: Option<seq<nat>>): Option<seq<nat>> {
    if rest.None? then None else Some([cp] + rest.value)
  }

  /** The forms of section 3: as many bytes as the code point needs, each with its marker, and its bits below them. */
  ghost predicate HasForm(e: seq<byte>, cp: Point) {
    && |e| == (if cp < 0x80 then 1 else if cp < 0x800 then 2 else if cp < 0x1_0000 then 3 else 4) && AllTails(e[1..])
    && match |e|
       case 1 => e[0] == cp
       case 2 => 0xC2 <= e[0] <= 0xDF && Bits2(e[0], e[1]) == cp
       case 3 => 0xE0 <= e[0] <= 0xEF && Bits3(e[0], e[1], e[2]) == cp
       case _ => 0xF0 <= e[0] <= 0xF7 && Bits4(e[0], e[1], e[2], e[3]) == cp % 0x20_0000
  }

  lemma PointBytes(cp: Point)
    ensures HasForm(EncodePoint(cp), cp)
  {
    if cp >= 0x1_0000 {
      FourBytes(cp, cp / 0x40, cp / 0x40 / 0x40, cp / 0x40 / 0x40 / 0x40);
    } else if cp >= 0x800 {
      ThreeBytes(cp, cp / 0x40, cp / 0x40 / 0x40);
    }
  }

  lemma ThreeBytes(cp: Point, a: nat, b: nat)
    requires 0x800 <= cp < 0x1_0000 && a == cp / 0x40 && b == a / 0x40
    ensures b == cp / 0x1000 && Bits3(b % 0x10 + 0xE0, a % 0x40 + 0x80, cp % 0x40 + 0x80) == cp
  {
  }

  lemma FourBytes(cp: Point, a: nat, b: nat, c: nat)
    requires a == cp / 0x40 && b == a / 0x40 && c == b / 0x40
    ensures b == cp / 0x1000 && c == cp / 0x4_0000
    ensures Bits4(c % 8 + 0xF0, b % 0x40 + 0x80, a % 0x40 + 0x80, cp % 0x40 + 0x80) == cp % 0x20_0000
  {
    FourDigits(cp, a, b, c);
    CutDigits(cp, c, b % 0x40 * 0x1000 + a % 0x40 * 0x40 + cp % 0x40);
  }

  lemma StrictStep(cp: Point, w: seq<byte>)
    ensures Strict(EncodePoint(cp) + w) == if IsScalarValue(cp) then Before(cp, Strict(w)) else None
  {
    PointBytes(cp);
    StrictForm(EncodePoint(cp), cp, w);
  }

  lemma StrictForm(e: seq<byte>, cp: Point, w: seq<byte>)
    requires HasForm(e, cp)
    ensures Strict(e + w) == if IsScalarValue(cp) then Before(cp, Strict(w)) else None
  {
    if |e| == 4 {
      StrictFour(e, cp, w);
    } else if |e| == 3 {
      StrictThree(e, cp, w);
    } else {
      var all := e + w;
      assert all[|e|..] == w && all[1..|e|] == e[1..] && all[0] == e[0] && all[|e| - 1] == e[|e| - 1];
    }
  }

  lemma StrictThree(e: seq<byte>, cp: Point, w: seq<byte>)
    requires HasForm(e, cp) && |e| == 3
    ensures Strict(e + w) == if IsScalarValue(cp) then Before(cp, Strict(w)) else None
  {
    var all := e + w;
    assert all[3..] == w && all[1..3] == e[1..] && Bits3(all[0], all[1], all[2]) == cp;
  }

  lemma StrictFour(e: seq<byte>, cp: Point, w: seq<byte>)
    requires HasForm(e, cp) && |e| == 4
    ensures Strict(e + w) == if IsScalarValue(cp) then Before(cp, Strict(w)) else None
  {
    var all := e + w;
    assert all[4..] == w && all[1..4] == e[1..] && Bits4(all[0], all[1], all[2], all[3]) == cp % 0x20_0000;
    assert cp % 0x20_0000 == if cp < 0x20_0000 then cp else cp - 0x20_0000;
  }

  ghost predicate AllScalar(cps: seq<nat>) {
    forall i :: 0 <= i < |cps| ==> IsScalarValue(cps[i])
  }

  lemma {:induction false} StrictPoints(cps: seq<Point>)
    ensures Strict(EncodePoints(cps)) == if AllScalar(cps) then Some(cps) else None
  {
    if |cps| > 0 {
      var rest := cps[1..];
      StrictPoints(rest);
      StrictStep(cps[0], EncodePoints(rest));
      assert cps == [cps[0]] + rest;
    }
  }

  lemma ScalarFirst(cp: Point, cps: seq<Point>)
    ensures AllScalar([cp] + cps) <==> IsScalarValue(cp) && AllScalar(cps)
  {
    forall i | 0 <= i < |cps|
      ensures IsScalarValue(cps[i]) <==> IsScalarValue(([cp] + cps)[i + 1])
    {
    }
    if AllScalar([cp] + cps) {
      assert IsScalarValue(([cp] + cps)[0]);
    }
  }

  lemma {:induction false} ScalarsOfUnits(us: seq<Unit>)
    requires CodePoints(us).Some?
    ensures AllScalar(CodePoints(us).value) <==> WellFormed(us)
  {
    if |us| > 0 {
      if !IsSurrogate(us[0]) {
        ScalarsOfUnits(us[1..]);
        ScalarFirst(us[0], CodePoints(us[1..]).value);
      } else if |us| > 1 && IsLow(us[1]) {
        ScalarsOfUnits(us[2..]);
        ScalarFirst(Pair(us[0], us[1]), CodePoints(us[2..]).value);
      } else {
        assert !IsScalarValue(CodePoints(us).value[0]);
      }
    }
  }

  /** A strict decoder gets the code points of every well-formed string back, and refuses all other strings. */
  lemma ValidExactly(us: seq<Unit>)
    requires !Hangs(us)
    ensures CodePoints(us).Some?
    ensures Strict(EncodePoints(CodePoints(us).value)) == if WellFormed(us) then Some(CodePoints(us).value) else None
  {
    PointsByUnits(us);
    ScalarsOfUnits(us);
    StrictPoints(CodePoints(us).value);
  }

  lemma DecodeStrictTwo(w: seq<byte>, cp: Point)
    requires |w| >= 2 && 0xC0 <= w[0] <= 0xDF && IsTail(w[1]) && cp == Bits2(w[0], w[1])
    ensures Decode(w) == Join(UnitsOf(cp), Decode(w[2..]))
  {
    assert Two(w[0], w[1]) == cp;
  }

  lemma DecodeStrictThree(w: seq<byte>, cp: Point)
    requires |w| >= 3 && 0xE0 <= w[0] <= 0xEF && IsTail(w[1]) && IsTail(w[2]) && cp == Bits3(w[0], w[1], w[2])
    ensures Decode(w) == Join(UnitsOf(cp), Decode(w[3..]))
  {
    assert Three(w[0], w[1], w[2]) == cp;
  }

  lemma DecodeStrictFour(w: seq<byte>, cp: Point)
    requires |w| >= 4 && 0xF0 <= w[0] <= 0xF7 && IsTail(w[1]) && IsTail(w[2]) && IsTail(w[3])
    requires cp == Bits4(w[0], w[1], w[2], w[3])
    ensures Decode(w) == Join(UnitsOf(cp), Decode(w[4..]))
  {
    FourSame(w[0], w[1], w[2], w[3]);
  }

  lemma FourSame(a: byte, b: byte, c: byte, d: byte)
    requires 0xF0 <= a <= 0xF7 && IsTail(b) && IsTail(c) && IsTail(d)
    ensures Four(a, b, c, d) == Bits4(a, b, c, d)
  {
    HeadBits(a - 0xF0);
    TailBits(b - 0x80);
    TailBits(c - 0x80);
    TailBits(d - 0x80);
  }

  /** How many bytes the first character takes. */
  function FirstLength(w: seq<byte>): nat
    requires |w| > 0
  {
    if w[0] < 0x80 then 1 else if w[0] <= 0xDF then 2 else if w[0] <= 0xEF then 3 else 4
  }

  lemma StrictFirst(w: seq<byte>, cps: seq<Point>)
    requires |w| > 0 && Strict(w) == Some(cps)
    ensures var n := FirstLength(w);
            && n <= |w| && |cps| > 0 && Strict(w[n..]) == Some(cps[1..]) && AllTails(w[1..n])
            && (n == 1 ==> w[0] == cps[0])
            && (n == 2 ==> 0xC0 <= w[0] && Bits2(w[0], w[1]) == cps[0])
            && (n == 3 ==> Bits3(w[0], w[1], w[2]) == cps[0])
            && (n == 4 ==> w[0] <= 0xF7 && Bits4(w[0], w[1], w[2], w[3]) == cps[0])
  {
    var n := FirstLength(w);
    var rest := Strict(w[n..]);
    assert rest.Some? ==> ([cps[0]] + rest.value)[1..] == rest.value;
  }

  /** The lenient decoder takes the same first character. */
  lemma DecodeFirst(w: seq<byte>, cps: seq<Point>)
    requires |w| > 0 && Strict(w) == Some(cps)
    ensures |cps| > 0 && FirstLength(w) <= |w|
    ensures Decode(w) == Join(UnitsOf(cps[0]), Decode(w[FirstLength(w)..]))
  {
    StrictFirst(w, cps);
    var n, tails := FirstLength(w), w[1..FirstLength(w)];
    if n == 2 {
      assert tails[0] == w[1];
      DecodeStrictTwo(w, cps[0]);
    } else if n == 3 {
      assert tails[0] == w[1] && tails[1] == w[2];
      DecodeStrictThree(w, cps[0]);
    } else if n == 4 {
      assert tails[0] == w[1] && tails[1] == w[2] && tails[2] == w[3];
      DecodeStrictFour(w, cps[0]);
    }
  }

  /** On valid UTF-8, whoever wrote it, the lenient decoder does what a strict one does. */
  lemma {:induction false} DecodesValid(w: seq<byte>, cps: seq<Point>)
    requires Strict(w) == Some(cps)
    ensures Decode(w) == Some(AllUnits(cps))
  {
    if |w| > 0 {
      StrictFirst(w, cps);
      DecodeFirst(w, cps);
      DecodesValid(w[FirstLength(w)..], cps[1..]);
      assert cps == [cps[0]] + cps[1..];
      UnitsFirst(cps[0], cps[1..]);
    }
  }

  /** A byte that starts nothing is refused, and so is a character that is cut short. */
  lemma DecodeRefuses(w: seq<byte>)
    requires |w| > 0
    requires 0x80 <= w[0] < 0xC0 || w[0] >= 0xF8
             || |w| < (if w[0] < 0x80 then 1 else if w[0] < 0xE0 then 2 else if w[0] < 0xF0 then 3 else 4)
    ensures Decode(w).None?
  {
  }

  lemma PlainUnit(u: Unit)
    requires !IsSurrogate(u)
    ensures CodePoints([u]) == Some([u])
  {
    var none: seq<Point> := [];
    assert [u][1..] == [] && CodePoints([]) == Some(none) && [u] + none == [u];
  }

  lemma UnitPair(c1: Unit, c2: Unit)
    requires IsSurrogate(c1) && IsLow(c2)
    ensures CodePoints([c1, c2]) == Some([Pair(c1, c2)])
  {
    var none: seq<Point> := [];
    var cp := Pair(c1, c2);
    assert [c1, c2][2..] == [] && CodePoints([]) == Some(none) && [cp] + none == [cp];
  }

  /** One string of each length: A, U+00E9, U+20AC and U+1F600. */
  lemma Samples()
    ensures CodePoints([0x41]) == Some([0x41]) && EncodePoint(0x41) == [0x41]
    ensures CodePoints([0xE9]) == Some([0xE9]) && EncodePoint(0xE9) == [0xC3, 0xA9]
    ensures CodePoints([0x20AC]) == Some([0x20AC]) && EncodePoint(0x20AC) == [0xE2, 0x82, 0xAC]
    ensures CodePoints([0xD83D, 0xDE00]) == Some([0x1_F600]) && EncodePoint(0x1_F600) == [0xF0, 0x9F, 0x98, 0x80]
  {
    PlainUnit(0x41);
    PlainUnit(0xE9);
    PlainUnit(0x20AC);
    UnitPair(0xD83D, 0xDE00);
  }
}

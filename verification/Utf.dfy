/** Strings as UTF-16 units, converted to UTF-8 and back. The first half is a loop that may not end. */
module Utf {
  import opened Common
  import opened Wire

  type Unit = n: nat | n < 0x1_0000

  /** The code points that the loop can make of units: a low surrogate may start a pair. */
  type Point = n: nat | n < 0x21_0000

  predicate IsSurrogate(c: nat) {
    0xD800 <= c <= 0xDFFF
  }

  predicate IsLow(c: nat) {
    0xDC00 <= c <= 0xDFFF
  }

  function Pair(c1: nat, c2: nat): (cp: Point)
    requires IsSurrogate(c1) && IsLow(c2)
    ensures 0x1_0000 <= cp
  {
    (c1 - 0xD800) * 0x400 + c2 - 0xDC00 + 0x1_0000
  }

  // ---------- the loop of UTF16toUTF8 ----------

  /** c2 is the unit read ahead, pos the next one to read, out what has been emitted. */
  datatype Machine = Machine(c2: Option<Unit>, pos: nat, out: seq<Point>, halted: bool)

  /** One turn of the loop. The unit read ahead is only forgotten when it completes a pair. */
  function Turn(us: seq<Unit>, m: Machine): Machine
    requires m.pos <= |us|
  {
    if m.halted then m
    else if m.c2.None? && m.pos == |us| then m.(halted := true)
    else
      var c1 := if m.c2.Some? then m.c2.value else us[m.pos];
      var at := if m.c2.Some? then m.pos else m.pos + 1;
      if !IsSurrogate(c1) then Machine(m.c2, at, m.out + [c1], false)
      else if at == |us| then Machine(None, at, m.out + [c1], false)
      else if IsLow(us[at]) then Machine(None, at + 1, m.out + [Pair(c1, us[at])], false)
      else Machine(Some(us[at]), at + 1, m.out + [c1], false)
  }

  function Turns(us: seq<Unit>, m: Machine, n: nat): (m': Machine)
    requires m.pos <= |us|
    ensures m'.pos <= |us|
    decreases n
  {
    if n == 0 then m else Turns(us, Turn(us, m), n - 1)
  }

  /** The code points of a string; None where a surrogate without partner is followed by a plain unit. */
  function CodePoints(us: seq<Unit>): Option<seq<Point>> {
    if |us| == 0 then Some([])
    else if !IsSurrogate(us[0]) then Prepend(us[0], CodePoints(us[1..]))
    else if |us| == 1 then Some([us[0]])
    else if IsLow(us[1]) then Prepend(Pair(us[0], us[1]), CodePoints(us[2..]))
    else if IsSurrogate(us[1]) then Prepend(us[0], CodePoints(us[1..]))
    else None
  }

  function Prepend(c: Point, rest: Option<seq<Point>>): Option<seq<Point>> {
    if rest.None? then None else Some([c] + rest.value)
  }

  // ---------- which strings, by their units ----------

  /** Unit k completes a pair in the scan from the left. */
  predicate Second(us: seq<Unit>, k: nat)
    requires k < |us|
  {
    k > 0 && IsLow(us[k]) && IsSurrogate(us[k - 1]) && !Second(us, k - 1)
  }

  /** Unit k is a surrogate that the scan leaves without partner, and a plain unit follows. */
  predicate HangsAt(us: seq<Unit>, k: nat) {
    k + 1 < |us| && IsSurrogate(us[k]) && !Second(us, k) && !IsSurrogate(us[k + 1])
  }

  ghost predicate Hangs(us: seq<Unit>) {
    exists k: nat :: HangsAt(us, k)
  }

  /** Unit k starts a pair whose code point needs more than 21 bits. */
  predicate OverflowsAt(us: seq<Unit>, k: nat) {
    k + 1 < |us| && us[k] >= 0xDFC0 && Second(us, k + 1)
  }

  ghost predicate Overflows(us: seq<Unit>) {
    exists k: nat :: OverflowsAt(us, k)
  }

  /** Where no pair is open the scan of the rest is that of the whole. */
  lemma {:induction false} SecondShift(us: seq<Unit>, j: nat, k: nat)
    requires j <= k < |us| && !Second(us, j)
    ensures Second(us[j..], k - j) == Second(us, k)
  {
    if k > j {
      SecondShift(us, j, k - 1);
    }
  }

  lemma AtShift(us: seq<Unit>, j: nat, k: nat)
    requires j <= |us| && j <= k && (j < |us| ==> !Second(us, j))
    ensures HangsAt(us[j..], k - j) == HangsAt(us, k) && OverflowsAt(us[j..], k - j) == OverflowsAt(us, k)
  {
    if k + 1 < |us| {
      SecondShift(us, j, k);
      SecondShift(us, j, k + 1);
    }
  }

  /** Nothing happens before j: the rest decides. */
  lemma ScanShift(us: seq<Unit>, j: nat)
    requires j <= |us| && (j < |us| ==> !Second(us, j)) && forall k: nat :: k < j ==> !HangsAt(us, k)
    ensures Hangs(us) <==> Hangs(us[j..])
    ensures Overflows(us) <==> Overflows(us[j..]) || exists k: nat :: k < j && OverflowsAt(us, k)
  {
    forall k: nat | k >= j
      ensures HangsAt(us[j..], k - j) == HangsAt(us, k) && OverflowsAt(us[j..], k - j) == OverflowsAt(us, k)
    {
      AtShift(us, j, k);
    }
    if k: nat :| HangsAt(us[j..], k) {
      assert HangsAt(us, k + j);
    }
    if k: nat :| OverflowsAt(us[j..], k) {
      assert OverflowsAt(us, k + j);
    }
  }

  /** There are no code points exactly when the string hangs, and one needs 22 bits exactly when it overflows. */
  lemma {:induction false} PointsByUnits(us: seq<Unit>)
    ensures CodePoints(us).None? <==> Hangs(us)
    ensures CodePoints(us).Some? ==> (Fits(CodePoints(us).value) <==> !Overflows(us))
  {
    if |us| > 0 {
      if !IsSurrogate(us[0]) {
        ScanShift(us, 1);
        PointsByUnits(us[1..]);
        FitsFirst(us[0], CodePoints(us[1..]));
      } else if |us| > 1 && IsLow(us[1]) {
        assert Second(us, 1);
        PairScan(us);
        PointsByUnits(us[2..]);
        FitsFirst(Pair(us[0], us[1]), CodePoints(us[2..]));
      } else if |us| > 1 && !IsSurrogate(us[1]) {
        assert HangsAt(us, 0);
      } else if |us| > 1 {
        ScanShift(us, 1);
        PointsByUnits(us[1..]);
        FitsFirst(us[0], CodePoints(us[1..]));
      }
    }
  }

  lemma PairScan(us: seq<Unit>)
    requires |us| > 1 && IsSurrogate(us[0]) && IsLow(us[1])
    ensures Hangs(us) <==> Hangs(us[2..])
    ensures Overflows(us) <==> Overflows(us[2..]) || us[0] >= 0xDFC0
    ensures Pair(us[0], us[1]) >= 0x20_0000 <==> us[0] >= 0xDFC0
  {
    assert !Second(us, 0);
    assert Second(us, 1);
    assert |us| > 2 ==> !Second(us, 2);
    assert !HangsAt(us, 0) && !HangsAt(us, 1);
    ScanShift(us, 2);
    assert OverflowsAt(us, 0) <==> us[0] >= 0xDFC0;
    assert !OverflowsAt(us, 1);
  }

  lemma FitsFirst(c: Point, rest: Option<seq<Point>>)
    ensures rest.Some? ==> (Fits(Prepend(c, rest).value) <==> c < 0x20_0000 && Fits(rest.value))
  {
    if rest.Some? {
      var all := Prepend(c, rest).value;
      assert all[0] == c && all[1..] == rest.value;
      if Fits(all) {
        assert forall i :: 0 <= i < |rest.value| ==> rest.value[i] == all[i + 1];
      }
    }
  }

  lemma {:induction false} StuckForever(us: seq<Unit>, m: Machine, n: nat)
    requires m.pos <= |us| && !m.halted && m.c2.Some? && !IsSurrogate(m.c2.value)
    ensures !Turns(us, m, n).halted
    decreases n
  {
    if n > 0 {
      StuckForever(us, Turn(us, m), n - 1);
    }
  }

  /** Where the machine stands before unit k: reading it afresh, or with it read ahead. */
  ghost predicate Before(us: seq<Unit>, k: nat, m: Machine) {
    && k <= |us| && !m.halted
    && if m.c2.None? then m.pos == k else k < |us| && m.pos == k + 1 && m.c2.value == us[k] && IsSurrogate(us[k])
  }

  lemma TurnPlain(us: seq<Unit>, k: nat, m: Machine)
    requires Before(us, k, m) && k < |us| && !IsSurrogate(us[k])
    ensures Before(us, k + 1, Turn(us, m)) && Turn(us, m).out == m.out + [us[k]]
  {
  }

  lemma TurnPair(us: seq<Unit>, k: nat, m: Machine)
    requires Before(us, k, m) && k + 1 < |us| && IsSurrogate(us[k]) && IsLow(us[k + 1])
    ensures Before(us, k + 2, Turn(us, m)) && Turn(us, m).out == m.out + [Pair(us[k], us[k + 1])]
  {
  }

  lemma TurnLone(us: seq<Unit>, k: nat, m: Machine)
    requires Before(us, k, m) && k < |us| && IsSurrogate(us[k])
             && (k + 1 < |us| ==> IsSurrogate(us[k + 1]) && !IsLow(us[k + 1]))
    ensures Before(us, k + 1, Turn(us, m)) && Turn(us, m).out == m.out + [us[k]]
  {
  }

  /** The loop never ends exactly when there are no code points, and otherwise emits them. */
  lemma PointsAt(us: seq<Unit>, k: nat)
    requires k < |us|
    ensures CodePoints(us[k..])
         == if !IsSurrogate(us[k]) then Prepend(us[k], CodePoints(us[k + 1..]))
            else if k + 1 == |us| then Some([us[k]])
            else if IsLow(us[k + 1]) then Prepend(Pair(us[k], us[k + 1]), CodePoints(us[k + 2..]))
            else if IsSurrogate(us[k + 1]) then Prepend(us[k], CodePoints(us[k + 1..]))
            else None
  {
    assert us[k..][1..] == us[k + 1..];
    if k + 1 < |us| {
      assert us[k..][2..] == us[k + 2..];
    }
  }

  lemma {:induction false} MachineMeaning(us: seq<Unit>, k: nat, m: Machine, n: nat)
    requires Before(us, k, m)
    ensures CodePoints(us[k..]).None? ==> !Turns(us, m, n).halted
    ensures CodePoints(us[k..]).Some? && n > |us| - k ==>
              Turns(us, m, n).halted && Turns(us, m, n).out == m.out + CodePoints(us[k..]).value
    decreases n
  {
    if n > 0 {
      var m' := Turn(us, m);
      if k < |us| {
        PointsAt(us, k);
      }
      if k == |us| {
        HaltedStays(us, m', n - 1);
        assert m.out + [] == m.out;
      } else if !IsSurrogate(us[k]) {
        TurnPlain(us, k, m);
        MachineMeaning(us, k + 1, m', n - 1);
        Emit(m.out, us[k], CodePoints(us[k + 1..]));
      } else if k + 1 < |us| && IsLow(us[k + 1]) {
        TurnPair(us, k, m);
        MachineMeaning(us, k + 2, m', n - 1);
        Emit(m.out, Pair(us[k], us[k + 1]), CodePoints(us[k + 2..]));
      } else if k + 1 < |us| && !IsSurrogate(us[k + 1]) {
        StuckForever(us, m', n - 1);
      } else {
        TurnLone(us, k, m);
        MachineMeaning(us, k + 1, m', n - 1);
        Emit(m.out, us[k], CodePoints(us[k + 1..]));
      }
    }
  }

  lemma {:induction false} HaltedStays(us: seq<Unit>, m: Machine, n: nat)
    requires m.pos <= |us| && m.halted
    ensures Turns(us, m, n) == m
    decreases n
  {
    if n > 0 {
      HaltedStays(us, m, n - 1);
    }
  }

  lemma Emit(out: seq<Point>, c: Point, rest: Option<seq<Point>>)
    ensures rest.Some? ==> out + [c] + rest.value == out + Prepend(c, rest).value
  {
  }

  const START := Machine(None, 0, [], false)

  /**
    For the whole string: it runs for ever exactly when it hangs, and otherwise stops within |us| + 1 turns
    with the code points.
   */
  lemma LoopEnds(us: seq<Unit>, n: nat)
    ensures Hangs(us) ==> !Turns(us, START, n).halted
    ensures !Hangs(us) ==> CodePoints(us).Some?
    ensures !Hangs(us) && n > |us| ==> Turns(us, START, n).halted && Turns(us, START, n).out == CodePoints(us).value
  {
    assert us[0..] == us;
    PointsByUnits(us);
    MachineMeaning(us, 0, START, n);
  }

  /** A high surrogate and a letter: the letter is emitted again and again. */
  lemma NeverEnds(n: nat)
    ensures !Turns([0xD800, 0x41], START, n).halted
  {
    assert HangsAt([0xD800, 0x41], 0);
    LoopEnds([0xD800, 0x41], n);
  }

  /** The loop itself, on the strings for which it ends. */
  method UTF16toUTF8(us: seq<Unit>) returns (out: seq<Point>)
    requires !Hangs(us)
    ensures CodePoints(us) == Some(out)
  {
    out := [];
    var c2: Option<Unit>, pos: nat := None, 0;
    ghost var turns := 0;
    LoopEnds(us, |us| + 1);
    while c2.Some? || pos < |us|
      invariant pos <= |us| && turns <= |us| + 1
      invariant Turns(us, Machine(c2, pos, out, false), |us| + 1 - turns) == Turns(us, START, |us| + 1)
      decreases |us| + 1 - turns
    {
      assert turns < |us| + 1;
      ghost var m := Machine(c2, pos, out, false);
      var c1 := if c2.Some? then c2.value else us[pos];
      pos := if c2.Some? then pos else pos + 1;
      if !IsSurrogate(c1) {
        out := out + [c1];
      } else if pos == |us| {
        c2 := None;
        out := out + [c1];
      } else if IsLow(us[pos]) {
        out := out + [Pair(c1, us[pos])];
        c2 := None;
        pos := pos + 1;
      } else {
        c2 := Some(us[pos]);
        pos := pos + 1;
        out := out + [c1];
      }
      assert Machine(c2, pos, out, false) == Turn(us, m);
      turns := turns + 1;
    }
    HaltsNow(us, Machine(c2, pos, out, false), |us| + 1 - turns);
  }

  lemma HaltsNow(us: seq<Unit>, m: Machine, n: nat)
    requires m.pos == |us| && m.c2.None? && !m.halted
    ensures n > 0 ==> Turns(us, m, n).out == m.out
    ensures n == 0 ==> !Turns(us, m, n).halted
  {
    if n > 0 {
      HaltedStays(us, Turn(us, m), n - 1);
    }
  }

  // ---------- UTF-8 ----------

  function EncodePoint(cp: Point): (w: seq<byte>)
    ensures |w| == PointLength(cp)
  {
    if cp < 0x80 then [cp]
    else if cp < 0x800 then [cp / 0x40 % 0x20 + 0xC0, cp % 0x40 + 0x80]
    else if cp < 0x1_0000 then [cp / 0x1000 % 0x10 + 0xE0, cp / 0x40 % 0x40 + 0x80, cp % 0x40 + 0x80]
    else [cp / 0x4_0000 % 8 + 0xF0, cp / 0x1000 % 0x40 + 0x80, cp / 0x40 % 0x40 + 0x80, cp % 0x40 + 0x80]
  }

  function PointLength(cp: Point): nat {
    if cp < 0x80 then 1 else if cp < 0x800 then 2 else if cp < 0x1_0000 then 3 else 4
  }

  function EncodePoints(cps: seq<Point>): seq<byte> {
    if |cps| == 0 then [] else EncodePoint(cps[0]) + EncodePoints(cps[1..])
  }

  /** What calculateUTF16asUTF8 counts. */
  function PointsLength(cps: seq<Point>): nat {
    if |cps| == 0 then 0 else PointLength(cps[0]) + PointsLength(cps[1..])
  }

  /** calculateUTF16asUTF8 on the code points of a string. */
  method CountBytes(cps: seq<Point>) returns (n: nat)
    ensures n == |EncodePoints(cps)|
  {
    n := 0;
    var i := 0;
    assert cps[0..] == cps;
    while i < |cps|
      invariant i <= |cps| && n + PointsLength(cps[i..]) == PointsLength(cps)
    {
      assert cps[i..][1..] == cps[i + 1..];
      n := n + PointLength(cps[i]);
      i := i + 1;
    }
    PointsLengthExact(cps);
  }

  lemma {:induction false} PointsLengthExact(cps: seq<Point>)
    ensures |EncodePoints(cps)| == PointsLength(cps)
  {
    if |cps| > 0 {
      PointsLengthExact(cps[1..]);
    }
  }

  function UnitsOf(cp: Point): seq<Unit> {
    if cp <= 0xFFFF then [cp] else [(cp - 0x1_0000) / 0x400 + 0xD800, (cp - 0x1_0000) % 0x400 + 0xDC00]
  }

  function AllUnits(cps: seq<Point>): seq<Unit> {
    if |cps| == 0 then [] else UnitsOf(cps[0]) + AllUnits(cps[1..])
  }

  function Two(a: int, b: int): Point
    requires a >= 0 && b >= 0
  {
    a % 0x20 * 0x40 + b % 0x40
  }

  function Three(a: int, b: int, c: int): Point
    requires a >= 0 && b >= 0 && c >= 0
  {
    a % 0x10 * 0x1000 + b % 0x40 * 0x40 + c % 0x40
  }

  function Four(a: int, b: int, c: int, d: int): Point
    requires a >= 0 && b >= 0 && c >= 0 && d >= 0
  {
    a % 8 * 0x4_0000 + b % 0x40 * 0x1000 + c % 0x40 * 0x40 + d % 0x40
  }

  /** decodeUTF8toUTF16; None where it throws. Continuation bytes are not checked. */
  function Decode(w: seq<byte>): Option<seq<Unit>> {
    if |w| == 0 then Some([])
    else
      var a := w[0];
      if a < 0x80 then Join(UnitsOf(a), Decode(w[1..]))
      else if 0xC0 <= a < 0xE0 then
        if |w| < 2 then None else Join(UnitsOf(Two(a, w[1])), Decode(w[2..]))
      else if 0xE0 <= a < 0xF0 then
        if |w| < 3 then None else Join(UnitsOf(Three(a, w[1], w[2])), Decode(w[3..]))
      else if 0xF0 <= a < 0xF8 then
        if |w| < 4 then None else Join(UnitsOf(Four(a, w[1], w[2], w[3])), Decode(w[4..]))
      else None
  }

  function Join(a: seq<Unit>, rest: Option<seq<Unit>>): Option<seq<Unit>> {
    if rest.None? then None else Some(a + rest.value)
  }

  /** Four bytes hold 21 bits. */
  function Cut(cp: Point): Point {
    cp % 0x20_0000
  }

  lemma TwoOf(cp: Point)
    requires 0x80 <= cp < 0x800
    ensures Two(cp / 0x40 % 0x20 + 0xC0, cp % 0x40 + 0x80) == cp
  {
  }

  lemma ThreeOf(cp: Point, a: nat, b: nat)
    requires cp < 0x1_0000 && a == cp / 0x40 && b == a / 0x40
    ensures b == cp / 0x1000 && Three(b % 0x10 + 0xE0, a % 0x40 + 0x80, cp % 0x40 + 0x80) == cp
  {
  }

  lemma FourDigits(cp: nat, a: nat, b: nat, c: nat)
    requires a == cp / 0x40 && b == a / 0x40 && c == b / 0x40
    ensures b == cp / 0x1000 && c == cp / 0x4_0000
    ensures cp == c * 0x4_0000 + b % 0x40 * 0x1000 + a % 0x40 * 0x40 + cp % 0x40
  {
  }

  lemma CutDigits(cp: Point, c: nat, low: nat)
    requires cp == c * 0x4_0000 + low && low < 0x4_0000
    ensures Cut(cp) == c % 8 * 0x4_0000 + low
  {
    assert c <= 8;
  }

  lemma FourOf(cp: Point, a: nat, b: nat, c: nat)
    requires a == cp / 0x40 && b == a / 0x40 && c == b / 0x40
    ensures b == cp / 0x1000 && c == cp / 0x4_0000
    ensures Four(c % 8 + 0xF0, b % 0x40 + 0x80, a % 0x40 + 0x80, cp % 0x40 + 0x80) == Cut(cp)
  {
    FourDigits(cp, a, b, c);
    CutDigits(cp, c, b % 0x40 * 0x1000 + a % 0x40 * 0x40 + cp % 0x40);
    HeadBits(c % 8);
    TailBits(b % 0x40);
    TailBits(a % 0x40);
    TailBits(cp % 0x40);
  }

  lemma HeadBits(x: nat)
    requires x < 8
    ensures (x + 0xF0) % 8 == x
  {
  }

  lemma TailBits(x: nat)
    requires x < 0x40
    ensures (x + 0x80) % 0x40 == x
  {
  }

  lemma DecodeStep(cp: Point, w: seq<byte>)
    ensures Decode(EncodePoint(cp) + w) == Join(UnitsOf(Cut(cp)), Decode(w))
  {
    if cp < 0x1_0000 {
      CutSmall(cp);
      if cp < 0x80 {
        DecodeOne(cp, w);
      } else if cp < 0x800 {
        DecodeTwo(cp, w);
      } else {
        DecodeThree(cp, w);
      }
    } else {
      DecodeFour(cp, w);
    }
  }

  lemma CutSmall(cp: Point)
    requires cp < 0x20_0000
    ensures Cut(cp) == cp
  {
  }

  lemma DecodeOne(cp: Point, w: seq<byte>)
    requires cp < 0x80
    ensures Decode(EncodePoint(cp) + w) == Join(UnitsOf(cp), Decode(w))
  {
    var e := EncodePoint(cp) + w;
    assert e[0] == cp && e[1..] == w;
  }

  lemma DecodeTwo(cp: Point, w: seq<byte>)
    requires 0x80 <= cp < 0x800
    ensures Decode(EncodePoint(cp) + w) == Join(UnitsOf(cp), Decode(w))
  {
    var e := EncodePoint(cp) + w;
    TwoOf(cp);
    assert e[0] == cp / 0x40 % 0x20 + 0xC0 && e[1] == cp % 0x40 + 0x80 && e[2..] == w;
  }

  lemma DecodeThree(cp: Point, w: seq<byte>)
    requires 0x800 <= cp < 0x1_0000
    ensures Decode(EncodePoint(cp) + w) == Join(UnitsOf(cp), Decode(w))
  {
    var e := EncodePoint(cp) + w;
    ThreeOf(cp, cp / 0x40, cp / 0x40 / 0x40);
    assert e[0] == cp / 0x1000 % 0x10 + 0xE0 && e[1] == cp / 0x40 % 0x40 + 0x80 && e[2] == cp % 0x40 + 0x80
           && e[3..] == w;
  }

  lemma DecodeFour(cp: Point, w: seq<byte>)
    requires 0x1_0000 <= cp
    ensures Decode(EncodePoint(cp) + w) == Join(UnitsOf(Cut(cp)), Decode(w))
  {
    var e := EncodePoint(cp) + w;
    FourOf(cp, cp / 0x40, cp / 0x40 / 0x40, cp / 0x40 / 0x40 / 0x40);
    assert e[0] == cp / 0x4_0000 % 8 + 0xF0 && e[1] == cp / 0x1000 % 0x40 + 0x80;
    assert e[2] == cp / 0x40 % 0x40 + 0x80 && e[3] == cp % 0x40 + 0x80 && e[4..] == w;
  }

  function CutAll(cps: seq<Point>): seq<Point> {
    seq(|cps|, i requires 0 <= i < |cps| => Cut(cps[i]))
  }

  lemma {:induction false} DecodeEncoded(cps: seq<Point>)
    ensures Decode(EncodePoints(cps)) == Some(AllUnits(CutAll(cps)))
  {
    if |cps| > 0 {
      DecodeEncoded(cps[1..]);
      DecodeStep(cps[0], EncodePoints(cps[1..]));
      assert CutAll(cps)[1..] == CutAll(cps[1..]);
    }
  }

  lemma {:induction false} PointsBack(us: seq<Unit>)
    requires CodePoints(us).Some?
    ensures AllUnits(CodePoints(us).value) == us
  {
    if |us| > 0 {
      if !IsSurrogate(us[0]) || |us| == 1 || !IsLow(us[1]) {
        assert us == [us[0]] + us[1..];
        if |us| > 1 || !IsSurrogate(us[0]) { PointsBack(us[1..]); }
      } else {
        assert us == [us[0], us[1]] + us[2..];
        PointsBack(us[2..]);
        PairUnits(us[0], us[1]);
        UnitsFirst(Pair(us[0], us[1]), CodePoints(us[2..]).value);
      }
    }
  }

  lemma PairUnits(c1: Unit, c2: Unit)
    requires IsSurrogate(c1) && IsLow(c2)
    ensures UnitsOf(Pair(c1, c2)) == [c1, c2]
  {
  }

  lemma UnitsFirst(cp: Point, cps: seq<Point>)
    ensures AllUnits([cp] + cps) == UnitsOf(cp) + AllUnits(cps)
  {
    assert ([cp] + cps)[1..] == cps;
  }

  lemma {:induction false} CutShortens(cps: seq<Point>)
    ensures |AllUnits(CutAll(cps))| <= |AllUnits(cps)|
    ensures (exists i :: 0 <= i < |cps| && cps[i] >= 0x20_0000) ==> |AllUnits(CutAll(cps))| < |AllUnits(cps)|
  {
    if |cps| > 0 {
      CutShortens(cps[1..]);
      assert CutAll(cps)[1..] == CutAll(cps[1..]);
      CutUnits(cps[0]);
      if i :| 0 <= i < |cps| && cps[i] >= 0x20_0000 {
        if i > 0 { assert cps[1..][i - 1] >= 0x20_0000; }
      }
    }
  }

  lemma CutUnits(cp: Point)
    ensures |UnitsOf(Cut(cp))| <= |UnitsOf(cp)|
    ensures cp >= 0x20_0000 ==> |UnitsOf(Cut(cp))| < |UnitsOf(cp)|
  {
  }

  ghost predicate Fits(cps: seq<Point>) {
    forall i :: 0 <= i < |cps| ==> cps[i] < 0x20_0000
  }

  lemma CutFits(cps: seq<Point>)
    requires Fits(cps)
    ensures CutAll(cps) == cps
  {
    forall i | 0 <= i < |cps|
      ensures Cut(cps[i]) == cps[i]
    {
      CutSmall(cps[i]);
    }
  }

  lemma PointsRoundTrip(us: seq<Unit>, cps: seq<Point>)
    requires CodePoints(us) == Some(cps)
    ensures Decode(EncodePoints(cps)) == Some(us) <==> Fits(cps)
  {
    PointsBack(us);
    DecodeEncoded(cps);
    if Fits(cps) {
      CutFits(cps);
    } else {
      CutShortens(cps);
    }
  }

  /** Where the loop ends, a string survives exactly when no pair starts above 0xDFBF. */
  lemma TextRoundTrip(us: seq<Unit>)
    requires !Hangs(us)
    ensures CodePoints(us).Some?
    ensures Decode(EncodePoints(CodePoints(us).value)) == Some(us) <==> !Overflows(us)
  {
    PointsByUnits(us);
    PointsRoundTrip(us, CodePoints(us).value);
  }

  /** Two low surrogates are taken for a pair, which comes back as one unit. */
  lemma LosesBit()
    ensures !Hangs([0xDFC0, 0xDC00]) && CodePoints([0xDFC0, 0xDC00]).Some?
    ensures Decode(EncodePoints(CodePoints([0xDFC0, 0xDC00]).value)) != Some([0xDFC0, 0xDC00])
  {
    var us: seq<Unit> := [0xDFC0, 0xDC00];
    assert Second(us, 1);
    assert OverflowsAt(us, 0);
    TextRoundTrip(us);
  }

  /** In well-formed UTF-16 every surrogate is half of a high-low pair. */
  predicate WellFormed(us: seq<Unit>) {
    |us| == 0
    || (!IsSurrogate(us[0]) && WellFormed(us[1..]))
    || (0xD800 <= us[0] < 0xDC00 && |us| > 1 && IsLow(us[1]) && WellFormed(us[2..]))
  }

  lemma {:induction false} WellFormedSurvives(us: seq<Unit>)
    requires WellFormed(us)
    ensures CodePoints(us).Some? && Decode(EncodePoints(CodePoints(us).value)) == Some(us)
    ensures forall i :: 0 <= i < |CodePoints(us).value| ==> CodePoints(us).value[i] < 0x11_0000
  {
    if |us| > 0 {
      if !IsSurrogate(us[0]) {
        WellFormedSurvives(us[1..]);
      } else {
        WellFormedSurvives(us[2..]);
      }
    }
    PointsRoundTrip(us, CodePoints(us).value);
  }
}

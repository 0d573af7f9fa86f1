/** Varints, zig-zag and fixed-width integers on bytes, with the reader's own bounds checks. */
module Wire {
  import opened Common
  import opened JsBits

  type byte = n: int | 0 <= n < 256

  /** What a reader returns: a value and where it stopped, or a thrown error. */
  datatype Parsed<+T> = Ok(value: T, next: int) | Fail

  /** The bytes w stand at offset o. */
  ghost predicate At(bs: seq<byte>, o: int, w: seq<byte>) {
    0 <= o && o + |w| <= |bs| && forall i :: 0 <= i < |w| ==> bs[o + i] == w[i]
  }

  lemma AtSplit(bs: seq<byte>, o: int, a: seq<byte>, b: seq<byte>)
    requires At(bs, o, a + b)
    ensures At(bs, o, a) && At(bs, o + |a|, b)
  {
    forall i | 0 <= i < |a|
      ensures bs[o + i] == a[i]
    {
      assert (a + b)[i] == a[i];
    }
    forall i | 0 <= i < |b|
      ensures bs[o + |a| + i] == b[i]
    {
      assert (a + b)[|a| + i] == b[i];
    }
  }

  /** Past the end JavaScript reads undefined, which counts as zero in bitwise operators. */
  function ByteAt(bs: seq<byte>, o: int): byte {
    if 0 <= o < |bs| then bs[o] else 0
  }

  // ---------- varints ----------

  /** Seven bits a byte, the lowest first. */
  function Varint(v: nat): (w: seq<byte>)
    ensures |w| > 0
  {
    if v < 128 then [v] else [v % 128 + 128] + Varint(v / 128)
  }

  lemma SevenShifted(v: nat, k: nat)
    requires k >= 7
    ensures Shr(v / 128, k - 7) == Shr(v, k)
  {
    ShrDivides(v, 7);
    assert Pow2(7) == 128;
    ShrAdd(v, 7, k - 7);
  }

  /** Group i holds the bits from 7 * i on, all groups but the last are marked, and there is no idle last group. */
  lemma {:induction false} VarintGroups(v: nat, i: nat)
    requires i < |Varint(v)|
    ensures Varint(v)[i] == Shr(v, 7 * i) % 128 + if i + 1 < |Varint(v)| then 128 else 0
    ensures i + 1 == |Varint(v)| > 1 ==> Varint(v)[i] != 0
  {
    if v >= 128 && i > 0 {
      VarintGroups(v / 128, i - 1);
      SevenShifted(v, 7 * i);
    }
  }

  function CalculateVarint32(v: nat): nat {
    if v < 0x80 then 1 else if v < 0x4000 then 2 else if v < 0x20_0000 then 3 else if v < 0x1000_0000 then 4 else 5
  }

  lemma CalculateVarint32Exact(v: nat)
    requires v < W32
    ensures CalculateVarint32(v) == |Varint(v)|
  {
    var a := v / 128;
    var b := a / 128;
    var c := b / 128;
    var d := c / 128;
    assert d < 128;
    assert |Varint(d)| == 1;
    assert |Varint(c)| == if c < 128 then 1 else 2;
    assert |Varint(b)| == if b < 128 then 1 else 1 + |Varint(c)|;
    assert |Varint(a)| == if a < 128 then 1 else 1 + |Varint(b)|;
  }

  /** The groups from o on; a group above the limit is an error. */
  function Groups(bs: seq<byte>, limit: int, o: int): (r: Parsed<nat>)
    ensures r.Ok? ==> r.next > o
    decreases limit - o
  {
    if o > limit then Fail
    else
      var b := ByteAt(bs, o);
      if b < 128 then Ok(b, o + 1)
      else
        var rest := Groups(bs, limit, o + 1);
        if rest.Fail? then Fail else Ok(b - 128 + 128 * rest.value, rest.next)
  }

  /** A group may stand right at the limit, but none behind it is read. */
  lemma ReadsAtLimit(bs: seq<byte>, limit: int, o: int)
    requires 0 <= o < |bs| && bs[o] < 128
    ensures Groups(bs, limit, o) == if o <= limit then Ok(bs[o], o + 1) else Fail
  {
  }

  /** readVarint32 as an unsigned number: groups past the fifth weigh multiples of 2^35 and drop out. */
  function Read32(bs: seq<byte>, limit: int, o: int): (r: Parsed<nat>)
    ensures r.Ok? ==> r.value < W32 && r.next > o
  {
    if o < 0 || o + 1 > |bs| then Fail
    else
      var g := Groups(bs, limit, o);
      if g.Fail? then Fail else Ok(g.value % W32, g.next)
  }

  lemma {:induction false} GroupsOfVarint(bs: seq<byte>, limit: int, o: int, v: nat)
    requires At(bs, o, Varint(v)) && o + |Varint(v)| <= limit + 1
    ensures Groups(bs, limit, o) == Ok(v, o + |Varint(v)|)
    decreases v
  {
    assert bs[o + 0] == Varint(v)[0];
    if v >= 128 {
      AtSplit(bs, o, [v % 128 + 128], Varint(v / 128));
      GroupsOfVarint(bs, limit, o + 1, v / 128);
    }
  }

  /** A varint of any width reads back as its low 32 bits and is consumed whole. */
  lemma Read32OfVarint(bs: seq<byte>, limit: int, o: int, v: nat)
    requires At(bs, o, Varint(v)) && o + |Varint(v)| <= limit + 1
    ensures Read32(bs, limit, o) == Ok(v % W32, o + |Varint(v)|)
  {
    GroupsOfVarint(bs, limit, o, v);
  }

  lemma Small32(v: nat)
    requires v < W32
    ensures v % W32 == v
  {
  }

  lemma Small64(v: nat)
    requires v < W64
    ensures v % W64 == v
  {
  }

  lemma Read32OfSmall(bs: seq<byte>, limit: int, o: int, v: nat)
    requires v < W32 && At(bs, o, Varint(v)) && o + |Varint(v)| <= limit + 1
    ensures Read32(bs, limit, o) == Ok(v, o + |Varint(v)|)
  {
    Read32OfVarint(bs, limit, o, v);
    Small32(v);
  }

  // ---------- 64 bits ----------

  /** The parts of writeVarint64: they overlap, since each keeps 32 bits. */
  function Part(v: nat, k: nat): nat {
    if k == 0 then v % W32 else if k == 1 then v / 0x1000_0000 % W32 else v / 0x100_0000_0000_0000 % W32
  }

  function CalculateVarint64(v: nat): (n: nat)
    ensures 1 <= n <= 10
  {
    var part0, part1, part2 := Part(v, 0), Part(v, 1), Part(v, 2);
    if part2 == 0 then
      if part1 == 0 then
        if part0 < 0x4000 then (if part0 < 0x80 then 1 else 2) else (if part0 < 0x20_0000 then 3 else 4)
      else
        if part1 < 0x4000 then (if part1 < 0x80 then 5 else 6) else (if part1 < 0x20_0000 then 7 else 8)
    else if part2 < 0x80 then 9 else 10
  }

  /** What byte i is made from, before it is cut to eight bits. */
  function Chunk64(v: nat, i: nat): nat {
    if i == 0 then Part(v, 0)
    else if i == 1 then Part(v, 0) / 0x80
    else if i == 2 then Part(v, 0) / 0x4000
    else if i == 3 then Part(v, 0) / 0x20_0000
    else if i == 4 then Part(v, 1)
    else if i == 5 then Part(v, 1) / 0x80
    else if i == 6 then Part(v, 1) / 0x4000
    else if i == 7 then Part(v, 1) / 0x20_0000
    else if i == 8 then Part(v, 2)
    else Part(v, 2) / 0x80 % 2
  }

  /** `c | 0x80` stored in a byte, or `c & 0x7F` for the last. */
  function Stored(c: nat, last: bool): byte {
    if last then c % 128 else c % 128 + 128
  }

  function WriteVarint64(v: nat): seq<byte> {
    var n := CalculateVarint64(v);
    seq(n, i requires 0 <= i < n => Stored(Chunk64(v, i), i == n - 1))
  }

  function Digit(v: nat, i: nat): nat {
    if i == 0 then v % 128 else Digit(v / 128, i - 1)
  }

  lemma {:induction false} VarintAt(v: nat, i: nat)
    requires i < |Varint(v)|
    ensures Varint(v)[i] == if i == |Varint(v)| - 1 then Digit(v, i) else Digit(v, i) + 128
    decreases i
  {
    if v >= 128 && i > 0 {
      VarintAt(v / 128, i - 1);
    }
  }

  lemma DigitStep(v: nat, x: nat, t: nat)
    requires v == x + 128 * t
    ensures v % 128 == x % 128 && v / 128 == x / 128 + t
  {
  }

  lemma NestedDivision(x: nat)
    ensures x / 0x4000 == x / 128 / 128 && x / 0x20_0000 == x / 128 / 128 / 128
    ensures x / 0x1000_0000 == x / 128 / 128 / 128 / 128
  {
  }

  /** The low word holds the four lowest digits. */
  lemma LowDigits(v: nat, x: nat, q: nat)
    requires v == x + W32 * q
    ensures x % 128 == Digit(v, 0) && x / 0x80 % 128 == Digit(v, 1)
    ensures x / 0x4000 % 128 == Digit(v, 2) && x / 0x20_0000 % 128 == Digit(v, 3)
  {
    NestedDivision(x);
    DigitStep(v, x, 0x200_0000 * q);
    DigitStep(v / 128, x / 128, 0x4_0000 * q);
    DigitStep(v / 128 / 128, x / 128 / 128, 0x800 * q);
    DigitStep(v / 128 / 128 / 128, x / 128 / 128 / 128, 0x10 * q);
    assert Digit(v, 1) == Digit(v / 128, 0);
    assert Digit(v, 2) == Digit(v / 128, 1) == Digit(v / 128 / 128, 0);
    assert Digit(v, 3) == Digit(v / 128, 2) == Digit(v / 128 / 128, 1) == Digit(v / 128 / 128 / 128, 0);
  }

  lemma {:induction false} DigitSkip(v: nat, i: nat, j: nat)
    ensures Digit(v, i + j) == Digit(Drop(v, i), j)
    decreases i
  {
    if i > 0 {
      DigitSkip(v / 128, i - 1, j);
    }
  }

  function Drop(v: nat, i: nat): nat
    decreases i
  {
    if i == 0 then v else Drop(v / 128, i - 1)
  }

  lemma DropFour(v: nat)
    ensures Drop(v, 4) == v / 0x1000_0000
  {
    NestedDivision(v);
    assert Drop(v, 4) == Drop(v / 128, 3) == Drop(v / 128 / 128, 2) == Drop(v / 128 / 128 / 128, 1);
  }

  lemma {:induction false} DropDrop(v: nat, i: nat, j: nat)
    ensures Drop(Drop(v, i), j) == Drop(v, i + j)
    decreases i
  {
    if i > 0 {
      DropDrop(v / 128, i - 1, j);
    }
  }

  lemma DropEight(v: nat)
    ensures Drop(v, 8) == v / 0x100_0000_0000_0000
  {
    DropFour(v);
    DropFour(v / 0x1000_0000);
    DropDrop(v, 4, 4);
  }

  lemma ChunkDigitLow(v: nat, i: nat)
    requires i < 4
    ensures Chunk64(v, i) % 128 == Digit(v, i)
  {
    LowDigits(v, Part(v, 0), v / W32);
  }

  lemma ChunkDigitMid(v: nat, i: nat)
    requires 4 <= i < 8
    ensures Chunk64(v, i) % 128 == Digit(v, i)
  {
    DropFour(v);
    DigitSkip(v, 4, i - 4);
    ChunkDigitLow(v / 0x1000_0000, i - 4);
  }

  lemma ChunkDigitHigh(v: nat, i: nat)
    requires v < W64 && 8 <= i < 10
    ensures Chunk64(v, i) % 128 == Digit(v, i)
  {
    DropEight(v);
    DigitSkip(v, 8, i - 8);
    var h := v / 0x100_0000_0000_0000;
    assert h < 256 && Part(v, 2) == h;
    assert Digit(h, 1) == Digit(h / 128, 0);
  }

  lemma ChunkDigit(v: nat, i: nat)
    requires v < W64 && i < 10
    ensures Chunk64(v, i) % 128 == Digit(v, i)
  {
    if i < 4 { ChunkDigitLow(v, i); } else if i < 8 { ChunkDigitMid(v, i); } else { ChunkDigitHigh(v, i); }
  }

  lemma CalculateVarint64Exact(v: nat)
    requires v < W64
    ensures CalculateVarint64(v) == |Varint(v)|
  {
    DropFour(v);
    DropEight(v);
    LengthDrop(v, 4);
    LengthDrop(v, 8);
    PartsOf(v);
    if Part(v, 2) != 0 {
      CalculateVarint32Exact(Part(v, 2));
    } else if Part(v, 1) != 0 {
      CalculateVarint32Exact(Part(v, 1));
    } else {
      CalculateVarint32Exact(v);
    }
  }

  lemma PartsOf(v: nat)
    requires v < W64
    ensures Part(v, 2) == v / 0x100_0000_0000_0000 < 256
    ensures Part(v, 2) == 0 ==> Part(v, 1) == v / 0x1000_0000 < 0x1000_0000
    ensures Part(v, 2) == 0 && Part(v, 1) == 0 ==> Part(v, 0) == v < 0x1000_0000
  {
  }

  lemma {:induction false} LengthDrop(v: nat, i: nat)
    ensures Drop(v, i) > 0 ==> |Varint(v)| == i + |Varint(Drop(v, i))|
    decreases i
  {
    if i > 0 {
      LengthDrop(v / 128, i - 1);
      if v < 128 { DropZero(i - 1); }
    }
  }

  lemma {:induction false} DropZero(i: nat)
    ensures Drop(0, i) == 0
  {
    if i > 0 { DropZero(i - 1); }
  }

  /** Overlapping parts and byte truncation still write the plain varint. */
  lemma WriteVarint64Exact(v: nat)
    requires v < W64
    ensures WriteVarint64(v) == Varint(v)
  {
    CalculateVarint64Exact(v);
    forall i | 0 <= i < |Varint(v)|
      ensures WriteVarint64(v)[i] == Varint(v)[i]
    {
      VarintAt(v, i);
      ChunkDigit(v, i);
    }
  }

  /** At most ten groups, c of them read already. */
  function Groups10(bs: seq<byte>, o: int, c: nat): (r: Parsed<nat>)
    ensures r.Ok? ==> r.next > o
    decreases 10 - c
  {
    if c >= 10 then Fail
    else
      var b := ByteAt(bs, o);
      if b < 128 then Ok(b, o + 1)
      else
        var rest := Groups10(bs, o + 1, c + 1);
        if rest.Fail? then Fail else Ok(b - 128 + 128 * rest.value, rest.next)
  }

  function Read64(bs: seq<byte>, o: int): (r: Parsed<nat>)
    ensures r.Ok? ==> r.next > o
  {
    if o < 0 || o + 1 > |bs| then Fail
    else
      var g := Groups10(bs, o, 0);
      if g.Fail? then Fail else Ok(g.value % W64, g.next)
  }

  lemma {:induction false} Groups10OfVarint(bs: seq<byte>, o: int, v: nat, c: nat)
    requires At(bs, o, Varint(v)) && c + |Varint(v)| <= 10
    ensures Groups10(bs, o, c) == Ok(v, o + |Varint(v)|)
    decreases v
  {
    assert bs[o + 0] == Varint(v)[0];
    if v >= 128 {
      AtSplit(bs, o, [v % 128 + 128], Varint(v / 128));
      Groups10OfVarint(bs, o + 1, v / 128, c + 1);
    }
  }

  lemma Read64OfVarint(bs: seq<byte>, o: int, v: nat)
    requires v < W64 && At(bs, o, Varint(v))
    ensures Read64(bs, o) == Ok(v, o + |Varint(v)|)
  {
    CalculateVarint64Exact(v);
    Groups10OfVarint(bs, o, v, 0);
    Small64(v);
  }

  // ---------- zig-zag ----------

  /** n as a word of k bits, and the signed number that a word holds. */
  function Word(n: int, k: nat): nat {
    n % Pow2(k)
  }

  function SignedWord(v: nat, k: nat): int
    requires k > 0
  {
    if v >= Pow2(k - 1) then v - Pow2(k) else v
  }

  /** `(n << 1) ^ (n >> 31)` in words of k bits. */
  function ZigZagBits(n: int, k: nat): nat
    requires k > 0
  {
    Xor(Shl(Word(n, k), 1) % Pow2(k), Word(Sar(n, k - 1), k))
  }

  /** `(n >>> 1) ^ -(n & 1)` in words of k bits. */
  function UnZigZagBits(v: nat, k: nat): int
    requires k > 0
  {
    SignedWord(Xor(Shr(v, 1), Word(0 - Low(v, 1), k)), k)
  }

  lemma WordOf(n: int, p: nat)
    requires p > 0 && 0 <= n + p && n < p
    ensures n % p == if n < 0 then p + n else n
  {
  }

  lemma ShiftedWord(n: int, k: nat)
    requires k > 0 && 0 <= n + Pow2(k - 1) && n < Pow2(k - 1)
    ensures Shl(Word(n, k), 1) % Pow2(k) == if n < 0 then Pow2(k) + 2 * n else 2 * n
  {
    var p := Pow2(k);
    WordOf(n, p);
    var w := Word(n, k);
    assert Shl(w, 1) == 2 * Shl(w, 0) == 2 * w;
    if n < 0 {
      OneTurn(2 * w, p);
    } else {
      WordOf(2 * n, p);
    }
  }

  lemma OneTurn(x: nat, p: nat)
    requires p <= x < 2 * p
    ensures x % p == x - p
  {
    WordOf(x - p, p);
    assert x == (x - p) + p;
  }

  /** The shifts and the exclusive or are zig-zag, for every width and every number of that width. */
  lemma ZigZagBitwise(n: int, k: nat)
    requires k > 0 && 0 <= n + Pow2(k - 1) && n < Pow2(k - 1)
    ensures ZigZagBits(n, k) == ZigZag(n) < Pow2(k)
  {
    ShiftedWord(n, k);
    SarSign(n, k - 1);
    if n < 0 {
      WordOf(-1, Pow2(k));
      XorOnes(Pow2(k) + 2 * n, k);
    } else {
      WordOf(0, Pow2(k));
      XorZero(2 * n);
    }
  }

  lemma OneBit(v: nat)
    ensures Low(v, 1) == v % 2 && Shr(v, 1) == v / 2
  {
    assert Low(v, 1) == v % 2 + 2 * Low(v / 2, 0);
    assert Shr(v, 1) == Shr(v / 2, 0);
  }

  lemma UnZigZagBitwise(v: nat, k: nat)
    requires k > 0 && v < Pow2(k)
    ensures UnZigZagBits(v, k) == UnZigZag(v)
  {
    OneBit(v);
    TurnedOver(v / 2, v % 2, k);
    Unfolded(v, v / 2, v % 2, k);
  }

  /** Exclusive or with 0 or -1. */
  lemma TurnedOver(h: nat, b: nat, k: nat)
    requires h < Pow2(k) && b < 2
    ensures Xor(h, Word(0 - b, k)) == if b == 1 then Pow2(k) - 1 - h else h
  {
    WordOf(0 - b, Pow2(k));
    if b == 1 {
      XorOnes(h, k);
    } else {
      XorZero(h);
    }
  }

  lemma Unfolded(v: nat, h: nat, b: nat, k: nat)
    requires k > 0 && v == 2 * h + b && b < 2 && v < Pow2(k)
    ensures SignedWord(if b == 1 then Pow2(k) - 1 - h else h, k) == UnZigZag(v)
  {
  }

  lemma WordSize(k: nat)
    requires k == 32 || k == 64
    ensures Pow2(k) == if k == 32 then W32 else W64
    ensures Pow2(k - 1) == if k == 32 then W31 else W63
  {
    Pow2Sixteen();
    HalfSizes(16, k);
  }

  lemma HalfSizes(i: nat, k: nat)
    requires Pow2(i) == 0x1_0000 && (k == i + i || k == i + i + (i + i)) && i > 0
    ensures Pow2(k) == if k == i + i then W32 else W64
    ensures Pow2(k - 1) == if k == i + i then W31 else W63
  {
    Pow2Square(i, i + i, 0x1_0000);
    if k != i + i {
      Pow2Square(i + i, k, W32);
    }
    assert Pow2(k) == 2 * Pow2(k - 1);
  }

  function ZigZagEncode32(n: int): nat {
    ZigZagBits(n, 32)
  }

  function ZigZagEncode64(n: int): nat {
    ZigZagBits(n, 64)
  }

  lemma ZigZagEncodes(n: int)
    ensures -W31 <= n < W31 ==> ZigZagEncode32(n) == ZigZag(n) < W32
    ensures -W63 <= n < W63 ==> ZigZagEncode64(n) == ZigZag(n) < W64
  {
    WordSize(32);
    WordSize(64);
    if -W31 <= n < W31 { ZigZagBitwise(n, 32); }
    if -W63 <= n < W63 { ZigZagBitwise(n, 64); }
  }

  /** Zig-zag: exclusive or with -1 takes x to -1 - x. */
  function ZigZag(n: int): nat {
    if n >= 0 then 2 * n else -1 - 2 * n
  }

  function UnZigZag(n: nat): int {
    if n % 2 == 0 then n / 2 else -1 - n / 2
  }

  lemma ZigZagInverse(n: int)
    ensures UnZigZag(ZigZag(n)) == n
    ensures -W31 <= n < W31 ==> ZigZag(n) < W32
    ensures -W63 <= n < W63 ==> ZigZag(n) < W64
  {
  }

  // ---------- fixed width ----------

  /** The k lowest bytes, little endian. */
  function Fixed(v: nat, k: nat): (w: seq<byte>)
    ensures |w| == k
    decreases k
  {
    if k == 0 then [] else [v % 256] + Fixed(v / 256, k - 1)
  }

  /** Byte i holds the bits from 8 * i on: the lowest byte comes first. */
  lemma {:induction false} FixedBytes(v: nat, k: nat, i: nat)
    requires i < k
    ensures Fixed(v, k)[i] == Shr(v, 8 * i) % 256
    decreases k
  {
    if i > 0 {
      FixedBytes(v / 256, k - 1, i - 1);
      EightShifted(v, 8 * i);
    }
  }

  lemma EightShifted(v: nat, k: nat)
    requires k >= 8
    ensures Shr(v / 256, k - 8) == Shr(v, k)
  {
    ShrDivides(v, 8);
    assert Pow2(8) == 256;
    ShrAdd(v, 8, k - 8);
  }

  function FromFixed(bs: seq<byte>, o: int, k: nat): nat
    requires 0 <= o && o + k <= |bs|
    decreases k
  {
    if k == 0 then 0 else bs[o] + 256 * FromFixed(bs, o + 1, k - 1)
  }

  function ReadFixed(bs: seq<byte>, o: int, k: nat): Parsed<nat> {
    if o < 0 || o + k > |bs| then Fail else Ok(FromFixed(bs, o, k), o + k)
  }

  function Pow256(k: nat): (p: nat)
    ensures p >= 1
  {
    if k == 0 then 1 else 256 * Pow256(k - 1)
  }

  lemma {:induction false} FixedInverse(bs: seq<byte>, o: int, v: nat, k: nat)
    requires At(bs, o, Fixed(v, k)) && v < Pow256(k)
    ensures ReadFixed(bs, o, k) == Ok(v, o + k)
    decreases k
  {
    if k > 0 {
      assert bs[o + 0] == Fixed(v, k)[0];
      AtSplit(bs, o, [v % 256], Fixed(v / 256, k - 1));
      FixedInverse(bs, o + 1, v / 256, k - 1);
    }
  }

  lemma Pow256Word(k: nat)
    ensures k == 4 ==> Pow256(k) == W32
    ensures k == 8 ==> Pow256(k) == W64
  {
    assert Pow256(4) == W32 && Pow256(8) == W64;
  }
}

/**
  The least-significant-bit-first bit stream that the GIF writer packs its codes into, with the
  sequence of bits as its abstract value.
 */
module BitStream {
  import opened JsBits

  /** The w lowest bits of v, lowest first. */
  function BitsOf(v: nat, w: nat): (b: seq<bool>)
    ensures |b| == w
  {
    if w == 0 then [] else [v % 2 == 1] + BitsOf(v / 2, w - 1)
  }

  /** The number whose bits, lowest first, are b. */
  function FromBits(b: seq<bool>): nat {
    if |b| == 0 then 0 else (if b[0] then 1 else 0) + 2 * FromBits(b[1..])
  }

  function BytesToBits(bytes: seq<nat>): (b: seq<bool>)
    ensures |b| == 8 * |bytes|
  {
    if |bytes| == 0 then [] else BytesToBits(bytes[..|bytes| - 1]) + BitsOf(bytes[|bytes| - 1], 8)
  }

  lemma {:induction false} FromBitsOf(v: nat, w: nat)
    requires v < Pow2(w)
    ensures FromBits(BitsOf(v, w)) == v
  {
    if w > 0 {
      FromBitsOf(v / 2, w - 1);
      assert BitsOf(v, w)[1..] == BitsOf(v / 2, w - 1);
    }
  }

  /** The bits of a number split at any place. */
  lemma {:induction false} BitsSplit(v: nat, i: nat, j: nat)
    ensures BitsOf(v, i + j) == BitsOf(v, i) + BitsOf(Shr(v, i), j)
  {
    if i > 0 {
      BitsSplit(v / 2, i - 1, j);
    }
  }

  lemma {:induction false} BitsLow(v: nat, w: nat)
    ensures BitsOf(Low(v, w), w) == BitsOf(v, w)
  {
    if w > 0 {
      BitsLow(v / 2, w - 1);
      assert Low(v, w) / 2 == Low(v / 2, w - 1);
    }
  }

  /** Two adjacent fields joined by `|`, the lower one first. */
  lemma {:induction false} BitsJoin(a: nat, b: nat, i: nat, j: nat)
    requires a < Pow2(i)
    ensures BitsOf(Or(a, Shl(b, i)), i + j) == BitsOf(a, i) + BitsOf(b, j)
  {
    if i > 0 {
      OrHalf(a, Shl(b, i));
      BitsJoin(a / 2, b, i - 1, j);
    }
  }

  /** One byte leaves the buffer: its low bits are the buffer, its high bits the next bits of data. */
  lemma ByteLeaves(buffer: nat, data: nat, k: nat, l: nat)
    requires k < 8 && buffer < Pow2(k) && k + l >= 8
    ensures BitsOf(buffer, k) + BitsOf(data, l)
         == BitsOf(Low(Or(buffer, Shl(data, k)), 8), 8) + BitsOf(Shr(data, 8 - k), k + l - 8)
  {
    FieldLeaves(buffer, data, k, 8 - k, 8, k + l - 8);
  }

  lemma FieldLeaves(buffer: nat, data: nat, k: nat, j: nat, n: nat, rest: nat)
    requires buffer < Pow2(k) && k + j == n
    ensures BitsOf(buffer, k) + BitsOf(data, j + rest)
         == BitsOf(Low(Or(buffer, Shl(data, k)), n), n) + BitsOf(Shr(data, j), rest)
  {
    BitsJoin(buffer, data, k, j);
    BitsLow(Or(buffer, Shl(data, k)), n);
    BitsSplit(data, j, rest);
    var front := BitsOf(buffer, k);
    Regroup([], front, BitsOf(data, j + rest), front + BitsOf(data, j), BitsOf(Shr(data, j), rest));
  }

  lemma {:induction false} JoinBound(a: nat, b: nat, i: nat, j: nat)
    requires a < Pow2(i) && b < Pow2(j)
    ensures Or(a, Shl(b, i)) < Pow2(i + j)
  {
    if i > 0 {
      OrHalf(a, Shl(b, i));
      JoinBound(a / 2, b, i - 1, j);
    }
  }

  lemma Regroup<T>(x: seq<T>, u: seq<T>, v: seq<T>, y: seq<T>, z: seq<T>)
    requires u + v == y + z
    ensures (x + u) + v == (x + y) + z
  {
    assert (x + u) + v == x + (u + v);
    assert (x + y) + z == x + (y + z);
  }

  /** What is left of the data behind a byte fits the bits that are left. */
  lemma RestFits(d: nat, i: nat, j: nat)
    requires d < Pow2(i + j)
    ensures Shr(d, i) < Pow2(j)
  {
    ShrZero(d, i + j);
    ShrAdd(d, i, j);
    ShrZero(Shr(d, i), j);
  }

  lemma ByteStep(out: seq<nat>, buffer: nat, k: nat, d: nat, l: nat, b: nat)
    requires k < 8 && buffer < Pow2(k) && d < Pow2(l) && k + l >= 8 && b == Low(Or(buffer, Shl(d, k)), 8)
    ensures Shr(d, 8 - k) < Pow2(k + l - 8)
    ensures BytesToBits(out + [b]) + BitsOf(Shr(d, 8 - k), k + l - 8)
            == BytesToBits(out) + BitsOf(buffer, k) + BitsOf(d, l)
  {
    RestFits(d, 8 - k, k + l - 8);
    ByteLeaves(buffer, d, k, l);
    Regroup(BytesToBits(out), BitsOf(buffer, k), BitsOf(d, l), BitsOf(b, 8), BitsOf(Shr(d, 8 - k), k + l - 8));
    AppendByte(out, b);
  }

  lemma PartialBits(out: seq<nat>, a: nat, d: nat, i: nat, j: nat)
    requires a < Pow2(i)
    ensures BytesToBits(out) + BitsOf(Or(a, Shl(d, i)), i + j) == BytesToBits(out) + BitsOf(a, i) + BitsOf(d, j)
  {
    BitsJoin(a, d, i, j);
  }

  lemma EmptyBuffer(bits: seq<bool>)
    ensures bits + BitsOf(0, 0) == bits
  {
    assert BitsOf(0, 0) == [];
  }

  lemma AppendByte(out: seq<nat>, b: nat)
    ensures BytesToBits(out + [b]) == BytesToBits(out) + BitsOf(b, 8)
  {
    assert (out + [b])[..|out|] == out;
  }

  lemma PadByte(a: nat, i: nat, j: nat)
    requires a < Pow2(i)
    ensures BitsOf(a, i + j) == BitsOf(a, i) + BitsOf(0, j)
  {
    BitsJoin(a, 0, i, j);
    ShlOfZero(i);
    OrZero(a);
  }

  class BitOutputStream {
    var out: seq<nat>
    var bitLength: nat
    var bitBuffer: nat

    ghost predicate Valid()
      reads this
    {
      bitLength < 8 && bitBuffer < Pow2(bitLength)
    }

    /** Every bit written so far. */
    ghost function Bits(): seq<bool>
      reads this
    {
      BytesToBits(out) + BitsOf(bitBuffer, bitLength)
    }

    constructor ()
      ensures Valid() && Bits() == []
    {
      out := [];
      bitLength := 0;
      bitBuffer := 0;
    }

    /** Completes a byte with the next bits of d and returns what is left of d. */
    method CompleteByte(d: nat, l: nat) returns (rest: nat, restLength: nat)
      requires Valid() && d < Pow2(l) && bitLength + l >= 8
      modifies this
      ensures Valid() && bitLength == 0 && restLength == old(bitLength) + l - 8 && rest < Pow2(restLength)
      ensures Bits() + BitsOf(rest, restLength) == old(Bits()) + BitsOf(d, l)
    {
      ghost var before := Bits() + BitsOf(d, l);
      rest, restLength := Shr(d, 8 - bitLength), l - (8 - bitLength);
      var b := NextByte(d, l);
      out := out + [b];
      assert BytesToBits(out) + BitsOf(rest, restLength) == before;
      EmptyBuffer(BytesToBits(out));
      bitBuffer := 0;
      bitLength := 0;
    }

    /** The buffer and as many bits of d as complete a byte. */
    method NextByte(d: nat, ghost l: nat) returns (b: nat)
      requires Valid() && d < Pow2(l) && bitLength + l >= 8
      ensures Shr(d, 8 - bitLength) < Pow2(bitLength + l - 8)
      ensures BytesToBits(out + [b]) + BitsOf(Shr(d, 8 - bitLength), bitLength + l - 8) == Bits() + BitsOf(d, l)
    {
      b := Low(Or(bitBuffer, Shl(d, bitLength)), 8);
      ByteStep(out, bitBuffer, bitLength, d, l, b);
    }

    /** Appends the low `length` bits of data; false where the writer throws "length over". */
    method Write(data: nat, length: nat) returns (ok: bool)
      requires Valid() && length <= 16
      modifies this
      ensures Valid()
      ensures ok <==> data < Pow2(length)
      ensures Bits() == if ok then old(Bits()) + BitsOf(data, length) else old(Bits())
    {
      ShrZero(data, length);
      if Shr(data, length) != 0 {
        return false;
      }
      var d: nat, l: nat := data, length;
      while bitLength + l >= 8
        invariant Valid() && d < Pow2(l)
        invariant Bits() + BitsOf(d, l) == old(Bits()) + BitsOf(data, length)
        decreases l + bitLength
      {
        d, l := CompleteByte(d, l);
      }
      AppendPartial(d, l);
      return true;
    }

    method AppendPartial(d: nat, l: nat)
      requires Valid() && d < Pow2(l) && bitLength + l < 8
      modifies this
      ensures Valid() && Bits() == old(Bits()) + BitsOf(d, l)
    {
      PartialBits(out, bitBuffer, d, bitLength, l);
      JoinBound(bitBuffer, d, bitLength, l);
      bitBuffer := Or(bitBuffer, Shl(d, bitLength));
      bitLength := bitLength + l;
    }

    /** Pads the last byte with zero bits. */
    method Flush()
      requires Valid()
      modifies this`out
      ensures BytesToBits(out) == old(Bits()) + BitsOf(0, if old(bitLength) > 0 then 8 - old(bitLength) else 0)
    {
      if bitLength > 0 {
        AppendByte(out, bitBuffer);
        out := out + [bitBuffer];
        PadByte(bitBuffer, bitLength, 8 - bitLength);
        assert 8 == bitLength + (8 - bitLength);
      }
    }
  }
}

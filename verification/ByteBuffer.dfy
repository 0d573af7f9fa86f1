/** The growable byte buffer: writing at the offset, writing in place, appending, and slices that share the bytes. */
module ByteBuffers {
  import opened Common
  import opened Wire
  import opened JsBits
  import Utf
  import Utf8

  class ByteBuffer {
    var view: array<byte>
    var offset: nat
    var limit: nat

    ghost predicate Valid()
      reads this
    {
      offset <= view.Length
    }

    /** What has been written in front of the offset. */
    ghost function Written(): seq<byte>
      requires Valid()
      reads this, view
    {
      view[..offset]
    }

    constructor (capacity: nat)
      ensures Valid() && fresh(view) && offset == 0 && limit == capacity == view.Length
    {
      view := new byte[capacity](_ => 0);
      offset := 0;
      limit := capacity;
    }

    /** Another buffer on the same bytes. */
    constructor Share(source: ByteBuffer, begin: nat, end: nat)
      ensures view == source.view && offset == begin && limit == end
    {
      view := source.view;
      offset := begin;
      limit := end;
    }

    /** Grows the backing bytes; they move to a new array, which slices do not see. */
    method Resize(capacity: nat)
      modifies this`view
      ensures view.Length == if old(view.Length) < capacity then capacity else old(view.Length)
      ensures view == old(view) || fresh(view)
      ensures view[..old(view.Length)] == old(view[..])
    {
      if view.Length < capacity {
        var bytes := new byte[capacity](_ => 0);
        CopyTo(bytes);
        view := bytes;
      }
    }

    method CopyTo(bytes: array<byte>)
      requires view.Length <= bytes.Length && bytes != view
      modifies bytes
      ensures bytes[..view.Length] == view[..]
    {
      var i := 0;
      while i < view.Length
        invariant i <= view.Length && bytes[..i] == view[..i]
      {
        bytes[i] := view[i];
        i := i + 1;
      }
    }

    /** Room for everything below end, doubling where that is enough. */
    method EnsureCapacity(end: nat)
      modifies this`view
      ensures view.Length >= end && view.Length >= old(view.Length)
      ensures view == old(view) || fresh(view)
      ensures view[..old(view.Length)] == old(view[..])
    {
      if end > view.Length {
        Resize(if view.Length * 2 > end then view.Length * 2 else end);
      }
    }

    /** The bytes of a varint into room that is there, from `at` on. */
    method StoreVarint(value: nat, at: nat)
      requires at + |Varint(value)| <= view.Length
      modifies view
      ensures view[at..at + |Varint(value)|] == Varint(value)
      ensures forall j :: 0 <= j < view.Length && !(at <= j < at + |Varint(value)|) ==> view[j] == old(view[j])
    {
      var v, o := value, at;
      while v >= 0x80
        invariant at <= o && o + |Varint(v)| == at + |Varint(value)|
        invariant view[at..o] + Varint(v) == Varint(value)
        invariant forall j :: 0 <= j < view.Length && !(at <= j < o) ==> view[j] == old(view[j])
        decreases v
      {
        Regroup(view[at..o], v % 128 + 128, Varint(v / 128));
        view[o] := v % 128 + 128;
        assert view[at..o + 1] == view[at..o] + [v % 128 + 128];
        v := v / 128;
        o := o + 1;
      }
      view[o] := v;
      assert view[at..o + 1] == view[at..o] + [v];
    }

    /** writeVarint32 at the offset. */
    method WriteVarint32(value: nat)
      requires Valid() && value < W32
      modifies this, view
      ensures Valid() && Written() == old(Written()) + Varint(value)
      ensures view == old(view) || fresh(view)
    {
      var size := CalculateVarint32(value);
      CalculateVarint32Exact(value);
      EnsureCapacity(offset + size);
      StoreVarint(value, offset);
      offset := offset + size;
    }

    /** The bytes of writeVarint64 into room that is there, the last first. */
    method StoreVarint64(value: nat, at: nat)
      requires value < W64 && at + CalculateVarint64(value) <= view.Length
      modifies view
      ensures view[at..at + CalculateVarint64(value)] == Wire.WriteVarint64(value)
      ensures forall j :: 0 <= j < at ==> view[j] == old(view[j])
    {
      var size := CalculateVarint64(value);
      var i := size;
      while i > 0
        invariant i <= size
        invariant forall j :: 0 <= j < at ==> view[j] == old(view[j])
        invariant forall j :: at + i <= j < at + size ==> view[j] == Wire.WriteVarint64(value)[j - at]
      {
        i := i - 1;
        view[at + i] := Stored(Chunk64(value, i), i == size - 1);
      }
    }

    method WriteVarint64(value: nat)
      requires Valid() && value < W64
      modifies this, view
      ensures Valid() && Written() == old(Written()) + Varint(value)
      ensures view == old(view) || fresh(view)
    {
      var size := CalculateVarint64(value);
      WriteVarint64Exact(value);
      EnsureCapacity(offset + size);
      StoreVarint64(value, offset);
      assert view[..offset + size] == view[..offset] + view[offset..offset + size];
      offset := offset + size;
    }

    method StoreFixed(value: nat, width: nat, at: nat)
      requires at + width <= view.Length
      modifies view
      ensures view[at..at + width] == Fixed(value, width)
      ensures forall j :: 0 <= j < at ==> view[j] == old(view[j])
    {
      var v, k := value, 0;
      while k < width
        invariant k <= width
        invariant view[at..at + k] + Fixed(v, width - k) == Fixed(value, width)
        invariant forall j :: 0 <= j < at ==> view[j] == old(view[j])
      {
        Regroup(view[at..at + k], v % 256, Fixed(v / 256, width - k - 1));
        view[at + k] := v % 256;
        assert view[at..at + k + 1] == view[at..at + k] + [v % 256];
        v := v / 256;
        k := k + 1;
      }
    }

    /** writeUint32 and writeUint64, little endian. */
    method WriteFixed(value: nat, width: nat)
      requires Valid()
      modifies this, view
      ensures Valid() && Written() == old(Written()) + Fixed(value, width)
      ensures view == old(view) || fresh(view)
    {
      ghost var before := Written();
      EnsureCapacity(offset + width);
      assert view[..offset] == before;
      StoreFixed(value, width, offset);
      assert view[..offset] == before;
      assert view[..offset + width] == view[..offset] + view[offset..offset + width];
      offset := offset + width;
    }

    /** Raw bytes at the offset. */
    method WriteBytes(w: seq<byte>)
      requires Valid()
      modifies this, view
      ensures Valid() && Written() == old(Written()) + w
      ensures view == old(view) || fresh(view)
    {
      EnsureCapacity(offset + |w|);
      Store(w, offset);
      offset := offset + |w|;
    }

    method Store(w: seq<byte>, at: nat)
      requires at + |w| <= view.Length
      modifies view
      ensures view[at..at + |w|] == w
      ensures forall j :: 0 <= j < view.Length && !(at <= j < at + |w|) ==> view[j] == old(view[j])
    {
      var i := 0;
      while i < |w|
        invariant i <= |w| && view[at..at + i] == w[..i]
        invariant forall j :: 0 <= j < view.Length && !(at <= j < at + i) ==> view[j] == old(view[j])
      {
        view[at + i] := w[i];
        i := i + 1;
      }
    }

    /**
      writeVString: the length is counted before anything is written, and a count that the bytes written do
      not meet is an error. It never is.
     */
    method WriteVString(us: seq<Utf.Unit>) returns (ok: bool)
      requires Valid() && !Utf.Hangs(us)
      requires Utf.CodePoints(us).Some? ==> |Utf.EncodePoints(Utf.CodePoints(us).value)| < W32
      modifies this, view
      ensures ok && Valid() && (view == old(view) || fresh(view)) && Utf.CodePoints(us).Some?
      ensures var w := Utf.EncodePoints(Utf.CodePoints(us).value); Written() == old(Written()) + (Varint(|w|) + w)
      ensures var points := Utf.CodePoints(us).value;
              Utf8.Strict(Utf.EncodePoints(points)) == if Utf.WellFormed(us) then Some(points) else None
    {
      Utf8.ValidExactly(us);
      var points := Utf.UTF16toUTF8(us);
      var k := Utf.CountBytes(points);
      ok := WriteCounted(points, k);
    }

    /** The length, then the bytes of the code points; false when they are not as many as were counted. */
    method WriteCounted(points: seq<Utf.Point>, k: nat) returns (ok: bool)
      requires Valid() && k == |Utf.EncodePoints(points)| < W32
      modifies this, view
      ensures ok && Valid() && (view == old(view) || fresh(view))
      ensures Written() == old(Written()) + (Varint(k) + Utf.EncodePoints(points))
    {
      var l := CalculateVarint32(k);
      CalculateVarint32Exact(k);
      EnsureCapacity(offset + l + k);
      var at := StoreCounted(points, k, l, offset, old(Written()));
      ok := at == offset + k + l;
      if ok {
        offset := at;
      }
    }

    method StoreCounted(points: seq<Utf.Point>, k: nat, l: nat, start: nat, ghost before: seq<byte>)
      returns (end: nat)
      requires k == |Utf.EncodePoints(points)| && l == |Varint(k)| && start + l + k <= view.Length
      requires view[..start] == before
      modifies view
      ensures end == start + l + k && view[..end] == before + (Varint(k) + Utf.EncodePoints(points))
    {
      StoreVarint(k, start);
      assert view[..start] == before;
      Joined(view[..start + l], before, Varint(k));
      end := StorePoints(points, start + l, before + Varint(k));
      Regrouped(before, Varint(k), Utf.EncodePoints(points));
    }

    /** The bytes of every code point, from `at` on; returns where they end. */
    method StorePoints(points: seq<Utf.Point>, at: nat, ghost head: seq<byte>) returns (end: nat)
      requires at + |Utf.EncodePoints(points)| <= view.Length && view[..at] == head
      modifies view
      ensures end == at + |Utf.EncodePoints(points)| && view[..end] == head + Utf.EncodePoints(points)
    {
      end := at;
      var i := 0;
      assert points[0..] == points;
      while i < |points|
        invariant i <= |points| && at <= end <= view.Length && Owed(view[at..end], points, i)
        invariant end + |Utf.EncodePoints(points[i..])| == at + |Utf.EncodePoints(points)|
        invariant forall j :: 0 <= j < at ==> view[j] == old(view[j])
      {
        OwedNext(view[at..end], points, i);
        end := StorePoint(points[i], at, end);
        i := i + 1;
      }
      OwedNothing(view[at..end], points);
      Joined(view[..end], head, view[at..end]);
    }

    method StorePoint(cp: Utf.Point, at: nat, end: nat) returns (end': nat)
      requires at <= end && end + |Utf.EncodePoint(cp)| <= view.Length
      modifies view
      ensures end' == end + |Utf.EncodePoint(cp)| && view[at..end'] == old(view[at..end]) + Utf.EncodePoint(cp)
      ensures forall j :: 0 <= j < at ==> view[j] == old(view[j])
    {
      var w := Utf.EncodePoint(cp);
      Store(w, end);
      end' := end + |w|;
      assert view[at..end] == old(view[at..end]);
      assert view[at..end'] == view[at..end] + view[end..end'];
    }

    /**
      append: the bytes of source between its offset and limit, copied as if all were read first, so
      source may be a slice of this very buffer.
     */
    method Append(source: ByteBuffer)
      requires Valid() && source != this && source.offset <= source.limit <= source.view.Length
      modifies this, view, source`offset
      ensures Valid() && Written() == old(Written()) + old(source.view[source.offset..source.limit])
      ensures view == old(view) || fresh(view)
      ensures source.offset == old(source.limit)
    {
      var w := source.view[source.offset..source.limit];
      WriteBytes(w);
      source.offset := source.limit;
    }

    /**
      readVarint32 at the offset. Only the first five groups are kept, and the fifth loses what does not
      fit 32 bits.
     */
    method ReadVarint32() returns (r: Parsed<nat>)
      modifies this`offset
      ensures r == Read32(view[..], limit, old(offset))
      ensures offset == if r.Ok? then r.next else old(offset)
    {
      if offset + 1 > view.Length {
        return Fail;
      }
      ghost var bs := view[..];
      var o, c, value, b := offset, 0, 0, 128;
      ghost var sum := 0;
      while b >= 128
        invariant offset == old(offset) <= o && 0 <= b < 256 && 0 <= sum < Pow128(c) && value == sum % W32
        invariant b >= 128 ==> Continues(bs, limit, offset, o, sum, Pow128(c))
        invariant b < 128 ==> Groups(bs, limit, offset) == Ok(sum, o)
        decreases b >= 128, limit - o
      {
        if o > limit {
          return Fail;
        }
        b := if o < view.Length then view[o] else 0;
        GroupOrred(c, sum, b % 128, value);
        if c < 5 {
          value := Or(value, Shl(b % 128, 7 * c) % W32);
        }
        Carries(bs, limit, offset, o, sum, Pow128(c), b);
        sum := sum + (b % 128) * Pow128(c);
        c := c + 1;
        o := o + 1;
      }
      assert Read32(bs, limit, offset) == Ok(value, o);
      offset := o;
      return Ok(value, o);
    }

    /** One group at o: `part |= (b & 0x7F) << shift`, and whether another follows. */
    method ReadGroup(o: nat, part: nat, shift: nat, ghost from: int, ghost k: nat, ghost c: nat)
      returns (part': nat, more: bool)
      requires part < Pow2(shift) && Gathered(view[..], from, k, o, c, part, Pow2(shift)) && c < 10
      ensures part' < 128 * Pow2(shift)
      ensures more ==> Gathered(view[..], from, k, o + 1, c + 1, part', 128 * Pow2(shift))
      ensures !more ==> Groups10(view[..], from, k) == Ok(part', o + 1)
    {
      var b := if o < view.Length then view[o] else 0;
      part', more := Or(part, Shl(b % 128, shift)), b >= 128;
      GroupRead(view[..], from, k, o, c, part, shift, Pow2(shift), b, b % 128, part');
    }

    /** Up to four groups, of 28 bits in all. */
    method ReadPart(o: nat, ghost c: nat) returns (part: nat, o': nat, more: bool)
      requires c <= 6
      ensures part < 0x1000_0000
      ensures more ==> o' == o + 4 && Gathered(view[..], o, c, o', c + 4, part, 0x1000_0000)
      ensures !more ==> Groups10(view[..], o, c) == Ok(part, o')
    {
      SevenBits();
      o' := o + 1;
      part, more := ReadGroup(o, 0, 0, o, c, c);
      if more {
        o' := o + 2;
        part, more := ReadGroup(o + 1, part, 7, o, c, c + 1);
        if more {
          o' := o + 3;
          part, more := ReadGroup(o + 2, part, 14, o, c, c + 2);
          if more {
            o' := o + 4;
            part, more := ReadGroup(o + 3, part, 21, o, c, c + 3);
          }
        }
      }
    }

    /** The last two groups: a tenth that asks for more is an error. */
    method ReadLastPart(o: nat) returns (part: nat, o': nat, more: bool)
      ensures part < 0x4000
      ensures more ==> Groups10(view[..], o, 8) == Fail
      ensures !more ==> Groups10(view[..], o, 8) == Ok(part, o')
    {
      SevenBits();
      o' := o + 1;
      part, more := ReadGroup(o, 0, 0, o, 8, 8);
      if more {
        o' := o + 2;
        part, more := ReadGroup(o + 1, part, 7, o, 8, 9);
      }
    }

    /** The three parts of the groups at the offset; more when even ten groups do not end them. */
    method ReadParts() returns (part0: nat, part1: nat, part2: nat, o: nat, more: bool)
      ensures part0 < 0x1000_0000 && part1 < 0x1000_0000 && part2 < 0x4000
      ensures more ==> Groups10(view[..], offset, 0) == Fail
      ensures !more ==> Groups10(view[..], offset, 0) == Ok(Weighed(part0, part1, part2), o)
    {
      part1, part2 := 0, 0;
      part0, o, more := ReadPart(offset, 0);
      if more {
        part1, part2, o, more := ReadRest(o, part0, Groups10(view[..], offset, 0));
      }
    }

    /** The second and third part. */
    method ReadRest(o: nat, ghost part0: nat, ghost all: Parsed<nat>)
      returns (part1: nat, part2: nat, o': nat, more: bool)
      requires Weighs(all, Groups10(view[..], o, 4), part0, 0x1000_0000)
      ensures part1 < 0x1000_0000 && part2 < 0x4000
      ensures all == if more then Fail else Ok(Weighed(part0, part1, part2), o')
    {
      ghost var second := Groups10(view[..], o, 4);
      part2 := 0;
      part1, o', more := ReadPart(o, 4);
      if more {
        ghost var third := Groups10(view[..], o', 8);
        ThreeParts(all, second, third, part0, part1);
        part2, o', more := ReadLastPart(o');
        WeighsEnds(all, third, part0 + 0x1000_0000 * part1, 0x100_0000_0000_0000, part2, o', more);
      } else {
        WeighsEnds(all, second, part0, 0x1000_0000, part1, o', more);
      }
    }

    /** readVarint64 at the offset: parts of 28, 28 and 14 bits, joined into two words. */
    method ReadVarint64() returns (r: Parsed<nat>)
      modifies this`offset
      ensures r == Read64(view[..], old(offset))
      ensures offset == if r.Ok? then r.next else old(offset)
    {
      if offset + 1 > view.Length {
        return Fail;
      }
      var part0, part1, part2, o, more := ReadParts();
      if more {
        return Fail;
      }
      WordsJoin(part0, part1, part2);
      r := Ok(LowWord(part0, part1) + W32 * HighWord(part1, part2), o);
      offset := o;
    }

    method Flip()
      requires Valid()
      modifies this`offset, this`limit
      ensures Valid() && offset == 0 && limit == old(offset)
    {
      limit := offset;
      offset := 0;
    }
  }

  // ---------- the parts of a 64-bit varint ----------

  /** What the groups from o on (k of them read) denote: the part so far, and those from p on times scale. */
  ghost predicate Gathered(bs: seq<byte>, o: int, k: nat, p: int, c: nat, part: nat, scale: nat) {
    Weighs(Groups10(bs, o, k), Groups10(bs, p, c), part, scale)
  }

  /** All groups are the part before, and the rest times scale. */
  predicate Weighs(all: Parsed<nat>, rest: Parsed<nat>, part: nat, scale: nat) {
    if rest.Fail? then all.Fail? else all == Ok(part + scale * rest.value, rest.next)
  }

  /** What is gathered, and how the rest ends. */
  lemma WeighsEnds(all: Parsed<nat>, rest: Parsed<nat>, part: nat, scale: nat, v: nat, next: int, more: bool)
    requires Weighs(all, rest, part, scale) && rest == if more then Fail else Ok(v, next)
    ensures scale * v >= 0 && all == if more then Fail else Ok(part + scale * v, next)
  {
  }

  lemma GroupRead(bs: seq<byte>, o: int, k: nat, p: int, c: nat, part: nat, shift: nat, scale: nat, b: byte, g: nat,
                  part': nat)
    requires scale == Pow2(shift) && part < scale && g == b % 128 && part' == Or(part, Shl(g, shift))
    requires Gathered(bs, o, k, p, c, part, scale) && c < 10 && b == ByteAt(bs, p)
    ensures part' < 128 * scale
    ensures b >= 128 ==> Gathered(bs, o, k, p + 1, c + 1, part', 128 * scale)
    ensures b < 128 ==> Groups10(bs, o, k) == Ok(part', p + 1)
  {
    OrGroup(part, g, shift, scale, part');
    if b >= 128 {
      GathersMore(bs, o, k, p, c, part, scale, g, part' - part);
    } else {
      GathersLast(bs, o, k, p, c, part, scale, g, part' - part);
    }
  }

  lemma OrGroup(part: nat, g: nat, shift: nat, scale: nat, part': nat)
    requires scale == Pow2(shift) && part < scale && g < 128 && part' == Or(part, Shl(g, shift))
    ensures part' == part + g * scale && part <= part' < 128 * scale
  {
    OrAdds(part, g, shift);
    Below(part, g, scale);
  }

  lemma GathersLast(bs: seq<byte>, o: int, k: nat, p: int, c: nat, part: nat, scale: nat, g: nat, added: nat)
    requires Gathered(bs, o, k, p, c, part, scale) && c < 10 && g == ByteAt(bs, p) && g < 128 && added == g * scale
    ensures Groups10(bs, o, k) == Ok(part + added, p + 1)
  {
  }

  lemma GathersMore(bs: seq<byte>, o: int, k: nat, p: int, c: nat, part: nat, scale: nat, g: nat, added: nat)
    requires Gathered(bs, o, k, p, c, part, scale) && c < 10 && g + 128 == ByteAt(bs, p) && added == g * scale
    ensures Gathered(bs, o, k, p + 1, c + 1, part + added, 128 * scale)
  {
    var rest := Groups10(bs, p + 1, c + 1);
    if rest.Ok? {
      Spread(scale, g, rest.value);
      assert Groups10(bs, p, c).value == g + 128 * rest.value;
    }
  }

  lemma SevenBits()
    ensures Pow2(0) == 1 && Pow2(7) == 0x80 && Pow2(14) == 0x4000 && Pow2(21) == 0x20_0000
  {
    assert Pow2(7) == 0x80;
    assert Pow2(14) == 0x4000;
  }

  function Weighed(part0: nat, part1: nat, part2: nat): nat {
    part0 + 0x1000_0000 * part1 + 0x100_0000_0000_0000 * part2
  }

  /** What readVarint64 returns, as a number: `part0 | part1 << 28` and `part1 >>> 4 | part2 << 24`. */
  function LowWord(part0: nat, part1: nat): nat {
    Or(part0, Shl(part1, 28) % W32)
  }

  function HighWord(part1: nat, part2: nat): nat {
    Or(Shr(part1, 4), Shl(part2, 24) % W32)
  }

  lemma WordsJoin(part0: nat, part1: nat, part2: nat)
    requires part0 < 0x1000_0000 && part1 < 0x1000_0000 && part2 < 0x4000
    ensures LowWord(part0, part1) < W32 && HighWord(part1, part2) < W32
    ensures LowWord(part0, part1) + W32 * HighWord(part1, part2)
         == Weighed(part0, part1, part2) % W64
  {
    WordPowers();
    ShlCut(part1, 28, 4);
    ShlCut(part2, 24, 8);
    ShrFour(part1);
    OrAdds(part0, part1 % 16, 28);
    OrAdds(part1 / 16, part2 % 256, 24);
    SplitParts(part0, part1, part2);
  }

  lemma ShrFour(v: nat)
    ensures Shr(v, 4) == v / 16
  {
    ShrDivides(v, 4);
    assert Pow2(4) == 16;
  }

  lemma WordPowers()
    ensures Pow2(4) == 16 && Pow2(8) == 256 && Pow2(24) == 0x100_0000 && Pow2(28) == 0x1000_0000
  {
    assert Pow2(12) == 0x1000;
    assert Pow2(20) == 0x10_0000;
  }

  /** A shift in 32 bits keeps the low bits of what it shifts. */
  lemma ShlCut(v: nat, k: nat, l: nat)
    requires Pow2(k) * Pow2(l) == W32
    ensures Shl(v, k) % W32 == Shl(v % Pow2(l), k)
  {
    var q, r := v / Pow2(l), v % Pow2(l);
    OrAdds(0, v, k);
    OrAdds(0, r, k);
    CutProduct(v, q, r, Pow2(l), Pow2(k));
  }

  lemma CutProduct(v: nat, q: nat, r: nat, l: nat, k: nat)
    requires v == q * l + r && r < l && k > 0 && k * l == W32
    ensures 0 <= v * k && v * k % W32 == r * k
  {
    Reassociate(r, l, q, k);
    Scaled(r, l, k);
    Cut(r * k, q);
  }

  lemma Reassociate(r: nat, l: nat, q: nat, k: nat)
    ensures (q * l + r) * k == r * k + k * l * q
  {
  }

  lemma Scaled(r: nat, l: nat, k: nat)
    requires r < l && k > 0
    ensures 0 <= r * k < k * l
  {
  }

  lemma Cut(x: nat, q: nat)
    requires x < W32
    ensures (x + W32 * q) % W32 == x
  {
  }

  lemma SplitParts(part0: nat, part1: nat, part2: nat)
    requires part0 < 0x1000_0000 && part1 < 0x1000_0000 && part2 < 0x4000
    ensures var low, high := part0 + part1 % 16 * 0x1000_0000, part1 / 16 + part2 % 256 * 0x100_0000;
            && low < W32 && high < W32
            && low + W32 * high == Weighed(part0, part1, part2) % W64
  {
  }

  /** Where the third part is reached, the parts are joined by their weights. */
  lemma ThreeParts(all: Parsed<nat>, second: Parsed<nat>, third: Parsed<nat>, part0: nat, part1: nat)
    requires Weighs(all, second, part0, 0x1000_0000) && Weighs(second, third, part1, 0x1000_0000)
    ensures Weighs(all, third, part0 + 0x1000_0000 * part1, 0x100_0000_0000_0000)
  {
  }

  // ---------- the groups of a 32-bit varint ----------

  function Pow128(c: nat): (p: nat)
    ensures p >= 1
  {
    if c == 0 then 1 else 128 * Pow128(c - 1)
  }

  /** What the groups from start on denote: the sum so far, and those from o on times scale. */
  ghost predicate Continues(bs: seq<byte>, limit: int, start: int, o: int, sum: nat, scale: nat) {
    var all, rest := Groups(bs, limit, start), Groups(bs, limit, o);
    if rest.Fail? then all.Fail? else all == Ok(sum + scale * rest.value, rest.next)
  }

  lemma Carries(bs: seq<byte>, limit: int, start: int, o: int, sum: nat, scale: nat, b: byte)
    requires Continues(bs, limit, start, o, sum, scale) && o <= limit && b == ByteAt(bs, o)
    ensures (b % 128) * scale >= 0
    ensures b < 128 ==> Groups(bs, limit, start) == Ok(sum + (b % 128) * scale, o + 1)
    ensures b >= 128 ==> Continues(bs, limit, start, o + 1, sum + (b % 128) * scale, 128 * scale)
  {
    var rest := Groups(bs, limit, o + 1);
    if b < 128 {
      assert b * scale == scale * b;
    } else {
      assert b % 128 == b - 128;
      if rest.Ok? {
        Spread(scale, b - 128, rest.value);
      }
    }
  }

  lemma Spread(s: nat, g: nat, v: nat)
    ensures s * (g + 128 * v) == g * s + 128 * s * v
  {
  }

  lemma {:induction false} HighWeight(c: nat)
    requires c >= 5
    ensures Pow128(c) % W32 == 0
  {
    if c == 5 {
      assert Pow128(5) == 0x8_0000_0000;
    } else {
      HighWeight(c - 1);
      MultipleStays(Pow128(c - 1), 128);
    }
  }

  lemma MultipleStays(p: nat, g: nat)
    requires p % W32 == 0
    ensures g * p % W32 == 0
  {
    var q := p / W32;
    assert g * p == W32 * (g * q);
  }

  lemma MultipleDrops(a: nat, g: nat, p: nat)
    requires p % W32 == 0
    ensures (a + g * p) % W32 == a % W32
  {
    var q := p / W32;
    assert p == W32 * q;
    assert g * p == W32 * (g * q);
  }

  lemma {:induction false} Pow128IsPow2(c: nat)
    ensures Pow128(c) == Pow2(7 * c)
  {
    if c > 0 {
      Pow128IsPow2(c - 1);
      SevenMore(7 * (c - 1));
    }
  }

  lemma SevenMore(k: nat)
    ensures Pow2(k + 7) == 128 * Pow2(k)
  {
    Pow2Sum(k, 7);
    assert Pow2(7) == 128;
  }

  /** The bits of a group never meet those before it, so or-ing adds. */
  lemma OrKept(c: nat, sum: nat, g: nat)
    requires c < 5 && sum < Pow128(c) && g < 128
    ensures Or(sum % W32, Shl(g, 7 * c) % W32) == sum % W32 + g * Pow128(c) % W32
  {
    Pow128IsPow2(c);
    LowWeight(c);
    Small32(sum);
    OrAdds(0, g, 7 * c);
    if c == 4 {
      OrFifth(sum, g, 7 * c);
    } else {
      Below(sum, g, Pow128(c));
      Small32(g * Pow128(c));
      OrAdds(sum, g, 7 * c);
    }
  }

  lemma GroupOrred(c: nat, sum: nat, g: nat, value: nat)
    requires sum < Pow128(c) && g < 128 && value == sum % W32
    ensures g * Pow128(c) >= 0 && sum + g * Pow128(c) < Pow128(c + 1)
    ensures (if c < 5 then Or(value, Shl(g, 7 * c) % W32) else value) == (sum + g * Pow128(c)) % W32
  {
    GroupKept(c, sum, g);
    if c < 5 {
      OrKept(c, sum, g);
    }
  }

  lemma OrFifth(sum: nat, g: nat, k: nat)
    requires sum < Pow2(k) == 0x1000_0000 && g < 128
    ensures Or(sum, Shl(g, k) % W32) == sum + g * 0x1000_0000 % W32
  {
    assert Pow2(4) == 16;
    ShlCut(g, k, 4);
    OrAdds(sum, g % 16, k);
    OrAdds(0, g, k);
    OrAdds(0, g % 16, k);
  }

  /** Keeping a group below the sixth changes the value as the sum changes, modulo 2^32. */
  lemma GroupKept(c: nat, sum: nat, g: nat)
    requires sum < Pow128(c) && g < 128
    ensures g * Pow128(c) >= 0 && sum + g * Pow128(c) < Pow128(c + 1)
    ensures (sum + g * Pow128(c)) % W32 == if c < 5 then sum % W32 + g * Pow128(c) % W32 else sum % W32
  {
    Below(sum, g, Pow128(c));
    if c >= 5 {
      HighWeight(c);
      MultipleDrops(sum, g, Pow128(c));
    } else {
      LowWeight(c);
      KeptLow(c, sum, g, Pow128(c));
    }
  }

  lemma Below(sum: nat, g: nat, p: nat)
    requires sum < p && g < 128
    ensures 0 <= g * p && sum + g * p < 128 * p
  {
    assert (127 - g) * p >= 0;
    assert (127 - g) * p == 127 * p - g * p;
  }

  function Weight(c: nat): nat
    requires c < 5
  {
    if c == 0 then 1 else if c == 1 then 0x80 else if c == 2 then 0x4000 else if c == 3 then 0x20_0000 else 0x1000_0000
  }

  lemma LowWeight(c: nat)
    requires c < 5
    ensures Pow128(c) == Weight(c)
  {
    assert Pow128(0) == 1 && Pow128(1) == 0x80 && Pow128(2) == 0x4000 && Pow128(3) == 0x20_0000
           && Pow128(4) == 0x1000_0000;
  }

  lemma KeptLow(c: nat, sum: nat, g: nat, p: nat)
    requires c < 5 && g < 128 && sum < p && p == Weight(c)
    ensures (sum + g * p) % W32 == sum % W32 + g * p % W32
  {
    if c == 4 {
      FifthGroup(sum, g, g * p);
    } else {
      Below(sum, g, p);
      Small32(sum);
      Small32(g * p);
      Small32(sum + g * p);
    }
  }

  lemma FifthGroup(sum: nat, g: nat, x: nat)
    requires sum < 0x1000_0000 && g < 128 && x == g * 0x1000_0000
    ensures (sum + x) % W32 == sum % W32 + x % W32
  {
    assert x == g % 16 * 0x1000_0000 + W32 * (g / 16);
    Cut(g % 16 * 0x1000_0000, g / 16);
    Cut(sum + g % 16 * 0x1000_0000, g / 16);
  }

  /** What is stored and the code points from i on make up the whole. */
  ghost predicate Owed(stored: seq<byte>, points: seq<Utf.Point>, i: nat) {
    i <= |points| && stored + Utf.EncodePoints(points[i..]) == Utf.EncodePoints(points)
  }

  lemma OwedNext(stored: seq<byte>, points: seq<Utf.Point>, i: nat)
    requires Owed(stored, points, i) && i < |points|
    ensures Owed(stored + Utf.EncodePoint(points[i]), points, i + 1)
    ensures |Utf.EncodePoints(points[i..])| == |Utf.EncodePoint(points[i])| + |Utf.EncodePoints(points[i + 1..])|
  {
    assert points[i..][1..] == points[i + 1..];
    Associate(stored, Utf.EncodePoint(points[i]), Utf.EncodePoints(points[i + 1..]));
  }

  lemma OwedNothing(stored: seq<byte>, points: seq<Utf.Point>)
    requires Owed(stored, points, |points|)
    ensures stored == Utf.EncodePoints(points)
  {
    assert stored + [] == stored;
  }

  lemma Joined(all: seq<byte>, a: seq<byte>, b: seq<byte>)
    requires |a| <= |all| && all[..|a|] == a && all[|a|..] == b
    ensures all == a + b
  {
    assert all == all[..|a|] + all[|a|..];
  }

  lemma Regrouped(a: seq<byte>, b: seq<byte>, c: seq<byte>)
    ensures a + b + c == a + (b + c)
  {
  }

  lemma Regroup(a: seq<byte>, b: byte, c: seq<byte>)
    ensures a + ([b] + c) == a + [b] + c
  {
  }
}

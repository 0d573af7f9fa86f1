/** Decoding the values that are not messages. */
module ProtoDecode {
  import opened Common
  import opened Wire
  import opened Proto
  import Utf

  function DecodeText(bs: seq<byte>, o: int, n: int): Parsed<Value> {
    if n < 0 then Ok(Text([]), o)
    else if o < 0 || o + n > |bs| then Fail
    else
      var us := Utf.Decode(bs[o..o + n]);
      if us.None? then Fail else Ok(Text(us.value), o + n)
  }

  function DecodeBytes(bs: seq<byte>, limit: int, o: int, n: int): Parsed<Value> {
    if limit - o < n then Fail
    else if n < 0 || o < 0 || o + n > |bs| then Ok(Data([]), o + n)
    else Ok(Data(bs[o..o + n]), o + n)
  }

  function DecodeNumber(k: Kind, bs: seq<byte>, limit: int, o: int): (r: Parsed<int>)
    ensures r.Ok? ==> r.next > o
  {
    match k
    case UInt32 => Read32(bs, limit, o)
    case SInt32 =>
      var r := Read32(bs, limit, o);
      if r.Fail? then Fail else Ok(UnZigZag(r.value), r.next)
    case Fixed32 => ReadFixed(bs, o, Width(k))
    case SFixed32 =>
      var r := ReadFixed(bs, o, Width(k));
      if r.Fail? then Fail else Ok(Signed32(r.value), r.next)
    case Int64 =>
      var r := Read64(bs, o);
      if r.Fail? then Fail else Ok(Signed64(r.value), r.next)
    case UInt64 => Read64(bs, o)
    case SInt64 =>
      var r := Read64(bs, o);
      if r.Fail? then Fail else Ok(UnZigZag(r.value), r.next)
    case Fixed64 => ReadFixed(bs, o, Width(k))
    case SFixed64 =>
      var r := ReadFixed(bs, o, Width(k));
      if r.Fail? then Fail else Ok(Signed64(r.value), r.next)
    case _ =>
      var r := Read32(bs, limit, o);
      if r.Fail? then Fail else Ok(Signed32(r.value), r.next)
  }

  function DecodeScalar(k: Kind, bs: seq<byte>, limit: int, o: int): (r: Parsed<Value>)
    ensures r.Ok? && IsPackable(k) ==> r.next > o
  {
    match k
    case Bool =>
      var r := Read32(bs, limit, o);
      if r.Fail? then Fail else Ok(Flag(r.value != 0), r.next)
    case Str =>
      var r := Read32(bs, limit, o);
      if r.Fail? then Fail else DecodeText(bs, r.next, Signed32(r.value))
    case Bytes =>
      var r := Read32(bs, limit, o);
      if r.Fail? then Fail else DecodeBytes(bs, limit, r.next, Signed32(r.value))
    case _ =>
      var r := DecodeNumber(k, bs, limit, o);
      if r.Fail? then Fail else Ok(Num(r.value), r.next)
  }

  // ---------- what a value becomes ----------

  function CanonNumber(k: Kind, n: int): int {
    match k
    case Int64 => n
    case UInt64 => n
    case SInt64 => n
    case Fixed64 => n
    case SFixed64 => n
    case UInt32 => n % W32
    case Fixed32 => n % W32
    case _ => Signed32(n)
  }

  function CanonScalar(k: Kind, v: Value): Value {
    if v.Num? then Num(CanonNumber(k, v.n)) else v
  }

  lemma LowWord(n: int)
    ensures n % W64 % W32 == n % W32
  {
    var r := n % W64;
    var q, s, t := n / W64, r / W32, r % W32;
    assert n == W32 * (W32 * q + s) + t;
  }

  lemma SignedBack(n: int)
    ensures Signed32(n % W64) == Signed32(n) && Signed32(n % W32) == Signed32(n)
    ensures -W63 <= n < W63 ==> Signed64(n % W64) == n
  {
    LowWord(n);
  }

  ghost predicate Placed(k: Kind, n: int, bs: seq<byte>, limit: int, o: int) {
    GoodScalar(k, Num(n)) && At(bs, o, EncodeNumber(k, n)) && o + |EncodeNumber(k, n)| <= limit
  }

  lemma FixedBack(k: Kind, n: int, v: nat, bs: seq<byte>, limit: int, o: int)
    requires Placed(k, n, bs, limit, o) && EncodeNumber(k, n) == Fixed(v, Width(k)) && v < Pow256(Width(k))
    ensures ReadFixed(bs, o, Width(k)) == Ok(v, o + |EncodeNumber(k, n)|)
  {
    FixedInverse(bs, o, v, Width(k));
  }

  lemma Fixed32Back(k: Kind, n: int, bs: seq<byte>, limit: int, o: int)
    requires Placed(k, n, bs, limit, o) && (k.Fixed32? || k.SFixed32?)
    ensures DecodeNumber(k, bs, limit, o) == Ok(CanonNumber(k, n), o + |EncodeNumber(k, n)|)
  {
    Pow256Word(Width(k));
    FixedBack(k, n, n % W32, bs, limit, o);
    SignedBack(n);
  }

  lemma SignedBack64(n: int)
    requires -W63 <= n < W63
    ensures Signed64(n % W64) == n
  {
  }

  lemma Fixed64Back(k: Kind, n: int, bs: seq<byte>, limit: int, o: int)
    requires Placed(k, n, bs, limit, o) && (k.Fixed64? || k.SFixed64?)
    ensures DecodeNumber(k, bs, limit, o) == Ok(CanonNumber(k, n), o + |EncodeNumber(k, n)|)
  {
    var v := n % W64;
    assert EncodeNumber(k, n) == Fixed(v, Width(k));
    Pow256Word(Width(k));
    FixedBack(k, n, v, bs, limit, o);
    if k.SFixed64? { SignedBack64(n); } else { Small64(n); }
  }

  lemma Varint64Back(k: Kind, n: int, bs: seq<byte>, limit: int, o: int)
    requires Placed(k, n, bs, limit, o) && (k.Int64? || k.UInt64?)
    ensures DecodeNumber(k, bs, limit, o) == Ok(CanonNumber(k, n), o + |EncodeNumber(k, n)|)
  {
    var v := n % W64;
    assert EncodeNumber(k, n) == Varint(v);
    Read64OfVarint(bs, o, v);
    if k.Int64? { SignedBack64(n); } else { Small64(n); }
  }

  lemma ZigZag64Back(n: int, bs: seq<byte>, limit: int, o: int)
    requires Placed(SInt64, n, bs, limit, o)
    ensures DecodeNumber(SInt64, bs, limit, o) == Ok(n, o + |EncodeNumber(SInt64, n)|)
  {
    ZigZagInverse(n);
    Read64OfVarint(bs, o, ZigZag(n));
  }

  lemma NegativeBack(n: int, bs: seq<byte>, limit: int, o: int)
    requires n < 0 && Placed(Int32, n, bs, limit, o)
    ensures DecodeNumber(Int32, bs, limit, o) == Ok(Signed32(n), o + |EncodeNumber(Int32, n)|)
  {
    var v := n % W64;
    assert EncodeNumber(Int32, n) == Varint(v);
    Read32OfVarint(bs, limit, o, v);
    SignedBack(n);
    SignedLow(v);
  }

  lemma SignedLow(v: nat)
    ensures Signed32(v % W32) == Signed32(v)
  {
  }

  lemma Varint32Back(k: Kind, n: int, bs: seq<byte>, limit: int, o: int)
    requires Placed(k, n, bs, limit, o) && ((k.Int32? && n >= 0) || k.UInt32? || k.Enum?)
    ensures DecodeNumber(k, bs, limit, o) == Ok(CanonNumber(k, n), o + |EncodeNumber(k, n)|)
  {
    Read32OfVarint(bs, limit, o, n % W32);
  }

  lemma ZigZagBack(n: int, bs: seq<byte>, limit: int, o: int)
    requires Placed(SInt32, n, bs, limit, o)
    ensures DecodeNumber(SInt32, bs, limit, o) == Ok(Signed32(n), o + |EncodeNumber(SInt32, n)|)
  {
    ZigZagInverse(Signed32(n));
    Read32OfVarint(bs, limit, o, ZigZag(Signed32(n)));
  }

  lemma NumberBack(k: Kind, n: int, bs: seq<byte>, limit: int, o: int)
    requires Placed(k, n, bs, limit, o) && IsScalar(k)
    ensures DecodeNumber(k, bs, limit, o) == Ok(CanonNumber(k, n), o + |EncodeNumber(k, n)|)
  {
    if k.Fixed32? || k.SFixed32? {
      Fixed32Back(k, n, bs, limit, o);
    } else if k.Fixed64? || k.SFixed64? {
      Fixed64Back(k, n, bs, limit, o);
    } else if k.Int64? || k.UInt64? {
      Varint64Back(k, n, bs, limit, o);
    } else if k.SInt64? {
      ZigZag64Back(n, bs, limit, o);
    } else if k.SInt32? {
      ZigZagBack(n, bs, limit, o);
    } else if k.Int32? && n < 0 {
      NegativeBack(n, bs, limit, o);
    } else {
      Varint32Back(k, n, bs, limit, o);
    }
  }

  /** A string that comes back as it was. */
  ghost predicate Survives(v: Value) {
    v.Text? ==> !Utf.Hangs(v.us) && !Utf.Overflows(v.us)
  }

  lemma DelimitedAt(bs: seq<byte>, limit: int, o: int, w: seq<byte>)
    requires At(bs, o, Delimited(w)) && o + |Delimited(w)| <= limit && |w| < W31
    ensures Read32(bs, limit, o) == Ok(|w|, o + |Varint(|w|)|) && Signed32(|w|) == |w|
    ensures At(bs, o + |Varint(|w|)|, w) && o + |Varint(|w|)| + |w| == o + |Delimited(w)|
  {
    AtSplit(bs, o, Varint(|w|), w);
    Read32OfSmall(bs, limit, o, |w|);
    SignedSmall(|w|);
  }

  lemma SignedSmall(n: nat)
    requires n < W31
    ensures Signed32(n) == n
  {
  }

  lemma AtSlice(bs: seq<byte>, o: int, w: seq<byte>)
    requires At(bs, o, w)
    ensures bs[o..o + |w|] == w
  {
  }

  lemma TextDecodes(us: seq<Utf.Unit>)
    requires !Utf.Hangs(us) && !Utf.Overflows(us)
    ensures Utf.Decode(TextBytes(us)) == Some(us)
  {
    Utf.TextRoundTrip(us);
  }

  lemma TextBack(us: seq<Utf.Unit>, w: seq<byte>, bs: seq<byte>, limit: int, o: int)
    requires Utf.Decode(w) == Some(us)
    requires At(bs, o, Delimited(w)) && o + |Delimited(w)| <= limit <= |bs| < W31
    ensures DecodeScalar(Str, bs, limit, o) == Ok(Text(us), o + |Delimited(w)|)
  {
    DelimitedAt(bs, limit, o, w);
    AtSlice(bs, o + |Varint(|w|)|, w);
  }

  lemma DataBack(w: seq<byte>, bs: seq<byte>, limit: int, o: int)
    requires At(bs, o, Delimited(w)) && o + |Delimited(w)| <= limit <= |bs| < W31
    ensures DecodeScalar(Bytes, bs, limit, o) == Ok(Data(w), o + |Delimited(w)|)
  {
    DelimitedAt(bs, limit, o, w);
    AtSlice(bs, o + |Varint(|w|)|, w);
  }

  lemma ScalarBack(k: Kind, v: Value, bs: seq<byte>, limit: int, o: int)
    requires IsScalar(k) && GoodScalar(k, v) && Survives(v)
    requires At(bs, o, EncodeScalar(k, v)) && o + |EncodeScalar(k, v)| <= limit <= |bs| < W31
    ensures DecodeScalar(k, bs, limit, o) == Ok(CanonScalar(k, v), o + |EncodeScalar(k, v)|)
  {
    match v
    case Num(n) => NumberBack(k, n, bs, limit, o);
    case Flag(b) => Read32OfVarint(bs, limit, o, if b then 1 else 0);
    case Text(us) =>
      TextDecodes(us);
      TextBack(us, TextBytes(us), bs, limit, o);
    case Data(w) => DataBack(w, bs, limit, o);
  }
}

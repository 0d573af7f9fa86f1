/**
  The LZW compressor of the GIF writer, against an independent decoder that rebuilds the table one
  code behind and widens its codes by its own table size (Appendix F of the GIF89a specification).
 */
module Lzw {
  import opened Common
  import opened JsBits
  import opened BitStream

  /** Where the compressor stops adding words, one short of what twelve bits can name. */
  const LIMIT: nat := 0xFFF

  /** Where the decoder stops: codes have at most twelve bits. */
  const FULL: nat := 0x1000

  type Word = seq<nat>

  // ---------- the decoder ----------

  /** One word per pixel value, then the clear and end codes. */
  function InitialTable(m: nat): (t: seq<Word>)
    ensures |t| == Pow2(m) + 2
  {
    seq(Pow2(m) + 2, i => [i])
  }

  datatype Decoder = Decoder(table: seq<Word>, prev: Word, out: seq<nat>)

  function Start(m: nat): Decoder {
    Decoder(InitialTable(m), [], [])
  }

  /** Takes one data code; None for a code that is no data code or not yet known. */
  function Accept(m: nat, d: Decoder, code: nat): Option<Decoder> {
    if code == Pow2(m) || code == Pow2(m) + 1 then None
    else if d.prev == [] then
      if code < |d.table| then Some(Decoder(d.table, d.table[code], d.out + d.table[code])) else None
    else if code < |d.table| && d.table[code] != [] then
      Some(Extend(d, d.table[code]))
    else if code == |d.table| && |d.table| < FULL then
      Some(Extend(d, d.prev + [d.prev[0]]))
    else None
  }

  function Extend(d: Decoder, word: Word): Decoder
    requires d.prev != [] && word != []
  {
    Decoder(if |d.table| < FULL then d.table + [d.prev + [word[0]]] else d.table, word, d.out + word)
  }

  function AcceptAll(m: nat, codes: seq<nat>): Option<Decoder> {
    if |codes| == 0 then Some(Start(m))
    else
      var before := AcceptAll(m, codes[..|codes| - 1]);
      if before.None? then None else Accept(m, before.value, codes[|codes| - 1])
  }

  /** The width of the next code to read, once the table has the given size. */
  function ReadWidth(w: nat, size: nat): nat {
    if size == Pow2(w) && w < 12 then w + 1 else w
  }

  datatype Reader = Reader(decoder: Decoder, width: nat, rest: seq<bool>)

  /** Reads codes until the end code; None when the bits run out first or a code is refused. */
  function ReadToEnd(m: nat, r: Reader): Option<seq<nat>>
    requires r.width > 0
    decreases |r.rest|
  {
    if |r.rest| < r.width then None
    else
      var code := FromBits(r.rest[..r.width]);
      if code == Pow2(m) + 1 then Some(r.decoder.out)
      else
        var next := Accept(m, r.decoder, code);
        if next.None? then None
        else ReadToEnd(m, Reader(next.value, ReadWidth(r.width, |next.value.table|), r.rest[r.width..]))
  }

  /** The whole decoder: a clear code, then data codes, then the end code. */
  function Decode(m: nat, bytes: seq<nat>): Option<seq<nat>> {
    var bits := BytesToBits(bytes);
    if |bits| < m + 1 || FromBits(bits[..m + 1]) != Pow2(m) then None
    else ReadToEnd(m, Reader(Start(m), m + 1, bits[m + 1..]))
  }

  // ---------- code widths ----------

  /** The table size of the compressor when it writes data code j. */
  function SizeAt(m: nat, j: nat): nat {
    if Pow2(m) + 2 + j < LIMIT then Pow2(m) + 2 + j else LIMIT
  }

  /** The width of the next code to write, before a word joins a table of the given size. */
  function Widen(w: nat, size: nat): nat {
    if size < LIMIT && size == Pow2(w) then w + 1 else w
  }

  function WidthAt(m: nat, j: nat): nat {
    if j == 0 then m + 1 else Widen(WidthAt(m, j - 1), SizeAt(m, j - 1))
  }

  function CodeBits(m: nat, codes: seq<nat>): seq<bool> {
    if |codes| == 0 then []
    else CodeBits(m, codes[..|codes| - 1]) + BitsOf(codes[|codes| - 1], WidthAt(m, |codes| - 1))
  }

  lemma {:induction false} Pow2Monotone(i: nat, j: nat)
    requires i <= j
    ensures Pow2(i) <= Pow2(j)
  {
    if i < j {
      Pow2Monotone(i, j - 1);
    }
  }

  /** Every code in the table fits the width in use, and no code is wider than twelve bits. */
  lemma {:induction false} WidthFits(m: nat, j: nat)
    requires 1 <= m <= 11
    ensures SizeAt(m, j) <= Pow2(WidthAt(m, j)) && m + 1 <= WidthAt(m, j) <= 12
  {
    Pow2Range(m);
    if j == 0 {
      assert Pow2(m + 1) == 2 * Pow2(m);
    } else {
      WidthFits(m, j - 1);
      WidenFits(WidthAt(m, j - 1), SizeAt(m, j - 1), SizeAt(m, j));
    }
  }

  lemma Pow2Range(m: nat)
    requires 1 <= m <= 11
    ensures 2 <= Pow2(m) <= 2048
  {
    Pow2Monotone(1, m);
    Pow2Monotone(m, 11);
    assert Pow2(1) == 2 && Pow2(11) == 2048;
  }

  lemma WidenFits(w: nat, size: nat, next: nat)
    requires size <= Pow2(w) && w <= 12 && size <= LIMIT && next <= LIMIT && (next == size + 1 || next == size == LIMIT)
    ensures next <= Pow2(Widen(w, size)) && w <= Widen(w, size) <= 12
  {
    assert Pow2(12) == 4096;
    assert Pow2(w + 1) == 2 * Pow2(w);
  }

  // ---------- the compressor's table ----------

  class LzwTable {
    var indices: map<Word, nat>
    var size: nat
    ghost var words: seq<Word>

    ghost predicate Valid()
      reads this
    {
      && |words| == size
      && (forall i :: 0 <= i < size ==> words[i] in indices && indices[words[i]] == i)
      && (forall w :: w in indices ==> indices[w] < size && words[indices[w]] == w)
    }

    constructor ()
      ensures Valid() && words == []
    {
      indices := map[];
      size := 0;
      words := [];
    }

    /** Adds a word under the next index; false where the table throws "dup key". */
    method Add(key: Word) returns (ok: bool)
      requires Valid()
      modifies this
      ensures Valid()
      ensures ok <==> key !in old(words)
      ensures words == if ok then old(words) + [key] else old(words)
    {
      if key in indices {
        assert words[indices[key]] == key;
        return false;
      }
      indices := indices[key := size];
      size := size + 1;
      words := words + [key];
      return true;
    }

    predicate Contains(key: Word): (c: bool)
      requires Valid()
      reads this
      ensures c <==> key in words
    {
      assert key in indices ==> words[indices[key]] == key;
      key in indices
    }

    function IndexOf(key: Word): (i: nat)
      requires Valid() && key in words
      reads this
      ensures i < |words| && words[i] == key
    {
      indices[key]
    }
  }

  // ---------- the compressor keeps the decoder one code behind ----------

  ghost predicate Pixels(m: nat, w: Word) {
    forall i :: 0 <= i < |w| ==> w[i] < Pow2(m)
  }

  ghost predicate IsTable(m: nat, t: seq<Word>) {
    && |t| >= Pow2(m) + 2
    && (forall i :: 0 <= i < Pow2(m) + 2 ==> t[i] == [i])
    && (forall i :: 0 <= i < |t| ==> t[i] != [])
    && (forall i, j :: 0 <= i < j < |t| ==> t[i] != t[j])
  }

  /**
    The decoder that has taken `codes` against the compressor's table t and pending word s: it has
    the table except for the entry the compressor made last, which it can already name.
   */
  ghost predicate OneBehind(m: nat, t: seq<Word>, codes: seq<nat>, s: Word, d: Decoder) {
    && s != [] && s in t && Pixels(m, s)
    && IsTable(m, t)
    && AcceptAll(m, codes) == Some(d)
    && |t| == SizeAt(m, |codes|)
    && if codes == [] then
         t == InitialTable(m) && d == Start(m)
       else
         && d.prev != []
         && if |d.table| < LIMIT then t == d.table + [d.prev + [s[0]]] else t == d.table[..LIMIT]
  }

  /** Once the code of s is sent, the decoder has the whole table and all of the text up to s. */
  lemma Caught(m: nat, t: seq<Word>, codes: seq<nat>, s: Word, d: Decoder, code: nat) returns (d': Decoder)
    requires 1 <= m <= 11 && OneBehind(m, t, codes, s, d)
    requires code < |t| && t[code] == s
    ensures AcceptAll(m, codes + [code]) == Some(d')
    ensures |t| <= |d'.table| && d'.table[..|t|] == t && (|t| < LIMIT ==> d'.table == t)
    ensures d'.prev == s && d'.out == d.out + s
  {
    assert (codes + [code])[..|codes|] == codes;
    assert code != Pow2(m) && code != Pow2(m) + 1 by {
      if code == Pow2(m) || code == Pow2(m) + 1 {
        assert t[code] == [code];
      }
    }
    if codes == [] {
      d' := Decoder(d.table, s, d.out + s);
    } else if code < |d.table| {
      assert d.table[code] == s;
      d' := Extend(d, s);
    } else {
      assert s == d.prev + [s[0]];
      assert s[0] == d.prev[0];
      d' := Extend(d, s);
    }
  }

  /** Starting the next word with pixel c after recording s + [c] puts the decoder one behind again. */
  lemma BehindAgain(m: nat, t: seq<Word>, codes: seq<nat>, s: Word, d: Decoder, code: nat, c: nat, t': seq<Word>)
    requires 1 <= m <= 11 && OneBehind(m, t, codes, s, d)
    requires code < |t| && t[code] == s
    requires c < Pow2(m) && s + [c] !in t
    requires t' == if |t| < LIMIT then t + [s + [c]] else t
    ensures AcceptAll(m, codes + [code]).Some?
    ensures OneBehind(m, t', codes + [code], [c], AcceptAll(m, codes + [code]).value)
    ensures AcceptAll(m, codes + [code]).value.out == d.out + s
  {
    var d' := Caught(m, t, codes, s, d, code);
    assert t'[c] == [c];
    assert IsTable(m, t') by {
      if |t| < LIMIT {
        forall i, j | 0 <= i < j < |t'|
          ensures t'[i] != t'[j]
        {
          if j == |t| {
            assert t[i] in t;
          }
        }
      }
    }
    assert codes + [code] != [];
  }

  // ---------- the compressor as a function of the pixels ----------

  /** The index of a word, |t| when it is absent. */
  function Index(t: seq<Word>, w: Word): (i: nat)
    ensures i <= |t|
    ensures w in t ==> i < |t| && t[i] == w
  {
    if |t| == 0 || t[0] == w then 0 else 1 + Index(t[1..], w)
  }

  datatype Compressor = Compressor(table: seq<Word>, s: Word, codes: seq<nat>)

  function Feed(k: Compressor, c: nat): Compressor {
    if k.s + [c] in k.table then k.(s := k.s + [c])
    else Compressor(if |k.table| < LIMIT then k.table + [k.s + [c]] else k.table, [c], k.codes + [Index(k.table, k.s)])
  }

  function FeedAll(m: nat, data: seq<nat>): Compressor
    requires |data| > 0
  {
    if |data| == 1 then Compressor(InitialTable(m), [data[0]], [])
    else Feed(FeedAll(m, data[..|data| - 1]), data[|data| - 1])
  }

  /** The data codes of a raster. */
  function Compress(m: nat, data: seq<nat>): (codes: seq<nat>)
    requires |data| > 0
    ensures |codes| > 0
  {
    var k := FeedAll(m, data);
    k.codes + [Index(k.table, k.s)]
  }

  ghost predicate InStep(m: nat, data: seq<nat>, k: Compressor) {
    && AcceptAll(m, k.codes).Some?
    && OneBehind(m, k.table, k.codes, k.s, AcceptAll(m, k.codes).value)
    && AcceptAll(m, k.codes).value.out + k.s == data
  }

  lemma InitialIsTable(m: nat)
    ensures IsTable(m, InitialTable(m))
  {
    var t := InitialTable(m);
    forall i, j | 0 <= i < j < |t|
      ensures t[i] != t[j]
    {
      assert t[i][0] == i && t[j][0] == j;
    }
  }

  lemma InitialSize(m: nat)
    requires 1 <= m <= 11
    ensures |InitialTable(m)| == SizeAt(m, 0)
  {
    Pow2Monotone(m, 11);
    assert Pow2(11) == 2048;
  }

  lemma InStepStart(m: nat, c: nat)
    requires 1 <= m <= 11 && c < Pow2(m)
    ensures InStep(m, [c], Compressor(InitialTable(m), [c], []))
  {
    InitialIsTable(m);
    InitialSize(m);
    assert InitialTable(m)[c] == [c];
  }

  lemma InStepFeed(m: nat, data: seq<nat>, k: Compressor, c: nat)
    requires 1 <= m <= 11 && InStep(m, data, k) && c < Pow2(m)
    ensures InStep(m, data + [c], Feed(k, c))
  {
    var d := AcceptAll(m, k.codes).value;
    if k.s + [c] in k.table {
      assert d.out + (k.s + [c]) == data + [c];
    } else {
      BehindAgain(m, k.table, k.codes, k.s, d, Index(k.table, k.s), c, Feed(k, c).table);
    }
  }

  lemma FeedLast(m: nat, data: seq<nat>, n: nat)
    requires 0 < n < |data|
    ensures data[..n + 1] == data[..n] + [data[n]]
    ensures FeedAll(m, data[..n + 1]) == Feed(FeedAll(m, data[..n]), data[n])
  {
    assert data[..n + 1][..n] == data[..n];
  }

  /** What holds of the first pixel and survives each further one holds of all. */
  lemma {:induction false} FeedInduction(m: nat, data: seq<nat>, n: nat, P: (seq<nat>, Compressor) -> bool)
    requires 0 < n <= |data| && Pixels(m, data) && P([data[0]], Compressor(InitialTable(m), [data[0]], []))
    requires forall before: seq<nat>, k: Compressor, c: nat {:trigger P(before + [c], Feed(k, c))} ::
               P(before, k) && c < Pow2(m) ==> P(before + [c], Feed(k, c))
    ensures P(data[..n], FeedAll(m, data[..n]))
  {
    if n == 1 {
      assert data[..1] == [data[0]];
    } else {
      FeedInduction(m, data, n - 1, P);
      FeedLast(m, data, n - 1);
      assert P(data[..n - 1] + [data[n - 1]], Feed(FeedAll(m, data[..n - 1]), data[n - 1]));
    }
  }

  lemma InStepAll(m: nat, data: seq<nat>)
    requires 1 <= m <= 11 && |data| > 0 && Pixels(m, data)
    ensures InStep(m, data, FeedAll(m, data))
  {
    var P := (before: seq<nat>, k: Compressor) => InStep(m, before, k);
    InStepStart(m, data[0]);
    forall before: seq<nat>, k: Compressor, c: nat | P(before, k) && c < Pow2(m)
      ensures P(before + [c], Feed(k, c))
    {
      InStepFeed(m, before, k, c);
    }
    FeedInduction(m, data, |data|, P);
    assert data[..|data|] == data;
  }

  /** The decoder recovers the pixels from the data codes. */
  lemma CodesDecode(m: nat, data: seq<nat>)
    requires 1 <= m <= 11 && |data| > 0 && Pixels(m, data)
    ensures AcceptAll(m, Compress(m, data)).Some?
    ensures AcceptAll(m, Compress(m, data)).value.out == data
  {
    InStepAll(m, data);
    var k := FeedAll(m, data);
    var d := Caught(m, k.table, k.codes, k.s, AcceptAll(m, k.codes).value, Index(k.table, k.s));
  }

  // ---------- the bit stream ----------

  /** The table size of the decoder once it has taken data code j. */
  function FullSizeAt(m: nat, j: nat): nat {
    if Pow2(m) + 2 + j < FULL then Pow2(m) + 2 + j else FULL
  }

  /** The decoder's larger table changes neither the width of the next code nor what fits it. */
  lemma SameWidths(m: nat, j: nat)
    requires 1 <= m <= 11
    ensures FullSizeAt(m, j) <= Pow2(WidthAt(m, j))
    ensures ReadWidth(WidthAt(m, j), FullSizeAt(m, j)) == WidthAt(m, j + 1)
  {
    WidthFits(m, j);
    Pow2Monotone(WidthAt(m, j), 12);
    assert Pow2(11) == 2048 && Pow2(12) == 4096;
    if WidthAt(m, j) < 12 {
      Pow2Monotone(WidthAt(m, j), 11);
    }
  }

  /** Every accepted code is within the decoder's table, so it fits its width. */
  lemma {:induction false} AcceptedSize(m: nat, codes: seq<nat>)
    requires 1 <= m <= 11 && |codes| > 0 && AcceptAll(m, codes).Some?
    ensures AcceptAll(m, codes[..|codes| - 1]).Some?
    ensures codes[|codes| - 1] < FullSizeAt(m, |codes| - 1) && codes[|codes| - 1] != Pow2(m) + 1
    ensures |AcceptAll(m, codes).value.table| == FullSizeAt(m, |codes| - 1)
    ensures AcceptAll(m, codes).value.prev != []
  {
    Pow2Monotone(m, 11);
    assert Pow2(11) == 2048;
    if |codes| > 1 {
      AcceptedSize(m, codes[..|codes| - 1]);
    }
  }

  /** The last step of accepting: the decoder before it, the code and its width. */
  lemma LastAccepted(m: nat, codes: seq<nat>) returns (d: Decoder, c: nat, w: nat)
    requires 1 <= m <= 11 && |codes| > 0 && AcceptAll(m, codes).Some?
    ensures var n := |codes| - 1;
            && AcceptAll(m, codes[..n]) == Some(d) && c == codes[n] && w == WidthAt(m, n)
            && Accept(m, d, c) == AcceptAll(m, codes)
    ensures w > 0 && c < Pow2(w) && c != Pow2(m) + 1
    ensures WidthAt(m, |codes|) == ReadWidth(w, |AcceptAll(m, codes).value.table|)
  {
    var n := |codes| - 1;
    AcceptedSize(m, codes);
    WidthFits(m, n);
    SameWidths(m, n);
    d, c, w := AcceptAll(m, codes[..n]).value, codes[n], WidthAt(m, n);
  }

  /** Reading the data codes takes a reader from the start to the decoder that accepted them all. */
  lemma {:induction false} ReadsCodes(m: nat, codes: seq<nat>, tail: seq<bool>, r: Option<seq<nat>>)
    requires 1 <= m <= 11 && AcceptAll(m, codes).Some? && WidthAt(m, |codes|) > 0
    requires ReadToEnd(m, Reader(AcceptAll(m, codes).value, WidthAt(m, |codes|), tail)) == r
    ensures ReadToEnd(m, Reader(Start(m), m + 1, CodeBits(m, codes) + tail)) == r
  {
    if |codes| == 0 {
      assert CodeBits(m, codes) + tail == tail;
    } else {
      var tail' := ReadsLast(m, codes, tail, r);
      ReadsCodes(m, codes[..|codes| - 1], tail', r);
    }
  }

  /** The last data code goes back to the front of the tail. */
  lemma ReadsLast(m: nat, codes: seq<nat>, tail: seq<bool>, r: Option<seq<nat>>) returns (tail': seq<bool>)
    requires 1 <= m <= 11 && |codes| > 0 && AcceptAll(m, codes).Some? && WidthAt(m, |codes|) > 0
    requires ReadToEnd(m, Reader(AcceptAll(m, codes).value, WidthAt(m, |codes|), tail)) == r
    ensures var n := |codes| - 1;
            && AcceptAll(m, codes[..n]).Some? && WidthAt(m, n) > 0
            && ReadToEnd(m, Reader(AcceptAll(m, codes[..n]).value, WidthAt(m, n), tail')) == r
            && CodeBits(m, codes) + tail == CodeBits(m, codes[..n]) + tail'
  {
    var d, c, w := LastAccepted(m, codes);
    ReadsOne(m, d, c, w, tail, AcceptAll(m, codes).value, WidthAt(m, |codes|), r);
    tail' := BitsOf(c, w) + tail;
    Associate(CodeBits(m, codes[..|codes| - 1]), BitsOf(c, w), tail);
  }

  lemma ReadsOne(m: nat, d: Decoder, c: nat, w: nat, tail: seq<bool>, next: Decoder, w': nat, r: Option<seq<nat>>)
    requires w > 0 && c < Pow2(w) && c != Pow2(m) + 1 && Accept(m, d, c) == Some(next)
             && 0 < w' == ReadWidth(w, |next.table|)
    requires ReadToEnd(m, Reader(next, w', tail)) == r
    ensures ReadToEnd(m, Reader(d, w, BitsOf(c, w) + tail)) == r
  {
    var rest := BitsOf(c, w) + tail;
    assert rest[..w] == BitsOf(c, w) && rest[w..] == tail;
    FromBitsOf(c, w);
  }

  lemma ReadsEndAt(m: nat, d: Decoder, w: nat, rest: seq<bool>)
    requires w > 0 && w <= |rest| && FromBits(rest[..w]) == Pow2(m) + 1
    ensures ReadToEnd(m, Reader(d, w, rest)) == Some(d.out)
  {
  }

  lemma ZeroBit(e: nat, w: nat, pad: nat)
    requires e < Pow2(w) && pad > 0
    ensures (BitsOf(e, w) + BitsOf(0, pad))[..w + 1] == BitsOf(e, w + 1)
  {
    PadByte(e, w, 1);
    assert BitsOf(0, pad)[..1] == BitsOf(0, 1);
  }

  lemma EndBits(e: nat, w: nat, w': nat, pad: nat)
    requires e < Pow2(w) && w <= w' <= w + 1 && (w' == w || pad > 0)
    ensures FromBits((BitsOf(e, w) + BitsOf(0, pad))[..w']) == e
  {
    var rest := BitsOf(e, w) + BitsOf(0, pad);
    if w' == w {
      assert rest[..w] == BitsOf(e, w);
    } else {
      ZeroBit(e, w, pad);
    }
    FromBitsOf(e, w');
  }

  /** The end code is written at the width of the last data code, before the table could widen it. */
  lemma ReadsEnd(m: nat, d: Decoder, e: nat, w: nat, w': nat, pad: nat)
    requires e == Pow2(m) + 1 && w > 0 && e < Pow2(w) && w <= w' <= w + 1
    ensures ReadToEnd(m, Reader(d, w', BitsOf(e, w) + BitsOf(0, pad)))
         == if w' == w || pad > 0 then Some(d.out) else None
  {
    if w' == w || pad > 0 {
      EndBits(e, w, w', pad);
      ReadsEndAt(m, d, w', BitsOf(e, w) + BitsOf(0, pad));
    }
  }

  /** The number of bits before padding: clear code, n data codes, end code. */
  function StreamLength(m: nat, n: nat): nat
    requires n > 0
  {
    m + 1 + WidthSum(m, n) + WidthAt(m, n - 1)
  }

  function WidthSum(m: nat, n: nat): nat {
    if n == 0 then 0 else WidthSum(m, n - 1) + WidthAt(m, n - 1)
  }

  lemma {:induction false} CodeBitsLength(m: nat, codes: seq<nat>)
    ensures |CodeBits(m, codes)| == WidthSum(m, |codes|)
  {
    if |codes| > 0 {
      CodeBitsLength(m, codes[..|codes| - 1]);
    }
  }

  /** Three pieces of bits and zero padding to a whole byte. */
  ghost predicate IsFramed(clear: seq<bool>, middle: seq<bool>, ends: seq<bool>, bytes: seq<nat>) {
    exists pad: nat {:trigger BitsOf(0, pad)} :: pad < 8 && BytesToBits(bytes) == clear + middle + ends + BitsOf(0, pad)
  }

  /** The bytes of a raster, as bits: clear code, data codes, end code, padding. */
  ghost predicate IsRaster(m: nat, codes: seq<nat>, bytes: seq<nat>) {
    |codes| > 0
    && IsFramed(BitsOf(Pow2(m), m + 1), CodeBits(m, codes), BitsOf(Pow2(m) + 1, WidthAt(m, |codes| - 1)), bytes)
  }

  /** When the reader meets the end code: unless the width has just grown and no padding follows. */
  predicate EndReadable(m: nat, n: nat)
    requires n > 0
  {
    WidthAt(m, n) == WidthAt(m, n - 1) || StreamLength(m, n) % 8 != 0
  }

  lemma PaddingNeeded(n: nat, pad: nat, bytes: nat)
    requires n + pad == 8 * bytes && pad < 8
    ensures pad > 0 <==> n % 8 != 0
  {
  }

  lemma DecodeAfterClear(m: nat, bytes: seq<nat>, more: seq<bool>)
    requires BytesToBits(bytes) == BitsOf(Pow2(m), m + 1) + more
    ensures Decode(m, bytes) == ReadToEnd(m, Reader(Start(m), m + 1, more))
  {
    var bits := BytesToBits(bytes);
    assert bits[..m + 1] == BitsOf(Pow2(m), m + 1);
    assert bits[m + 1..] == more;
    FromBitsOf(Pow2(m), m + 1);
  }

  lemma WidthStep(m: nat, j: nat)
    requires j > 0
    ensures WidthAt(m, j - 1) <= WidthAt(m, j) <= WidthAt(m, j - 1) + 1
  {
  }

  /** Past the clear code: the data codes, then the end code and the padding. */
  lemma RasterReads(m: nat, data: seq<nat>, codes: seq<nat>, w: nat, w': nat, pad: nat, tail: seq<bool>,
                    r: Option<seq<nat>>)
    requires 1 <= m <= 11 && |data| > 0 && Pixels(m, data) && codes == Compress(m, data)
    requires w == WidthAt(m, |codes| - 1) && w' == WidthAt(m, |codes|)
             && tail == BitsOf(Pow2(m) + 1, w) + BitsOf(0, pad)
    requires r == if w' == w || pad > 0 then Some(data) else None
    ensures ReadToEnd(m, Reader(Start(m), m + 1, CodeBits(m, codes) + tail)) == r
  {
    CodesDecode(m, data);
    EndReads(m, |codes|, AcceptAll(m, codes).value, w, w', pad, tail, r);
    ReadsCodes(m, codes, tail, r);
  }

  lemma EndReads(m: nat, n: nat, d: Decoder, w: nat, w': nat, pad: nat, tail: seq<bool>, r: Option<seq<nat>>)
    requires 1 <= m <= 11 && n > 0 && w == WidthAt(m, n - 1) && w' == WidthAt(m, n)
             && tail == BitsOf(Pow2(m) + 1, w) + BitsOf(0, pad)
    requires r == if w' == w || pad > 0 then Some(d.out) else None
    ensures w' > 0 && ReadToEnd(m, Reader(d, w', tail)) == r
  {
    EndWidths(m, n);
    ReadsEnd(m, d, Pow2(m) + 1, w, w', pad);
  }

  lemma EndWidths(m: nat, n: nat)
    requires 1 <= m <= 11 && n > 0
    ensures var w := WidthAt(m, n - 1); 0 < w <= WidthAt(m, n) <= w + 1 && Pow2(m) + 1 < Pow2(w)
  {
    WidthFits(m, n - 1);
    EndFits(m, WidthAt(m, n - 1));
    WidthStep(m, n);
  }

  lemma FourLengths<T>(all: seq<T>, a: seq<T>, b: seq<T>, c: seq<T>, d: seq<T>)
    requires all == a + b + c + d
    ensures |all| == |a| + |b| + |c| + |d|
  {
  }

  lemma FramedDecodes(m: nat, data: seq<nat>, codes: seq<nat>, clear: seq<bool>, ends: seq<bool>, bytes: seq<nat>,
                      pad: nat)
    requires 1 <= m <= 11 && |data| > 0 && Pixels(m, data) && codes == Compress(m, data) && pad < 8
    requires clear == BitsOf(Pow2(m), m + 1) && ends == BitsOf(Pow2(m) + 1, WidthAt(m, |codes| - 1))
    requires BytesToBits(bytes) == clear + CodeBits(m, codes) + ends + BitsOf(0, pad)
    ensures Decode(m, bytes) == if WidthAt(m, |codes|) == WidthAt(m, |codes| - 1) || pad > 0 then Some(data) else None
  {
    Reassociate(clear, CodeBits(m, codes), ends, BitsOf(0, pad));
    var w, w', tail := WidthAt(m, |codes| - 1), WidthAt(m, |codes|), ends + BitsOf(0, pad);
    RasterReads(m, data, codes, w, w', pad, tail, if w' == w || pad > 0 then Some(data) else None);
    DecodeAfterClear(m, bytes, CodeBits(m, codes) + tail);
  }

  /** A raster decodes to its pixels exactly when its end code is readable; otherwise it decodes to nothing. */
  lemma RasterDecodes(m: nat, data: seq<nat>, bytes: seq<nat>)
    requires 1 <= m <= 11 && |data| > 0 && Pixels(m, data) && IsRaster(m, Compress(m, data), bytes)
    ensures Decode(m, bytes) == if EndReadable(m, |Compress(m, data)|) then Some(data) else None
  {
    var codes := Compress(m, data);
    var clear, ends := BitsOf(Pow2(m), m + 1), BitsOf(Pow2(m) + 1, WidthAt(m, |codes| - 1));
    var pad: nat :| pad < 8 && BytesToBits(bytes) == clear + CodeBits(m, codes) + ends + BitsOf(0, pad);
    RasterPadding(m, codes, clear, ends, bytes, pad);
    FramedDecodes(m, data, codes, clear, ends, bytes, pad);
  }

  lemma RasterPadding(m: nat, codes: seq<nat>, clear: seq<bool>, ends: seq<bool>, bytes: seq<nat>, pad: nat)
    requires |codes| > 0 && pad < 8 && |clear| == m + 1 && |ends| == WidthAt(m, |codes| - 1)
    requires BytesToBits(bytes) == clear + CodeBits(m, codes) + ends + BitsOf(0, pad)
    ensures pad > 0 <==> StreamLength(m, |codes|) % 8 != 0
  {
    CodeBitsLength(m, codes);
    FourLengths(BytesToBits(bytes), clear, CodeBits(m, codes), ends, BitsOf(0, pad));
    PaddingNeeded(StreamLength(m, |codes|), pad, |bytes|);
  }

  lemma Reassociate<T>(a: seq<T>, b: seq<T>, c: seq<T>, d: seq<T>)
    ensures a + b + c + d == a + (b + (c + d))
  {
  }

  lemma EndFits(m: nat, w: nat)
    requires 1 <= m && m + 1 <= w
    ensures Pow2(m) + 1 < Pow2(w)
  {
    Pow2Monotone(1, m);
    Pow2Monotone(m + 1, w);
  }

  // ---------- the compressor itself ----------

  ghost predicate Synced(m: nat, data: seq<nat>, table: LzwTable, bitOut: BitOutputStream, width: nat, s: Word)
    requires |data| > 0
    reads table, bitOut
  {
    var k := FeedAll(m, data);
    && table.Valid() && bitOut.Valid()
    && table.words == k.table && s == k.s && width == WidthAt(m, |k.codes|)
    && bitOut.Bits() == BitsOf(Pow2(m), m + 1) + CodeBits(m, k.codes)
  }

  /** The index the table holds for the pending word is the code to send, and it fits the width. */
  lemma PendingCode(m: nat, data: seq<nat>, i: nat)
    requires 1 <= m <= 11 && |data| > 0 && Pixels(m, data)
    requires var k := FeedAll(m, data); i < |k.table| && k.table[i] == k.s
    ensures var k := FeedAll(m, data);
            && i == Index(k.table, k.s) && |k.table| == SizeAt(m, |k.codes|)
            && i < Pow2(WidthAt(m, |k.codes|)) && m + 1 <= WidthAt(m, |k.codes|) <= 12
            && CodeBits(m, k.codes + [i]) == CodeBits(m, k.codes) + BitsOf(i, WidthAt(m, |k.codes|))
  {
    InStepAll(m, data);
    var k := FeedAll(m, data);
    WidthFits(m, |k.codes|);
    assert (k.codes + [i])[..|k.codes|] == k.codes;
  }

  lemma PendingKnown(m: nat, data: seq<nat>)
    requires 1 <= m <= 11 && |data| > 0 && Pixels(m, data)
    ensures FeedAll(m, data).s in FeedAll(m, data).table
  {
    InStepAll(m, data);
  }

  lemma PendingBits(m: nat, data: seq<nat>, i: nat, bits: seq<bool>)
    requires 1 <= m <= 11 && |data| > 0 && Pixels(m, data)
    requires var k := FeedAll(m, data); i < |k.table| && k.table[i] == k.s
    requires bits == BitsOf(Pow2(m), m + 1) + CodeBits(m, FeedAll(m, data).codes)
    ensures var w := WidthAt(m, |FeedAll(m, data).codes|);
            && w <= 12 && i < Pow2(w)
            && bits + BitsOf(i, w) == BitsOf(Pow2(m), m + 1) + CodeBits(m, Compress(m, data))
  {
    PendingCode(m, data, i);
    var k := FeedAll(m, data);
    Associate(BitsOf(Pow2(m), m + 1), CodeBits(m, k.codes), BitsOf(i, WidthAt(m, |k.codes|)));
  }

  /** Writes the code of the pending word. */
  method WritePending(m: nat, ghost data: seq<nat>, table: LzwTable, bitOut: BitOutputStream, width: nat, s: Word)
    requires 1 <= m <= 11 && |data| > 0 && Pixels(m, data) && Synced(m, data, table, bitOut, width, s)
    modifies bitOut
    ensures bitOut.Valid()
    ensures bitOut.Bits() == BitsOf(Pow2(m), m + 1) + CodeBits(m, Compress(m, data))
  {
    PendingKnown(m, data);
    var i := table.IndexOf(s);
    PendingBits(m, data, i, bitOut.Bits());
    var ok := bitOut.Write(i, width);
    assert ok;
  }

  /** One turn of the main loop. */
  method FeedPixel(m: nat, ghost data: seq<nat>, table: LzwTable, bitOut: BitOutputStream, width: nat, s: Word, c: nat)
    returns (width': nat, s': Word)
    requires 1 <= m <= 11 && |data| > 0 && Pixels(m, data) && Synced(m, data, table, bitOut, width, s)
    modifies table, bitOut
    ensures Synced(m, data + [c], table, bitOut, width', s')
  {
    FeedNext(m, data, c);
    if table.Contains(s + [c]) {
      return width, s + [c];
    }
    WritePending(m, data, table, bitOut, width, s);
    NextWidth(m, data);
    width' := Grow(table, width, s + [c]);
    s' := [c];
  }

  lemma FeedNext(m: nat, data: seq<nat>, c: nat)
    requires |data| > 0
    ensures FeedAll(m, data + [c]) == Feed(FeedAll(m, data), c)
  {
    assert (data + [c])[..|data|] == data;
  }

  /** The width the writer keeps is that of the next code. */
  lemma NextWidth(m: nat, data: seq<nat>)
    requires 1 <= m <= 11 && |data| > 0 && Pixels(m, data)
    ensures var k := FeedAll(m, data);
            WidthAt(m, |Compress(m, data)|) == Widen(WidthAt(m, |k.codes|), |k.table|)
  {
    var k := FeedAll(m, data);
    PendingKnown(m, data);
    PendingCode(m, data, Index(k.table, k.s));
  }

  /** A new word enters the table while there is room, and the width grows when the codes so far have filled it. */
  method Grow(table: LzwTable, width: nat, word: Word) returns (width': nat)
    requires table.Valid() && word !in table.words
    modifies table
    ensures table.Valid() && width' == Widen(width, |old(table.words)|)
    ensures table.words == if |old(table.words)| < LIMIT then old(table.words) + [word] else old(table.words)
  {
    width' := width;
    if table.size < LIMIT {
      if table.size == Pow2(width) {
        width' := width + 1;
      }
      var ok := table.Add(word);
      assert ok;
    }
  }

  method InitTable(m: nat) returns (table: LzwTable)
    ensures fresh(table) && table.Valid() && table.words == InitialTable(m)
  {
    table := new LzwTable();
    var i := 0;
    while i < Pow2(m) + 2
      invariant i <= Pow2(m) + 2 && table.Valid()
      invariant table.words == InitialTable(m)[..i]
    {
      var ok := table.Add([i]);
      assert ok;
      i := i + 1;
    }
  }

  /** Writes a code that fits and pads the last byte. */
  method WriteLast(bitOut: BitOutputStream, code: nat, width: nat, ghost clear: seq<bool>, ghost middle: seq<bool>)
    requires bitOut.Valid() && code < Pow2(width) && width <= 16 && bitOut.Bits() == clear + middle
    modifies bitOut
    ensures IsFramed(clear, middle, BitsOf(code, width), bitOut.out)
  {
    var ok := bitOut.Write(code, width);
    assert ok;
    ghost var pad := if bitOut.bitLength > 0 then 8 - bitOut.bitLength else 0;
    bitOut.Flush();
    FramedBy(clear, middle, BitsOf(code, width), bitOut.out, pad);
  }

  lemma FramedBy(clear: seq<bool>, middle: seq<bool>, ends: seq<bool>, bytes: seq<nat>, pad: nat)
    requires pad < 8 && BytesToBits(bytes) == clear + middle + ends + BitsOf(0, pad)
    ensures IsFramed(clear, middle, ends, bytes)
  {
  }

  method WriteEnd(m: nat, ghost codes: seq<nat>, bitOut: BitOutputStream, width: nat) returns (raster: seq<nat>)
    requires 1 <= m <= 11 && bitOut.Valid() && |codes| > 0 && width == WidthAt(m, |codes| - 1)
    requires bitOut.Bits() == BitsOf(Pow2(m), m + 1) + CodeBits(m, codes)
    modifies bitOut
    ensures IsRaster(m, codes, raster)
  {
    WidthFits(m, |codes| - 1);
    EndFits(m, width);
    WriteLast(bitOut, Pow2(m) + 1, width, BitsOf(Pow2(m), m + 1), CodeBits(m, codes));
    raster := bitOut.out;
  }

  method FeedRest(m: nat, data: seq<nat>, table: LzwTable, bitOut: BitOutputStream) returns (width: nat, s: Word)
    requires 1 <= m <= 11 && |data| > 0 && Pixels(m, data) && Synced(m, [data[0]], table, bitOut, m + 1, [data[0]])
    modifies table, bitOut
    ensures Synced(m, data, table, bitOut, width, s)
  {
    width, s := m + 1, [data[0]];
    var i := 1;
    assert data[..1] == [data[0]];
    while i < |data|
      invariant 1 <= i <= |data|
      invariant Synced(m, data[..i], table, bitOut, width, s)
    {
      width, s := FeedAt(m, data, i, table, bitOut, width, s);
      i := i + 1;
    }
    assert data[..i] == data;
  }

  method FeedAt(m: nat, data: seq<nat>, i: nat, table: LzwTable, bitOut: BitOutputStream, width: nat, s: Word)
    returns (width': nat, s': Word)
    requires 1 <= m <= 11 && 0 < i < |data| && Pixels(m, data) && Synced(m, data[..i], table, bitOut, width, s)
    modifies table, bitOut
    ensures Synced(m, data[..i + 1], table, bitOut, width', s')
  {
    assert data[..i] + [data[i]] == data[..i + 1];
    width', s' := FeedPixel(m, data[..i], table, bitOut, width, s, data[i]);
  }

  /** The table and the stream before the first pixel is compressed: the clear code is out. */
  method StartRaster(m: nat, first: nat) returns (table: LzwTable, bitOut: BitOutputStream)
    requires 1 <= m <= 11
    ensures fresh(table) && fresh(bitOut) && Synced(m, [first], table, bitOut, m + 1, [first])
  {
    table := InitTable(m);
    bitOut := new BitOutputStream();
    EndFits(m, m + 1);
    var ok := bitOut.Write(Pow2(m), m + 1);
    assert ok;
    assert CodeBits(m, []) == [];
  }

  /** After the last pixel: the pending code, then the end. */
  method FinishRaster(m: nat, ghost data: seq<nat>, table: LzwTable, bitOut: BitOutputStream, width: nat, s: Word)
    returns (raster: seq<nat>)
    requires 1 <= m <= 11 && |data| > 0 && Pixels(m, data) && Synced(m, data, table, bitOut, width, s)
    modifies bitOut
    ensures IsRaster(m, Compress(m, data), raster)
  {
    WritePending(m, data, table, bitOut, width, s);
    raster := WriteEnd(m, Compress(m, data), bitOut, width);
  }

  /** The raster of any picture: no write overflows, no key is added twice, and the bytes are the code stream. */
  method GetLZWRaster(m: nat, data: seq<nat>) returns (raster: seq<nat>)
    requires 1 <= m <= 11 && |data| > 0 && Pixels(m, data)
    ensures IsRaster(m, Compress(m, data), raster)
  {
    var table, bitOut := StartRaster(m, data[0]);
    var width, s := FeedRest(m, data, table, bitOut);
    raster := FinishRaster(m, data, table, bitOut, width, s);
  }

  // ---------- a raster that cannot be read back ----------

  ghost predicate FreshPairs(data: seq<nat>) {
    forall i, j :: 0 <= i < j < |data| - 1 ==> data[i] != data[j] || data[i + 1] != data[j + 1]
  }

  function Pairs(data: seq<nat>): seq<Word>
    requires |data| > 0
  {
    seq(|data| - 1, i requires 0 <= i < |data| - 1 => [data[i], data[i + 1]])
  }

  lemma PairsExtend(data: seq<nat>, n: nat)
    requires |data| == n + 1 && n > 0
    ensures Pairs(data) == Pairs(data[..n]) + [[data[n - 1], data[n]]]
  {
    forall i | 0 <= i < n
      ensures Pairs(data)[i] == (Pairs(data[..n]) + [[data[n - 1], data[n]]])[i]
    {
    }
  }

  lemma NewPair(m: nat, data: seq<nat>, n: nat)
    requires |data| == n + 1 && n > 0 && FreshPairs(data)
    ensures [data[n - 1], data[n]] !in InitialTable(m) + Pairs(data[..n])
  {
    var t := InitialTable(m) + Pairs(data[..n]);
    var p := [data[n - 1], data[n]];
    forall i | 0 <= i < |t|
      ensures t[i] != p
    {
      if i >= |InitialTable(m)| {
        var j := i - |InitialTable(m)|;
        assert t[i] == [data[j], data[j + 1]];
        assert t[i][0] != p[0] || t[i][1] != p[1];
      }
    }
  }

  /** The compressor after pixels that were all sent one by one. */
  function Literal(m: nat, data: seq<nat>): Compressor
    requires |data| > 0
  {
    Compressor(InitialTable(m) + Pairs(data), [data[|data| - 1]], data[..|data| - 1])
  }

  lemma FeedFresh(m: nat, data: seq<nat>, n: nat)
    requires |data| == n + 1 && n > 0 && data[n - 1] < Pow2(m) && Pow2(m) + 2 + n < LIMIT
    requires [data[n - 1], data[n]] !in InitialTable(m) + Pairs(data[..n])
    ensures Feed(Literal(m, data[..n]), data[n]) == Literal(m, data)
  {
    var k := Literal(m, data[..n]);
    PairsExtend(data, n);
    InitialIndex(m, Pairs(data[..n]), data[n - 1]);
    assert k.s + [data[n]] == [data[n - 1], data[n]];
    assert k.codes + [data[n - 1]] == data[..n];
    assert k.table + [[data[n - 1], data[n]]] == InitialTable(m) + Pairs(data);
  }

  /** Pixels whose neighbouring pairs never repeat are sent one by one. */
  lemma {:induction false} FreshPairsFeed(m: nat, data: seq<nat>, n: nat)
    requires 0 < n <= |data| && Pixels(m, data) && FreshPairs(data) && Pow2(m) + 2 + |data| < LIMIT
    ensures FeedAll(m, data[..n]) == Literal(m, data[..n])
  {
    if n == 1 {
      assert InitialTable(m) + Pairs(data[..1]) == InitialTable(m);
    } else {
      FreshPairsFeed(m, data, n - 1);
      NewPair(m, data[..n], n - 1);
      FeedFresh(m, data[..n], n - 1);
      assert data[..n][..n - 1] == data[..n - 1];
    }
  }

  lemma FreshPairsCodes(m: nat, data: seq<nat>)
    requires |data| > 0 && Pixels(m, data) && FreshPairs(data) && Pow2(m) + 2 + |data| < LIMIT
    ensures |Compress(m, data)| == |data|
  {
    FreshPairsFeed(m, data, |data|);
    assert data[..|data|] == data;
  }

  lemma InitialIndex(m: nat, more: seq<Word>, p: nat)
    requires p < Pow2(m)
    ensures Index(InitialTable(m) + more, [p]) == p
  {
    var t := InitialTable(m) + more;
    assert t[p] == [p];
    IndexFirst(t, [p], p);
  }

  lemma {:induction false} IndexFirst(t: seq<Word>, w: Word, p: nat)
    requires p < |t| && t[p] == w && forall i :: 0 <= i < p ==> t[i] != w
    ensures Index(t, w) == p
  {
    if p > 0 {
      IndexFirst(t[1..], w, p - 1);
    }
  }

  // ---------- two bits a pixel ----------

  // The number of bits is given as a successor, so that the recursive widths are reasoned about and not evaluated.

  lemma FirstWidths(m: nat, j: nat)
    requires m + 1 == 3 && 1 <= j <= 3
    ensures WidthAt(m, j - 1) == 3 && WidthAt(m, j) == (if j < 3 then 3 else 4) && WidthSum(m, j) == 3 * j
  {
    assert Pow2(2) == 4 && Pow2(3) == 8;
    if j > 1 {
      FirstWidths(m, j - 1);
    }
  }

  lemma {:induction false} Pow2Eighth(w: nat) returns (p: nat)
    requires w >= 3
    ensures Pow2(w) == 8 * p
  {
    if w == 3 {
      p := 1;
    } else {
      p := Pow2Eighth(w - 1);
      p := 2 * p;
    }
  }

  /** Data code j is w bits wide, behind 8 * q bits less than j + 5 such codes and one bit. */
  ghost predicate InBand(m: nat, j: nat, w: nat, q: int) {
    && 4 <= w <= 12 && WidthAt(m, j) == w
    && Pow2(w - 1) <= j + 5 && (w < 12 ==> j + 5 < Pow2(w))
    && WidthSum(m, j) == 1 + (j + 5) * w - 8 * q
  }

  lemma FirstBand(m: nat, j: nat) returns (q: int)
    requires m + 1 == 3 && j == 3
    ensures InBand(m, j, 4, q)
  {
    FirstWidths(m, j);
    assert Pow2(3) == 8 && Pow2(4) == 16;
    q := 3;
  }

  lemma OneMoreCode(x: nat, w: nat)
    ensures (x + 1) * w == x * w + w && x * (w + 1) == x * w + x
  {
  }

  /** The table size at two bits a pixel, and when the width grows. */
  lemma GrowthAt(m: nat, j: nat, w: nat)
    requires m + 1 == 3 && 4 <= w <= 12 && Pow2(w - 1) <= j + 5 && (w < 12 ==> j + 5 < Pow2(w))
    ensures Widen(w, SizeAt(m, j)) == if w < 12 && j + 6 == Pow2(w) then w + 1 else w
  {
    assert Pow2(2) == 4;
    Pow2Monotone(w, 12);
    assert Pow2(12) == 4096 && Pow2(11) == 2048;
    if w < 12 {
      Pow2Monotone(w, 11);
    }
  }

  lemma {:induction false} Band(m: nat, j: nat) returns (w: nat, q: int)
    requires m + 1 == 3 && j >= 3
    ensures InBand(m, j, w, q)
  {
    if j == 3 {
      w := 4;
      q := FirstBand(m, j);
    } else {
      w, q := Band(m, j - 1);
      w, q := NextBand(m, j - 1, w, q);
    }
  }

  lemma NextBand(m: nat, j: nat, w: nat, q: int) returns (w': nat, q': int)
    requires m + 1 == 3 && InBand(m, j, w, q)
    ensures InBand(m, j + 1, w', q') && (w' == w || (w' == w + 1 && j + 6 == Pow2(w)))
  {
    GrowthAt(m, j, w);
    OneMoreCode(j + 5, w);
    w', q' := w, q;
    if w < 12 && j + 6 == Pow2(w) {
      var p := Pow2Eighth(w);
      OneMoreCode(j + 6, w);
      w', q' := w + 1, q + p;
    }
  }

  /** A new width begins at a code count that leaves w + 4 bits over whole bytes. */
  lemma GrowthLength(m: nat, n: nat, w: nat, q: int)
    requires m + 1 == 3 && n > 0 && InBand(m, n, w + 1, q) && n + 5 == Pow2(w) && WidthAt(m, n - 1) == w && w >= 4
    ensures StreamLength(m, n) % 8 == (w + 4) % 8
  {
    var p := Pow2Eighth(w);
    Eightfold(n + 5, p, w + 1);
    assert StreamLength(m, n) == 3 + 1 + (n + 5) * (w + 1) - 8 * q + w;
    Remainder(StreamLength(m, n), w + 4, p * (w + 1) - q);
  }

  lemma Eightfold(x: nat, p: nat, w: nat)
    requires x == 8 * p
    ensures x * w == 8 * (p * w)
  {
  }

  lemma Remainder(x: nat, y: nat, t: int)
    requires x == y + 8 * t
    ensures x % 8 == y % 8
  {
  }

  /** At two bits a pixel the end code is lost behind eleven data codes, and behind no other number of them. */
  lemma TwoBitEnds(m: nat, n: nat)
    requires m + 1 == 3 && n > 0
    ensures EndReadable(m, n) <==> n != 11
  {
    if n <= 3 {
      FirstWidths(m, n);
    } else {
      var w, q := Band(m, n - 1);
      var w', q' := NextBand(m, n - 1, w, q);
      if w' != w {
        GrowthLength(m, n, w, q');
        WidthOfEleven(n, w);
      } else if n == 11 {
        WidthOfEleven(n, w);
      }
    }
  }

  lemma WidthOfEleven(n: nat, w: nat)
    requires 4 <= w <= 12
    ensures n + 5 == Pow2(w) ==> (n == 11 <==> w == 4)
    ensures n == 11 && Pow2(w - 1) <= n + 4 && (w < 12 ==> n + 4 < Pow2(w)) ==> w == 4 && n + 5 == Pow2(w)
  {
    assert Pow2(4) == 16;
    if w > 4 {
      Pow2Monotone(5, w);
      Pow2Monotone(4, w - 1);
      assert Pow2(5) == 32;
    }
  }

  /** The writer's own rasters: the pixels come back unless they compress to exactly eleven codes. */
  lemma TwoBitsDecode(m: nat, data: seq<nat>, bytes: seq<nat>)
    requires m == 2 && |data| > 0 && Pixels(m, data) && IsRaster(m, Compress(m, data), bytes)
    ensures Decode(m, bytes) == if |Compress(m, data)| == 11 then None else Some(data)
  {
    RasterDecodes(m, data, bytes);
    TwoBitEnds(m, |Compress(m, data)|);
  }

  /** The most pixels that n codes can stand for: each word is at most one longer than all before it. */
  function Reach(n: nat): nat {
    if n == 0 then 0 else Reach(n - 1) + n
  }

  ghost predicate WordsUpTo(t: seq<Word>, n: nat) {
    forall i :: 0 <= i < |t| ==> |t[i]| <= n
  }

  ghost predicate Reached(k: Compressor, pixels: nat) {
    var n := |k.codes|;
    && WordsUpTo(k.table, n + 1) && |k.s| <= n + 1
    && n + |k.s| <= pixels <= Reach(n) + |k.s|
  }

  lemma FeedReaches(k: Compressor, c: nat, pixels: nat)
    requires Reached(k, pixels) && |k.s| > 0
    ensures Reached(Feed(k, c), pixels + 1) && |Feed(k, c).s| > 0
  {
    var n := |k.codes|;
    assert Reach(n + 1) == Reach(n) + n + 1;
  }

  lemma {:induction false} AllReached(m: nat, data: seq<nat>)
    requires |data| > 0
    ensures Reached(FeedAll(m, data), |data|) && |FeedAll(m, data).s| > 0
  {
    if |data| > 1 {
      var n := |data| - 1;
      AllReached(m, data[..n]);
      FeedReaches(FeedAll(m, data[..n]), data[n], n);
    } else {
      assert Reach(0) == 0;
    }
  }

  /** Between one and ten pixels, and beyond 66 of them, no raster at two bits a pixel loses its end code. */
  lemma LargeRastersDecode(m: nat, data: seq<nat>, bytes: seq<nat>)
    requires m == 2 && Pixels(m, data) && (0 < |data| < 11 || |data| > 66)
    requires IsRaster(m, Compress(m, data), bytes)
    ensures Decode(m, bytes) == Some(data)
  {
    TwoBitsDecode(m, data, bytes);
    ElevenReach(m, data);
  }

  lemma ElevenReach(m: nat, data: seq<nat>)
    requires |data| > 0
    ensures |Compress(m, data)| == 11 ==> 11 <= |data| <= 66
  {
    AllReached(m, data);
    assert Reach(10) == 55;
  }

  /** Eleven pixels, no two neighbouring pairs alike. */
  ghost predicate LostPixels(data: seq<nat>) {
    data == [0, 0, 1, 0, 2, 0, 3, 1, 1, 2, 1]
  }

  lemma LostPixelsFresh(m: nat, data: seq<nat>)
    requires m == 2 && LostPixels(data)
    ensures FreshPairs(data) && Pixels(m, data)
  {
    assert Pow2(2) == 4;
  }

  lemma BitsCut(v: nat, i: nat, j: nat, low: nat, high: nat)
    requires v == low + high * Pow2(i) && low < Pow2(i)
    ensures BitsOf(v, i + j) == BitsOf(low, i) + BitsOf(high, j)
  {
    OrAdds(low, high, i);
    BitsJoin(low, high, i, j);
  }

  lemma TwoBytes(a: nat, b: nat, k: nat)
    requires k == 8
    ensures BytesToBits([a, b]) == BitsOf(a, k) + BitsOf(b, k)
  {
    AppendByte([], a);
    AppendByte([a], b);
    assert [] + [a] == [a] && [a] + [b] == [a, b] && BytesToBits([]) + BitsOf(a, 8) == BitsOf(a, 8);
  }

  lemma WordBits(a: nat, b: nat, k: nat, p: nat, n: nat)
    requires k == 8 && n == k + k && p == Pow2(k) && a < p
    ensures BytesToBits([a, b]) == BitsOf(a + b * p, n)
  {
    TwoBytes(a, b, k);
    BitsCut(a + b * p, k, k, a, b);
  }

  /** Two bytes hold three codes of k bits, the lowest bits first, and padding. */
  lemma PackedBits(a: nat, b: nat, c: nat, d: nat, e: nat, k: nat, pad: nat, n: nat)
    requires Pow2(k) == 8 && k + k + k + pad == n == 16
    requires a < 256 && c < 8 && d < 8 && e < 8 && a + b * 256 == c + d * 8 + e * 64
    ensures BytesToBits([a, b]) == BitsOf(c, k) + BitsOf(d, k) + BitsOf(e, k) + BitsOf(0, pad)
  {
    assert Pow2(8) == 256;
    WordBits(a, b, 8, 256, n);
    CodesCut(c, d, e, k, pad);
  }

  lemma CodesCut(c: nat, d: nat, e: nat, k: nat, pad: nat)
    requires Pow2(k) == 8 && c < 8 && d < 8 && e < 8
    ensures BitsOf(c + d * 8 + e * 64, k + k + k + pad) == BitsOf(c, k) + BitsOf(d, k) + BitsOf(e, k) + BitsOf(0, pad)
  {
    BitsCut(c + d * 8 + e * 64, k, k + k + pad, c, d + e * 8);
    BitsCut(d + e * 8, k, k + pad, d, e);
    BitsCut(e, k, pad, e, 0);
    ThreeJoined(BitsOf(c, k), BitsOf(d, k), BitsOf(e, k), BitsOf(0, pad));
  }

  lemma ThreeJoined(a: seq<bool>, b: seq<bool>, c: seq<bool>, d: seq<bool>)
    ensures a + (b + (c + d)) == a + b + c + d
  {
  }

  /** The one code of a single pixel. */
  lemma OneCode(m: nat, data: seq<nat>)
    requires m == 2 && data == [0]
    ensures Compress(m, data) == [0] && CodeBits(m, [0]) == BitsOf(0, m + 1)
  {
    InitialIndex(m, [], 0);
    assert InitialTable(m) + [] == InitialTable(m);
    assert [0][..0] == [] && CodeBits(m, []) == [];
  }

  /** A single pixel: clear code, pixel and end code in three bits each. */
  lemma OnePixel(m: nat, data: seq<nat>, bytes: seq<nat>)
    requires m == 2 && data == [0] && bytes == [0x44, 0x01]
    ensures IsRaster(m, Compress(m, data), bytes)
  {
    OneCode(m, data);
    assert Pow2(m) == 4 && Pow2(m + 1) == 8;
    OnePixelBits(m, 4, 0, 5, 7, bytes);
  }

  lemma OnePixelBits(m: nat, clear: nat, pixel: nat, end: nat, pad: nat, bytes: seq<nat>)
    requires m == 2 && clear == 4 && pixel == 0 && end == 5 && pad == 7 && bytes == [0x44, 0x01] && Pow2(m + 1) == 8
    ensures IsFramed(BitsOf(clear, m + 1), BitsOf(pixel, m + 1), BitsOf(end, m + 1), bytes)
  {
    PackedBits(0x44, 0x01, clear, pixel, end, m + 1, pad, 16);
  }

  /** Eleven data codes at two bits a pixel fill whole bytes just as the width grows: no end code is left. */
  lemma EndCodeLost(m: nat, data: seq<nat>, bytes: seq<nat>)
    requires m == 2 && LostPixels(data) && IsRaster(m, Compress(m, data), bytes)
    ensures Pixels(m, data) && Decode(m, bytes) == None
  {
    LostPixelsFresh(m, data);
    assert Pow2(2) == 4;
    FreshPairsCodes(m, data);
    TwoBitsDecode(m, data, bytes);
  }
}

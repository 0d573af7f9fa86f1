/** The encoder as it runs: fields written into a byte buffer one after the other. */
module ProtoEncoder {
  import opened Common
  import opened Wire
  import opened Proto
  import opened ByteBuffers

  /** Every number that the writer is given fits what it writes. */
  lemma TagFits(id: nat, wireType: nat)
    requires id < 0x2000_0000 && wireType < 8
    ensures Tag(id, wireType) < W32
  {
  }

  method WriteNumber(buffer: ByteBuffer, k: Kind, n: int)
    requires buffer.Valid() && (k.SInt64? ==> -W63 <= n < W63)
    modifies buffer, buffer.view
    ensures buffer.Valid() && buffer.Written() == old(buffer.Written()) + EncodeNumber(k, n)
    ensures buffer.view == old(buffer.view) || fresh(buffer.view)
  {
    match k
    case Int32 => if n < 0 { buffer.WriteVarint64(n % W64); } else { buffer.WriteVarint32(n % W32); }
    case SInt32 =>
      ZigZagEncodes(Signed32(n));
      buffer.WriteVarint32(ZigZagEncode32(Signed32(n)));
    case Fixed32 => buffer.WriteFixed(n % W32, Width(k));
    case SFixed32 => buffer.WriteFixed(n % W32, Width(k));
    case Int64 => buffer.WriteVarint64(n % W64);
    case UInt64 => buffer.WriteVarint64(n % W64);
    case SInt64 =>
      ZigZagEncodes(n);
      buffer.WriteVarint64(ZigZagEncode64(n));
    case Fixed64 => buffer.WriteFixed(n % W64, Width(k));
    case SFixed64 => buffer.WriteFixed(n % W64, Width(k));
    case _ => buffer.WriteVarint32(n % W32);
  }

  /** A length and that many bytes. */
  method WriteDelimited(buffer: ByteBuffer, w: seq<byte>)
    requires buffer.Valid() && |w| < W31
    modifies buffer, buffer.view
    ensures buffer.Valid() && buffer.Written() == old(buffer.Written()) + Delimited(w)
    ensures buffer.view == old(buffer.view) || fresh(buffer.view)
  {
    buffer.WriteVarint32(|w|);
    buffer.WriteBytes(w);
  }

  method WriteScalar(buffer: ByteBuffer, k: Kind, v: Value)
    requires buffer.Valid() && GoodScalar(k, v) && |EncodeScalar(k, v)| < W31
    modifies buffer, buffer.view
    ensures buffer.Valid() && buffer.Written() == old(buffer.Written()) + EncodeScalar(k, v)
    ensures buffer.view == old(buffer.view) || fresh(buffer.view)
  {
    match v
    case Num(n) => WriteNumber(buffer, k, n);
    case Flag(b) => buffer.WriteVarint32(if b then 1 else 0);
    case Text(us) => var ok := buffer.WriteVString(us);
    case Data(w) => WriteDelimited(buffer, w);
    case Sub(_) =>
  }

  // ---------- packed fields ----------

  /**
    The last step of a packed field. One byte was left for the length in front of the contents; a longer
    length moves them up through a slice of the same bytes, which a resize may have left behind.
   */
  method CloseLength(buffer: ByteBuffer, start: nat, ghost head: seq<byte>, ghost contents: seq<byte>)
    requires buffer.Valid() && 0 < start <= buffer.offset && buffer.offset - start < W31
    requires head == buffer.view[..start - 1] && contents == buffer.view[start..buffer.offset]
    modifies buffer, buffer.view
    ensures buffer.Valid() && buffer.Written() == head + Delimited(contents)
    ensures buffer.view == old(buffer.view) || fresh(buffer.view)
  {
    var len := buffer.offset - start;
    var varintLen := CalculateVarint32(len);
    CalculateVarint32Exact(len);
    if varintLen > 1 {
      MoveUp(buffer, start, start + varintLen - 1);
    }
    StoreLength(buffer, start - 1, len, head, contents);
  }

  /** The length into the room in front of the contents. */
  method StoreLength(buffer: ByteBuffer, at: nat, len: nat, ghost head: seq<byte>, ghost contents: seq<byte>)
    requires buffer.Valid() && len == |contents| && at + |Varint(len)| + len == buffer.offset
    requires buffer.view[..at] == head && buffer.view[at + |Varint(len)|..buffer.offset] == contents
    modifies buffer.view
    ensures buffer.Written() == head + Delimited(contents)
  {
    var n := buffer.offset - len;
    buffer.StoreVarint(len, at);
    assert buffer.view[..at] == head;
    assert buffer.view[n..buffer.offset] == contents;
    Pieces(buffer.view[..buffer.offset], at, n, head, Varint(len), contents);
  }

  lemma Pieces(w: seq<byte>, i: nat, j: nat, a: seq<byte>, b: seq<byte>, c: seq<byte>)
    requires i <= j <= |w| && w[..i] == a && w[i..j] == b && w[j..] == c
    ensures w == a + (b + c)
  {
  }

  /** The contents move from `start` to `to`; what stands before `start` is untouched. */
  method MoveUp(buffer: ByteBuffer, start: nat, to: nat)
    requires buffer.Valid() && start < to <= buffer.offset + 5 && start <= buffer.offset && to <= buffer.view.Length
    modifies buffer, buffer.view
    ensures buffer.Valid() && buffer.offset == to + (old(buffer.offset) - start)
    ensures buffer.view[..start] == old(buffer.view[..start])
    ensures buffer.view[to..buffer.offset] == old(buffer.view[start..buffer.offset])
    ensures buffer.view == old(buffer.view) || fresh(buffer.view)
  {
    var contents := new ByteBuffer.Share(buffer, start, buffer.offset);
    buffer.offset := to;
    buffer.Append(contents);
  }

  // ---------- messages ----------

  /** As verifyValue leaves it: only required fields may still be missing. */
  ghost predicate LooseValue(S: Schema, k: Kind, v: Value)
    decreases v
  {
    if IsScalar(k) then GoodScalar(k, v) else k.t in S && v.Sub? && LooseSlots(S, k.t, v.slots)
  }

  ghost predicate LooseSlots(S: Schema, t: nat, slots: seq<Slot>)
    requires t in S
    decreases slots
  {
    |slots| == |S[t].fields| && forall i :: 0 <= i < |slots| ==> LooseSlot(S, S[t].fields[i], slots[i])
  }

  ghost predicate LooseSlot(S: Schema, f: Field, slot: Slot)
    decreases slot
  {
    match f.rule
    case Required => slot.Absent? || (slot.One? && LooseValue(S, f.kind, slot.v))
    case Optional => slot.Absent? || (slot.One? && LooseValue(S, f.kind, slot.v))
    case MapOf(key) =>
      slot.Pairs? && forall i :: 0 <= i < |slot.kvs| ==>
        GoodScalar(key, slot.kvs[i].key) && LooseValue(S, f.kind, slot.kvs[i].value)
    case _ => slot.Many? && forall i :: 0 <= i < |slot.vs| ==> LooseValue(S, f.kind, slot.vs[i])
  }

  /** False where a required field is missing, at any depth. */
  method WriteValue(buffer: ByteBuffer, S: Schema, k: Kind, id: nat, v: Value) returns (ok: bool)
    requires buffer.Valid() && GoodSchema(S) && LooseValue(S, k, v) && id < 0x2000_0000
             && |EncodeValue(S, k, id, v)| < W31
    modifies buffer, buffer.view
    ensures buffer.Valid() && (buffer.view == old(buffer.view) || fresh(buffer.view))
    ensures ok <==> GoodValue(S, k, v)
    ensures ok ==> buffer.Written() == old(buffer.Written()) + EncodeValue(S, k, id, v)
    decreases v, 1
  {
    if IsScalar(k) {
      WriteScalar(buffer, k, v);
      return true;
    }
    if k.Msg? {
      ok := WriteSubmessage(buffer, S, k.t, v.slots);
    } else {
      ok := WriteSlots(buffer, S, k.t, v.slots);
      if ok {
        TagFits(id, ENDGROUP);
        ghost var w := buffer.Written();
        buffer.WriteVarint32(Tag(id, ENDGROUP));
      }
    }
  }

  /** An embedded message goes through a buffer of its own. */
  method WriteSubmessage(buffer: ByteBuffer, S: Schema, t: nat, slots: seq<Slot>) returns (ok: bool)
    requires buffer.Valid() && GoodSchema(S) && t in S && LooseSlots(S, t, slots) && |EncodeSlots(S, t, slots, 0)| < W31
    modifies buffer, buffer.view
    ensures buffer.Valid() && (buffer.view == old(buffer.view) || fresh(buffer.view))
    ensures ok <==> GoodSlots(S, t, slots)
    ensures ok ==> buffer.Written() == old(buffer.Written()) + Delimited(EncodeSlots(S, t, slots, 0))
    decreases slots, |slots| + 1
  {
    var bb := new ByteBuffer(16);
    ok := WriteSlots(bb, S, t, slots);
    if ok {
      assert bb.Written() == EncodeSlots(S, t, slots, 0);
      AppendDelimited(buffer, bb);
    }
  }

  /** The length of what another buffer holds, then its bytes. */
  method AppendDelimited(buffer: ByteBuffer, bb: ByteBuffer)
    requires buffer.Valid() && bb.Valid() && bb != buffer && bb.view != buffer.view && bb.offset < W31
    modifies buffer, buffer.view, bb
    ensures buffer.Valid() && (buffer.view == old(buffer.view) || fresh(buffer.view))
    ensures buffer.Written() == old(buffer.Written()) + Delimited(old(bb.Written()))
  {
    buffer.WriteVarint32(bb.offset);
    bb.Flip();
    assert bb.view[bb.offset..bb.limit] == old(bb.Written());
    buffer.Append(bb);
    Associate(old(buffer.Written()), Varint(|old(bb.Written())|), old(bb.Written()));
  }

  /**
    Message.encode: every field in turn, then an error if a required one was missing; a null it may not hold
    is an error at once.
   */
  method WriteSlots(buffer: ByteBuffer, S: Schema, t: nat, slots: seq<Slot>) returns (ok: bool)
    requires buffer.Valid() && GoodSchema(S) && t in S && LooseSlots(S, t, slots) && |EncodeSlots(S, t, slots, 0)| < W31
    modifies buffer, buffer.view
    ensures buffer.Valid() && (buffer.view == old(buffer.view) || fresh(buffer.view))
    ensures ok <==> GoodSlots(S, t, slots)
    ensures ok ==> buffer.Written() == old(buffer.Written()) + EncodeSlots(S, t, slots, 0)
    decreases slots, |slots|
  {
    ghost var all := old(buffer.Written()) + EncodeSlots(S, t, slots, 0);
    var missing := false;
    var i := 0;
    while i < |slots|
      invariant i <= |slots| && buffer.Valid() && (buffer.view == old(buffer.view) || fresh(buffer.view))
      invariant !missing <==> SlotsGoodUpTo(S, t, slots, i)
      invariant !missing ==> SlotsOwe(S, t, slots, i, buffer.Written(), all)
      invariant |EncodeSlots(S, t, slots, i)| < W31
    {
      var f := S[t].fields[i];
      if f.rule.Required? && slots[i].Absent? {
        missing := true;
      } else {
        ok := WriteSlot(buffer, S, t, slots, i, missing, all);
        if !ok {
          SlotNotGood(S, t, slots, i, |slots|);
          return;
        }
      }
      i := i + 1;
    }
    ok := !missing;
    SlotsAllGood(S, t, slots);
    assert buffer.Written() + [] == buffer.Written();
  }

  ghost predicate SlotGood(S: Schema, t: nat, slots: seq<Slot>, i: nat)
    requires t in S && i < |slots| == |S[t].fields|
  {
    GoodSlot(S, S[t].fields[i], slots[i]) && !IsNull(S[t].fields[i], S[t].proto3, slots[i])
  }

  ghost predicate SlotsGoodUpTo(S: Schema, t: nat, slots: seq<Slot>, i: nat)
    requires t in S && i <= |slots| == |S[t].fields|
    decreases i
  {
    i == 0 || (SlotsGoodUpTo(S, t, slots, i - 1) && SlotGood(S, t, slots, i - 1))
  }

  lemma {:induction false} SlotsGood(S: Schema, t: nat, slots: seq<Slot>, i: nat)
    requires t in S && i <= |slots| == |S[t].fields|
    ensures SlotsGoodUpTo(S, t, slots, i) <==> forall j :: 0 <= j < i ==> SlotGood(S, t, slots, j)
    decreases i
  {
    if i > 0 {
      SlotsGood(S, t, slots, i - 1);
    }
  }

  lemma SlotsAllGood(S: Schema, t: nat, slots: seq<Slot>)
    requires t in S && |slots| == |S[t].fields|
    ensures SlotsGoodUpTo(S, t, slots, |slots|) <==> GoodSlots(S, t, slots)
  {
    SlotsGood(S, t, slots, |slots|);
    if SlotsGoodUpTo(S, t, slots, |slots|) {
      forall i | 0 <= i < |slots|
        ensures GoodSlot(S, S[t].fields[i], slots[i]) && !IsNull(S[t].fields[i], S[t].proto3, slots[i])
      {
        assert SlotGood(S, t, slots, i);
      }
    }
  }

  lemma SlotNotGood(S: Schema, t: nat, slots: seq<Slot>, i: nat, n: nat)
    requires t in S && i < n <= |slots| == |S[t].fields| && !SlotGood(S, t, slots, i)
    ensures !SlotsGoodUpTo(S, t, slots, n) && !GoodSlots(S, t, slots)
  {
    SlotsGood(S, t, slots, n);
  }

  ghost predicate SlotsOwe(S: Schema, t: nat, slots: seq<Slot>, i: nat, written: seq<byte>, all: seq<byte>)
    requires t in S
  {
    written + EncodeSlots(S, t, slots, i) == all
  }

  lemma SlotsUnfold(S: Schema, t: nat, slots: seq<Slot>, i: nat, before: seq<byte>, all: seq<byte>)
    requires t in S && i < |slots| == |S[t].fields| && SlotsOwe(S, t, slots, i, before, all)
    ensures SlotsOwe(S, t, slots, i + 1, before + EncodeField(S, S[t].fields[i], S[t].proto3, slots[i]), all)
  {
    Associate(before, EncodeField(S, S[t].fields[i], S[t].proto3, slots[i]), EncodeSlots(S, t, slots, i + 1));
  }

  /** One field: verified, then written. */
  method WriteSlot(buffer: ByteBuffer, S: Schema, t: nat, slots: seq<Slot>, i: nat, ghost missing: bool,
                   ghost all: seq<byte>)
    returns (ok: bool)
    requires buffer.Valid() && GoodSchema(S) && t in S && LooseSlots(S, t, slots) && i < |slots|
    requires |EncodeSlots(S, t, slots, i)| < W31 && !(S[t].fields[i].rule.Required? && slots[i].Absent?)
    requires !missing ==> SlotsOwe(S, t, slots, i, buffer.Written(), all)
    modifies buffer, buffer.view
    ensures buffer.Valid() && (buffer.view == old(buffer.view) || fresh(buffer.view))
    ensures ok <==> SlotGood(S, t, slots, i)
    ensures ok && !missing ==> SlotsOwe(S, t, slots, i + 1, buffer.Written(), all)
    decreases slots, 0
  {
    var f := S[t].fields[i];
    if slots[i].Absent? && S[t].proto3 && !f.kind.Msg? {
      return false;
    }
    SchemaField(S, t, i);
    ok := WriteField(buffer, S, f, S[t].proto3, slots[i]);
    if ok && !missing {
      SlotsUnfold(S, t, slots, i, old(buffer.Written()), all);
    }
  }

  method WriteField(buffer: ByteBuffer, S: Schema, f: Field, proto3: bool, slot: Slot) returns (ok: bool)
    requires buffer.Valid() && GoodSchema(S) && GoodField(S, f) && LooseSlot(S, f, slot)
             && |EncodeField(S, f, proto3, slot)| < W31
    requires !(f.rule.Required? && slot.Absent?)
    modifies buffer, buffer.view
    ensures buffer.Valid() && (buffer.view == old(buffer.view) || fresh(buffer.view))
    ensures ok <==> GoodSlot(S, f, slot)
    ensures ok ==> buffer.Written() == old(buffer.Written()) + EncodeField(S, f, proto3, slot)
    ensures ok && slot.One? && !(proto3 && IsScalar(f.kind) && slot.v == ZeroOf(f.kind)) ==>
              buffer.Written() == old(buffer.Written())
                + (Varint(Tag(f.id, WireType(f.kind))) + EncodeValue(S, f.kind, f.id, slot.v))
    decreases slot, 0
  {
    match slot
    case Absent => ok := true;
    case One(v) =>
      if HasWirePresence(f, proto3, v) {
        ok := WriteRecord(buffer, S, f, v);
      } else {
        NotWritten(S, f, v);
        ok := true;
      }
    case Many(vs) =>
      if |vs| == 0 {
        ok := true;
      } else if f.rule.Packed? {
        ok := WritePacked(buffer, S, f, vs);
      } else {
        ok := WriteRecords(buffer, S, f, vs);
      }
    case Pairs(kvs) => ok := WriteMap(buffer, S, f, kvs);
  }

  method WriteMap(buffer: ByteBuffer, S: Schema, f: Field, kvs: seq<Entry>) returns (ok: bool)
    requires buffer.Valid() && GoodSchema(S) && GoodField(S, f) && f.rule.MapOf? && |EncodeEntries(S, f, kvs, 0)| < W31
    requires forall i :: 0 <= i < |kvs| ==> GoodScalar(f.rule.key, kvs[i].key) && LooseValue(S, f.kind, kvs[i].value)
    modifies buffer, buffer.view
    ensures buffer.Valid() && (buffer.view == old(buffer.view) || fresh(buffer.view))
    ensures ok <==> forall i :: 0 <= i < |kvs| ==> GoodValue(S, f.kind, kvs[i].value)
    ensures ok ==> buffer.Written() == old(buffer.Written()) + EncodeEntries(S, f, kvs, 0)
    decreases kvs, 2
  {
    ok := WriteEntries(buffer, S, f, kvs);
    if ok {
      GoodThroughout(S, f, kvs, |kvs|);
    } else if forall j :: 0 <= j < |kvs| ==> GoodValue(S, f.kind, kvs[j].value) {
      GoodAll(S, f, kvs, |kvs|);
    }
  }

  /** What proto3 leaves out is never a message. */
  lemma NotWritten(S: Schema, f: Field, v: Value)
    requires LooseValue(S, f.kind, v) && !HasWirePresence(f, true, v)
    ensures GoodValue(S, f.kind, v)
  {
  }

  method WriteRecord(buffer: ByteBuffer, S: Schema, f: Field, v: Value) returns (ok: bool)
    requires buffer.Valid() && GoodSchema(S) && GoodField(S, f) && LooseValue(S, f.kind, v)
             && |EncodeRecord(S, f, v)| < W31
    modifies buffer, buffer.view
    ensures buffer.Valid() && (buffer.view == old(buffer.view) || fresh(buffer.view))
    ensures ok <==> GoodValue(S, f.kind, v)
    ensures ok ==> buffer.Written() == old(buffer.Written()) + EncodeRecord(S, f, v)
    decreases v, 2
  {
    var tag := Tag(f.id, WireType(f.kind));
    TagFits(f.id, WireType(f.kind));
    buffer.WriteVarint32(tag);
    ok := WriteValue(buffer, S, f.kind, f.id, v);
    Associate(old(buffer.Written()), Varint(tag), EncodeValue(S, f.kind, f.id, v));
  }

  method WriteRecords(buffer: ByteBuffer, S: Schema, f: Field, vs: seq<Value>) returns (ok: bool)
    requires buffer.Valid() && GoodSchema(S) && GoodField(S, f) && |EncodeRecords(S, f, vs, 0)| < W31
    requires forall i :: 0 <= i < |vs| ==> LooseValue(S, f.kind, vs[i])
    modifies buffer, buffer.view
    ensures buffer.Valid() && (buffer.view == old(buffer.view) || fresh(buffer.view))
    ensures ok <==> forall i :: 0 <= i < |vs| ==> GoodValue(S, f.kind, vs[i])
    ensures ok ==> buffer.Written() == old(buffer.Written()) + EncodeRecords(S, f, vs, 0)
    decreases vs
  {
    var i := 0;
    while i < |vs|
      invariant i <= |vs| && buffer.Valid() && (buffer.view == old(buffer.view) || fresh(buffer.view))
      invariant forall j :: 0 <= j < i ==> GoodValue(S, f.kind, vs[j])
      invariant |EncodeRecords(S, f, vs, i)| < W31
      invariant buffer.Written() + EncodeRecords(S, f, vs, i) == old(buffer.Written()) + EncodeRecords(S, f, vs, 0)
    {
      ghost var before := buffer.Written();
      ok := WriteRecord(buffer, S, f, vs[i]);
      if !ok {
        return;
      }
      Associate(before, EncodeRecord(S, f, vs[i]), EncodeRecords(S, f, vs, i + 1));
      i := i + 1;
    }
    ok := true;
    assert buffer.Written() + [] == buffer.Written();
  }

  method WriteElements(buffer: ByteBuffer, S: Schema, f: Field, vs: seq<Value>)
    requires buffer.Valid() && GoodField(S, f) && f.rule.Packed? && |EncodeElements(S, f, vs, 0)| < W31
    requires forall i :: 0 <= i < |vs| ==> GoodScalar(f.kind, vs[i])
    modifies buffer, buffer.view
    ensures buffer.Valid() && (buffer.view == old(buffer.view) || fresh(buffer.view))
    ensures buffer.Written() == old(buffer.Written()) + EncodeElements(S, f, vs, 0)
  {
    var i := 0;
    while i < |vs|
      invariant i <= |vs| && buffer.Valid() && (buffer.view == old(buffer.view) || fresh(buffer.view))
      invariant |EncodeElements(S, f, vs, i)| < W31
      invariant buffer.Written() + EncodeElements(S, f, vs, i) == old(buffer.Written()) + EncodeElements(S, f, vs, 0)
    {
      ghost var before := buffer.Written();
      WriteScalar(buffer, f.kind, vs[i]);
      Associate(before, EncodeScalar(f.kind, vs[i]), EncodeElements(S, f, vs, i + 1));
      i := i + 1;
    }
    assert buffer.Written() + [] == buffer.Written();
  }

  /** One byte is kept for the length before the elements are written; CloseLength makes more room if it must. */
  method WritePacked(buffer: ByteBuffer, S: Schema, f: Field, vs: seq<Value>) returns (ok: bool)
    requires buffer.Valid() && GoodField(S, f) && f.rule.Packed?
    requires |Varint(Tag(f.id, LDELIM)) + Delimited(EncodeElements(S, f, vs, 0))| < W31
    requires forall i :: 0 <= i < |vs| ==> LooseValue(S, f.kind, vs[i])
    modifies buffer, buffer.view
    ensures buffer.Valid() && (buffer.view == old(buffer.view) || fresh(buffer.view))
    ensures ok && forall i :: 0 <= i < |vs| ==> GoodValue(S, f.kind, vs[i])
    ensures buffer.Written()
            == old(buffer.Written()) + (Varint(Tag(f.id, LDELIM)) + Delimited(EncodeElements(S, f, vs, 0)))
  {
    TagFits(f.id, LDELIM);
    ghost var head := buffer.Written() + Varint(Tag(f.id, LDELIM));
    var start := LeaveRoom(buffer, Tag(f.id, LDELIM));
    ghost var room, w := buffer.Written(), EncodeElements(S, f, vs, 0);
    WriteElements(buffer, S, f, vs);
    RoomKept(buffer.view[..buffer.offset], room, w, start);
    CloseLength(buffer, start, head, w);
    Associate(old(buffer.Written()), Varint(Tag(f.id, LDELIM)), Delimited(w));
    ok := true;
  }

  /** A tag and one byte for a length; returns where the contents begin. */
  method LeaveRoom(buffer: ByteBuffer, tag: nat) returns (start: nat)
    requires buffer.Valid() && tag < W32
    modifies buffer, buffer.view
    ensures buffer.Valid() && (buffer.view == old(buffer.view) || fresh(buffer.view))
    ensures 0 < start == buffer.offset && buffer.Written()[..start - 1] == old(buffer.Written()) + Varint(tag)
  {
    buffer.WriteVarint32(tag);
    ghost var head := buffer.Written();
    buffer.EnsureCapacity(buffer.offset + 1);
    buffer.offset := buffer.offset + 1;
    start := buffer.offset;
    assert buffer.Written()[..start - 1] == head;
  }

  lemma RoomKept(all: seq<byte>, room: seq<byte>, w: seq<byte>, start: nat)
    requires all == room + w && |room| == start > 0
    ensures all[..start - 1] == room[..start - 1] && all[start..] == w
  {
  }

  method WriteEntries(buffer: ByteBuffer, S: Schema, f: Field, kvs: seq<Entry>) returns (ok: bool)
    requires buffer.Valid() && GoodSchema(S) && GoodField(S, f) && f.rule.MapOf? && |EncodeEntries(S, f, kvs, 0)| < W31
    requires forall i :: 0 <= i < |kvs| ==> LooseEntry(S, f, kvs[i])
    modifies buffer, buffer.view
    ensures buffer.Valid() && (buffer.view == old(buffer.view) || fresh(buffer.view))
    ensures ok <==> GoodUpTo(S, f, kvs, |kvs|)
    ensures ok ==> buffer.Written() == old(buffer.Written()) + EncodeEntries(S, f, kvs, 0)
    decreases kvs, 1
  {
    ghost var all := old(buffer.Written()) + EncodeEntries(S, f, kvs, 0);
    var i := 0;
    while i < |kvs|
      invariant i <= |kvs| && buffer.Valid() && (buffer.view == old(buffer.view) || fresh(buffer.view))
      invariant GoodUpTo(S, f, kvs, i) && Owes(S, f, kvs, i, buffer.Written(), all)
    {
      ok := WriteNext(buffer, S, f, kvs, i, all);
      if !ok {
        return;
      }
      i := i + 1;
    }
    ok := true;
    PaidUp(S, f, kvs, i, buffer.Written(), all);
  }

  ghost predicate LooseEntry(S: Schema, f: Field, e: Entry) {
    f.rule.MapOf? && GoodScalar(f.rule.key, e.key) && LooseValue(S, f.kind, e.value)
  }

  /** What is written and the entries from i on make up the whole. */
  ghost predicate Owes(S: Schema, f: Field, kvs: seq<Entry>, i: nat, written: seq<byte>, all: seq<byte>) {
    |EncodeEntries(S, f, kvs, i)| < W31 && written + EncodeEntries(S, f, kvs, i) == all
  }

  lemma PaidUp(S: Schema, f: Field, kvs: seq<Entry>, i: nat, written: seq<byte>, all: seq<byte>)
    requires i >= |kvs| && Owes(S, f, kvs, i, written, all)
    ensures written == all
  {
    assert written + [] == written;
  }

  ghost predicate GoodUpTo(S: Schema, f: Field, kvs: seq<Entry>, i: nat)
    requires i <= |kvs|
    decreases i
  {
    i == 0 || (GoodUpTo(S, f, kvs, i - 1) && GoodValue(S, f.kind, kvs[i - 1].value))
  }

  lemma {:induction false} GoodThroughout(S: Schema, f: Field, kvs: seq<Entry>, i: nat)
    requires i <= |kvs| && GoodUpTo(S, f, kvs, i)
    ensures forall j :: 0 <= j < i ==> GoodValue(S, f.kind, kvs[j].value)
    decreases i
  {
    if i > 0 {
      GoodThroughout(S, f, kvs, i - 1);
    }
  }

  lemma {:induction false} NotGood(S: Schema, f: Field, kvs: seq<Entry>, i: nat, n: nat)
    requires i < n <= |kvs| && !GoodValue(S, f.kind, kvs[i].value)
    ensures !GoodUpTo(S, f, kvs, n)
    decreases n
  {
    if i + 1 < n {
      NotGood(S, f, kvs, i, n - 1);
    }
  }

  lemma {:induction false} GoodAll(S: Schema, f: Field, kvs: seq<Entry>, n: nat)
    requires n <= |kvs| && forall j :: 0 <= j < |kvs| ==> GoodValue(S, f.kind, kvs[j].value)
    ensures GoodUpTo(S, f, kvs, n)
    decreases n
  {
    if n > 0 {
      GoodAll(S, f, kvs, n - 1);
    }
  }

  /** One entry of many. */
  method WriteNext(buffer: ByteBuffer, S: Schema, f: Field, kvs: seq<Entry>, i: nat, ghost all: seq<byte>)
    returns (ok: bool)
    requires buffer.Valid() && GoodSchema(S) && GoodField(S, f) && f.rule.MapOf? && i < |kvs|
             && LooseEntry(S, f, kvs[i])
    requires GoodUpTo(S, f, kvs, i) && Owes(S, f, kvs, i, buffer.Written(), all)
    modifies buffer, buffer.view
    ensures buffer.Valid() && (buffer.view == old(buffer.view) || fresh(buffer.view))
    ensures ok ==> GoodUpTo(S, f, kvs, i + 1) && Owes(S, f, kvs, i + 1, buffer.Written(), all)
    ensures !ok ==> !GoodUpTo(S, f, kvs, |kvs|)
    decreases kvs, 0
  {
    EntriesUnfold(S, f, kvs, i, buffer.Written());
    ok := WriteEntry(buffer, S, f, kvs[i]);
    if !ok {
      NotGood(S, f, kvs, i, |kvs|);
    }
  }

  lemma EntriesUnfold(S: Schema, f: Field, kvs: seq<Entry>, i: nat, before: seq<byte>)
    requires i < |kvs|
    ensures |EntryRecord(S, f, kvs[i])| + |EncodeEntries(S, f, kvs, i + 1)| == |EncodeEntries(S, f, kvs, i)|
    ensures before + EncodeEntries(S, f, kvs, i) == before + EntryRecord(S, f, kvs[i]) + EncodeEntries(S, f, kvs, i + 1)
  {
    Associate(before, EntryRecord(S, f, kvs[i]), EncodeEntries(S, f, kvs, i + 1));
  }

  function EntryRecord(S: Schema, f: Field, e: Entry): seq<byte> {
    Varint(Tag(f.id, LDELIM)) + Delimited(EncodeEntry(S, f, e))
  }

  /** The length of an entry is calculated before anything of it is written. */
  method WriteEntry(buffer: ByteBuffer, S: Schema, f: Field, e: Entry) returns (ok: bool)
    requires buffer.Valid() && GoodSchema(S) && GoodField(S, f) && f.rule.MapOf?
    requires GoodScalar(f.rule.key, e.key) && LooseValue(S, f.kind, e.value) && |EntryRecord(S, f, e)| < W31
    modifies buffer, buffer.view
    ensures buffer.Valid() && (buffer.view == old(buffer.view) || fresh(buffer.view))
    ensures ok <==> GoodValue(S, f.kind, e.value)
    ensures ok ==> buffer.Written() == old(buffer.Written()) + EntryRecord(S, f, e)
    decreases e, 1
  {
    WriteHead(buffer, Tag(f.id, LDELIM), CalculateEntry(S, f, e));
    ok := WriteKeyValue(buffer, S, f, e);
    if ok {
      EntryBytes(S, f, e, old(buffer.Written()));
    }
  }

  method WriteHead(buffer: ByteBuffer, tag: nat, length: nat)
    requires buffer.Valid() && tag < W32
    modifies buffer, buffer.view
    ensures buffer.Valid() && (buffer.view == old(buffer.view) || fresh(buffer.view))
    ensures buffer.Written() == old(buffer.Written()) + Varint(tag) + Varint(length % W32)
  {
    buffer.WriteVarint32(tag);
    buffer.WriteVarint32(length % W32);
  }

  lemma EntryBytes(S: Schema, f: Field, e: Entry, start: seq<byte>)
    requires GoodSchema(S) && GoodField(S, f) && f.rule.MapOf? && |EncodeEntry(S, f, e)| < W31
    requires GoodScalar(f.rule.key, e.key) && GoodValue(S, f.kind, e.value)
    ensures start + Varint(Tag(f.id, LDELIM)) + Varint(CalculateEntry(S, f, e) % W32) + EncodeEntry(S, f, e)
         == start + EntryRecord(S, f, e)
  {
    var tag, w := Varint(Tag(f.id, LDELIM)), EncodeEntry(S, f, e);
    EntryLength(S, f, e);
    Small32(|w|);
    Associate(start + tag, Varint(|w|), w);
    Associate(start, tag, Delimited(w));
  }

  method WriteKeyValue(buffer: ByteBuffer, S: Schema, f: Field, e: Entry) returns (ok: bool)
    requires buffer.Valid() && GoodSchema(S) && GoodField(S, f) && f.rule.MapOf?
    requires GoodScalar(f.rule.key, e.key) && LooseValue(S, f.kind, e.value) && |EncodeEntry(S, f, e)| < W31
    modifies buffer, buffer.view
    ensures buffer.Valid() && (buffer.view == old(buffer.view) || fresh(buffer.view))
    ensures ok <==> GoodValue(S, f.kind, e.value)
    ensures ok ==> buffer.Written() == old(buffer.Written()) + EncodeEntry(S, f, e)
    decreases e, 0
  {
    TagFits(1, WireType(f.rule.key));
    TagFits(2, WireType(f.kind));
    buffer.WriteVarint32(Tag(1, WireType(f.rule.key)));
    WriteScalar(buffer, f.rule.key, e.key);
    buffer.WriteVarint32(Tag(2, WireType(f.kind)));
    ok := WriteValue(buffer, S, f.kind, 2, e.value);
    FourPieces(old(buffer.Written()), Varint(Tag(1, WireType(f.rule.key))), EncodeScalar(f.rule.key, e.key),
               Varint(Tag(2, WireType(f.kind))), EncodeValue(S, f.kind, 2, e.value));
  }

  lemma FourPieces(a: seq<byte>, b: seq<byte>, c: seq<byte>, d: seq<byte>, e: seq<byte>)
    ensures a + b + c + d + e == a + (b + c + d + e)
  {
  }

  /** A whole message: None where a required field is missing, else its bytes, as many as calculate says. */
  method Encode(S: Schema, t: nat, slots: seq<Slot>) returns (bytes: Option<seq<byte>>)
    requires GoodSchema(S) && t in S && LooseSlots(S, t, slots) && |EncodeSlots(S, t, slots, 0)| < W31
    ensures bytes.Some? <==> GoodSlots(S, t, slots)
    ensures bytes.Some? ==>
              bytes.value == EncodeSlots(S, t, slots, 0) && |bytes.value| == CalculateSlots(S, t, slots, 0)
  {
    var buffer := new ByteBuffer(16);
    var ok := WriteSlots(buffer, S, t, slots);
    if !ok {
      return None;
    }
    SlotsLength(S, t, slots, 0);
    return Some(buffer.view[..buffer.offset]);
  }
}

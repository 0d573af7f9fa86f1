/** What a decoder accepts, and what it makes of fields that are not there. */
module ProtoDefaults {
  import opened Common
  import opened Wire
  import opened Proto
  import opened ProtoDecode
  import opened ProtoMessage
  import opened ProtoTheorems
  import opened ProtoRoundTrip

  predicate IsSingular(f: Field) {
    f.rule.Required? || f.rule.Optional?
  }

  // ---------- after any decoding ----------

  /** Whatever the bytes and the frame: a field that is still absent is not required and has no default. */
  lemma DecodedSlots(d: Source, limit: int, fr: Frame, fuel: nat)
    requires DecodeMessage(d, limit, fr, fuel).Ok?
    ensures fr.t in d.S && |DecodeMessage(d, limit, fr, fuel).value| == |d.S[fr.t].fields|
    ensures forall i :: 0 <= i < |d.S[fr.t].fields| && !IsHidden(d, fr.t, d.S[fr.t].fields[i]) ==>
              DecodeMessage(d, limit, fr, fuel).value[i].Absent? ==>
                !d.S[fr.t].fields[i].rule.Required? && d.S[fr.t].fields[i].default.None?
  {
  }

  /** One turn of the decoding loop: the slots and the offset after it. */
  function LoopTurn(d: Source, limit: int, fr: Frame, o: int, slots: seq<Slot>, fuel: nat): Parsed<seq<Slot>>
    requires fuel > 0 && fr.t in d.S
  {
    var tag := Read32(d.bs, limit, o);
    if tag.Fail? || tag.value % 8 == 4 then Fail
    else
      var wireType, id, fields := tag.value % 8, tag.value / 8, d.S[fr.t].fields;
      var i := Find(fields, id);
      if i >= |fields| || i >= |slots| || IsHidden(d, fr.t, fields[i]) then
        var r := SkipField(d.bs, limit, wireType, id, tag.next, fuel);
        if r.Fail? then Fail else Ok(slots, r.next)
      else
        var r := DecodeField(d, fields[i], limit, wireType, tag.next, slots[i], fuel - 1);
        if r.Fail? then Fail else Ok(slots[i := r.value], r.next)
  }

  /** The loop comes to a record of a field. */
  predicate HasRecord(d: Source, limit: int, fr: Frame, o: int, slots: seq<Slot>, fuel: nat, id: nat)
    decreases fuel
  {
    && GoesOn(fr, limit, o) && fuel > 0 && fr.t in d.S && Read32(d.bs, limit, o).Ok?
    && (Read32(d.bs, limit, o).value / 8 == id
        || var r := LoopTurn(d, limit, fr, o, slots, fuel);
           r.Ok? && HasRecord(d, limit, fr, r.next, r.value, fuel - 1, id))
  }

  lemma LoopTurns(d: Source, limit: int, fr: Frame, o: int, slots: seq<Slot>, fuel: nat)
    requires GoesOn(fr, limit, o) && fuel > 0 && fr.t in d.S && Read32(d.bs, limit, o).Ok?
    ensures var r := LoopTurn(d, limit, fr, o, slots, fuel);
            var all := DecodeLoop(d, limit, fr, o, slots, fuel);
            if Read32(d.bs, limit, o).value % 8 == 4 then all.Ok? ==> all.value == slots
            else all == if r.Fail? then Fail else DecodeLoop(d, limit, fr, r.next, r.value, fuel - 1)
  {
  }

  /** Only its own records change a slot. */
  lemma {:induction false} Unread(d: Source, limit: int, fr: Frame, o: int, slots: seq<Slot>, fuel: nat, i: nat)
    requires fr.t in d.S && i < |slots| == |d.S[fr.t].fields|
    requires !HasRecord(d, limit, fr, o, slots, fuel, d.S[fr.t].fields[i].id)
    ensures var r := DecodeLoop(d, limit, fr, o, slots, fuel); r.Ok? ==> |r.value| == |slots| && r.value[i] == slots[i]
    decreases fuel
  {
    if GoesOn(fr, limit, o) && fuel > 0 && Read32(d.bs, limit, o).Ok? {
      LoopTurns(d, limit, fr, o, slots, fuel);
      var r := LoopTurn(d, limit, fr, o, slots, fuel);
      if r.Ok? {
        Unread(d, limit, fr, r.next, r.value, fuel - 1, i);
      }
    }
  }

  /** Whatever the bytes: a required field without a default must have a record. */
  lemma RequiredNeedsRecord(d: Source, limit: int, fr: Frame, fuel: nat, i: nat)
    requires fr.t in d.S && i < |d.S[fr.t].fields| && !IsHidden(d, fr.t, d.S[fr.t].fields[i])
    requires d.S[fr.t].fields[i].rule.Required? && d.S[fr.t].fields[i].default.None?
    requires !HasRecord(d, limit, fr, fr.start, InitialSlots(d, fr.t), fuel, d.S[fr.t].fields[i].id)
    ensures DecodeMessage(d, limit, fr, fuel).Fail?
  {
    Unread(d, limit, fr, fr.start, InitialSlots(d, fr.t), fuel, i);
  }

  /** A wire type that a field takes: its own, or for a packed field that of a block. */
  predicate Takes(f: Field, wireType: nat) {
    if f.rule.MapOf? then wireType == 2
    else wireType == WireType(f.kind) || (f.rule.Packed? && IsPackable(f.kind) && wireType == 2)
  }

  /** Every record the loop comes to has a wire type of its field, and every end tag closes this very group. */
  ghost predicate WellTagged(d: Source, limit: int, fr: Frame, o: int, slots: seq<Slot>, fuel: nat)
    decreases fuel
  {
    GoesOn(fr, limit, o) ==>
      && fuel > 0 && fr.t in d.S && Read32(d.bs, limit, o).Ok?
      && var tag, fields := Read32(d.bs, limit, o).value, d.S[fr.t].fields;
         if tag % 8 == 4 then fr.group == Some(tag / 8)
         else
           && (forall i :: 0 <= i < |fields| && i == Find(fields, tag / 8) && !IsHidden(d, fr.t, fields[i]) ==>
                Takes(fields[i], tag % 8))
           && var r := LoopTurn(d, limit, fr, o, slots, fuel);
              r.Ok? && WellTagged(d, limit, fr, r.next, r.value, fuel - 1)
  }

  /** Whatever the bytes: a record of another wire type, or the end of another group, is refused. */
  lemma {:induction false} DecodedTags(d: Source, limit: int, fr: Frame, o: int, slots: seq<Slot>, fuel: nat)
    requires DecodeLoop(d, limit, fr, o, slots, fuel).Ok? && (fr.t in d.S ==> |slots| == |d.S[fr.t].fields|)
    ensures WellTagged(d, limit, fr, o, slots, fuel)
    decreases fuel
  {
    if GoesOn(fr, limit, o) && Read32(d.bs, limit, o).value % 8 != 4 {
      LoopTurns(d, limit, fr, o, slots, fuel);
      var r := LoopTurn(d, limit, fr, o, slots, fuel);
      DecodedTags(d, limit, fr, r.next, r.value, fuel - 1);
    }
  }

  /** The last record of a singular field wins: what its slot held before does not matter. */
  lemma LastRecordWins(d: Source, f: Field, limit: int, wireType: nat, o: int, slot: Slot, before: Slot, fuel: nat)
    requires IsSingular(f)
    ensures DecodeField(d, f, limit, wireType, o, slot, fuel) == DecodeField(d, f, limit, wireType, o, before, fuel)
  {
  }

  ghost predicate DistinctKeys(kvs: seq<Entry>) {
    forall i, j :: 0 <= i < j < |kvs| ==> kvs[i].key != kvs[j].key
  }

  /** A later entry of a map takes the place of the one with its key, and leaves the others. */
  lemma {:induction false} LastEntryWins(kvs: seq<Entry>, e: Entry, x: Entry)
    requires DistinctKeys(kvs)
    ensures x in PutEntry(kvs, e) <==> x == e || (x in kvs && x.key != e.key)
  {
    if |kvs| > 0 {
      assert kvs == [kvs[0]] + kvs[1..];
      LastEntryWins(kvs[1..], e, x);
    }
  }

  // ---------- after decoding an encoding ----------

  /** A singular field that the decoder knows and the message lacks. */
  ghost predicate Lacked(d: Source, t: nat, slots: seq<Slot>, i: nat)
    requires t in d.S && |slots| == |d.S[t].fields|
  {
    i < |slots| && slots[i].Absent? && !IsHidden(d, t, d.S[t].fields[i]) && IsSingular(d.S[t].fields[i])
  }

  /** It is required and has no default. */
  ghost predicate Missing(d: Source, t: nat, slots: seq<Slot>, i: nat)
    requires t in d.S && |slots| == |d.S[t].fields|
  {
    Lacked(d, t, slots, i) && d.S[t].fields[i].rule.Required? && d.S[t].fields[i].default.None?
  }

  lemma FinishFails(d: Source, t: nat, slots: seq<Slot>)
    requires GoodSchema(d.S) && PartSlots(d.S, t, slots)
    ensures Finish(d, t, Progress(d, t, slots, |slots|)).None? <==> exists i :: Missing(d, t, slots, i)
  {
    var acc, fields := Progress(d, t, slots, |slots|), d.S[t].fields;
    forall i | 0 <= i < |slots|
      ensures (!IsHidden(d, t, fields[i]) && fields[i].rule.Required? && acc[i].Absent?) <==> Missing(d, t, slots, i)
    {
      SchemaField(d.S, t, i);
    }
  }

  lemma FinishFills(d: Source, t: nat, slots: seq<Slot>, i: nat)
    requires PartSlots(d.S, t, slots) && Lacked(d, t, slots, i) && Finish(d, t, Progress(d, t, slots, |slots|)).Some?
    ensures var default, slot := d.S[t].fields[i].default, Finish(d, t, Progress(d, t, slots, |slots|)).value[i];
            if default.Some? then slot == One(default.value) else slot == Absent
  {
  }

  /**
    Decoding the encoding of a message that lacks fields fails exactly when a required one without a default is
    among them. Otherwise every singular field that was lacking holds its default, or is absent if it has none.
   */
  lemma FrameDefaults(d: Source, limit: int, fr: Frame, slots: seq<Slot>, fuel: nat)
    requires Ready(d, limit) && PartSlots(d.S, fr.t, slots) && DecodableSlots(d, fr.t, slots)
    requires var w := EncodeSlots(d.S, fr.t, slots, 0);
             At(d.bs, fr.start, w) && Closes(d, limit, fr, fr.start + |w|) && fuel > |w|
    ensures var r := DecodeMessage(d, limit, fr, fuel);
            && (r.Fail? <==> exists i :: Missing(d, fr.t, slots, i))
            && (r.Ok? ==> |r.value| == |slots|)
            && forall i: nat :: r.Ok? && Lacked(d, fr.t, slots, i) ==>
                 var default := d.S[fr.t].fields[i].default;
                 if default.Some? then r.value[i] == One(default.value) else r.value[i] == Absent
  {
    var r := DecodeMessage(d, limit, fr, fuel);
    LoopBack(d, limit, fr, slots, fuel);
    FinishFails(d, fr.t, slots);
    forall i: nat | r.Ok? && Lacked(d, fr.t, slots, i)
      ensures var default := d.S[fr.t].fields[i].default;
              if default.Some? then r.value[i] == One(default.value) else r.value[i] == Absent
    {
      FinishFills(d, fr.t, slots, i);
    }
  }

  /** The same for a whole buffer. */
  lemma AbsentFields(d: Source, t: nat, slots: seq<Slot>, fuel: nat)
    requires GoodSchema(d.S) && PartSlots(d.S, t, slots) && DecodableSlots(d, t, slots)
    requires d.bs == EncodeSlots(d.S, t, slots, 0) && |d.bs| < W31 && fuel > |d.bs|
    ensures var r := Decode(d, t, fuel);
            && (r.Fail? <==> exists i :: Missing(d, t, slots, i))
            && (r.Ok? ==> |r.value| == |slots|)
            && forall i: nat :: r.Ok? && Lacked(d, t, slots, i) ==>
                 var default := d.S[t].fields[i].default;
                 if default.Some? then r.value[i] == One(default.value) else r.value[i] == Absent
  {
    FrameDefaults(d, |d.bs|, Frame(t, 0, -1, None), slots, fuel);
  }

  /** A zero that proto3 did not write comes back as the default. */
  lemma OmittedZero(d: Source, t: nat, slots: seq<Slot>, fuel: nat, i: nat)
    requires GoodSchema(d.S) && t in d.S && GoodSlots(d.S, t, slots) && DecodableSlots(d, t, slots)
    requires d.bs == EncodeSlots(d.S, t, slots, 0) && |d.bs| < W31 && fuel > |d.bs|
    requires i < |slots| && d.S[t].proto3 && !IsHidden(d, t, d.S[t].fields[i]) && IsScalar(d.S[t].fields[i].kind)
    requires slots[i] == One(ZeroOf(d.S[t].fields[i].kind))
    ensures Decode(d, t, fuel).Ok? && |Decode(d, t, fuel).value| == |slots|
    ensures var default, slot := d.S[t].fields[i].default, Decode(d, t, fuel).value[i];
            if default.Some? then slot == One(default.value) else slot == Absent
  {
    ForwardCompatible(d, t, slots, fuel);
  }

  // ---------- the version messages ----------

  const MAJOR: Field := Field(1, Required, Int32, None)
  const MINOR: Field := Field(2, Optional, Int32, Some(Num(0)))

  ghost predicate IsVersion(S: Schema, t: nat) {
    t in S && S.Keys == {t} && S[t] == MessageType([MAJOR, MINOR], false)
  }

  lemma VersionIsGood(S: Schema, t: nat)
    requires IsVersion(S, t)
    ensures GoodSchema(S)
  {
    forall u | u in S
      ensures GoodType(S, u)
    {
      assert u in S.Keys;
    }
  }

  lemma VersionBytes(S: Schema, t: nat, slots: seq<Slot>)
    requires IsVersion(S, t) && |slots| == 2
    ensures EncodeSlots(S, t, slots, 0)
         == EncodeField(S, MAJOR, false, slots[0]) + EncodeField(S, MINOR, false, slots[1])
    ensures EncodeField(S, MAJOR, false, One(Num(1))) == [0x08, 0x01]
    ensures EncodeField(S, MINOR, false, One(Num(1))) == [0x10, 0x01]
  {
    assert EncodeSlots(S, t, slots, 2) == [];
    assert EncodeSlots(S, t, slots, 1) == EncodeField(S, MINOR, false, slots[1]);
  }

  /** Version 1.1 takes four bytes. */
  lemma VersionEncodes(S: Schema, t: nat)
    requires IsVersion(S, t)
    ensures EncodeSlots(S, t, [One(Num(1)), One(Num(1))], 0) == [0x08, 0x01, 0x10, 0x01]
  {
    VersionBytes(S, t, [One(Num(1)), One(Num(1))]);
  }

  /** A version without a minor number is minor version 0. */
  lemma MinorDefaults(d: Source, t: nat, slots: seq<Slot>)
    requires IsVersion(d.S, t) && d.hidden == {} && d.bs == [0x08, 0x01] && slots == [One(Num(1)), Absent]
    ensures Decode(d, t, 3) == Ok([One(Num(1)), One(Num(0))], 2)
  {
    VersionIsGood(d.S, t);
    VersionBytes(d.S, t, slots);
    ForwardCompatible(d, t, slots, 3);
    assert ExpectSlots(d, t, slots) == [One(Num(1)), One(Num(0))];
  }

  /** A version without a major number is refused. */
  lemma MajorRequired(d: Source, t: nat, slots: seq<Slot>)
    requires IsVersion(d.S, t) && d.hidden == {} && d.bs == [0x10, 0x01] && slots == [Absent, One(Num(1))]
    ensures Decode(d, t, 3).Fail?
  {
    VersionIsGood(d.S, t);
    VersionBytes(d.S, t, slots);
    AbsentFields(d, t, slots, 3);
    assert Missing(d, t, slots, 0);
  }
}

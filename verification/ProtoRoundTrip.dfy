/** The round trip and forward compatibility of messages. */
module ProtoRoundTrip {
  import opened Common
  import opened Wire
  import opened Proto
  import opened ProtoDecode
  import opened ProtoMessage
  import opened ProtoTheorems
  import opened ProtoSkip

  // ---------- packed fields ----------

  /** The elements of a packed field are read until exactly their end. */
  lemma {:induction false} PackedBack(d: Source, limit: int, f: Field, vs: seq<Value>, i: nat, o: int, e: int)
    requires Bounded(d, limit) && GoodField(d.S, f) && f.rule.Packed? && GoodValues(d, f.kind, vs) && i <= |vs|
    requires At(d.bs, o, EncodeElements(d.S, f, vs, i)) && e == o + |EncodeElements(d.S, f, vs, i)| <= limit
    ensures DecodePacked(f.kind, d.bs, limit, o, e) == Ok(ExpectAll(d, f.kind, vs)[i..], e)
    decreases |vs| - i
  {
    if i < |vs| {
      var w := EncodeScalar(f.kind, vs[i]);
      assert GoodValue(d.S, f.kind, vs[i]) && EncodeValue(d.S, f.kind, f.id, vs[i]) == w;
      AtSplit(d.bs, o, w, EncodeElements(d.S, f, vs, i + 1));
      PlainBytes(d.S, f.kind, f.id, vs[i]);
      PackedBack(d, limit, f, vs, i + 1, o + |w|, e);
      PackedTurn(d, limit, f.kind, vs[i], o, o + |w|, e, ExpectAll(d, f.kind, vs)[i + 1..]);
      ExpectFrom(d, f.kind, vs, i);
    } else {
      assert ExpectAll(d, f.kind, vs)[i..] == [];
    }
  }

  lemma ExpectFrom(d: Source, k: Kind, vs: seq<Value>, i: nat)
    requires i < |vs| && IsScalar(k)
    ensures ExpectAll(d, k, vs)[i..] == [CanonScalar(k, vs[i])] + ExpectAll(d, k, vs)[i + 1..]
  {
  }

  lemma PackedTurn(d: Source, limit: int, k: Kind, v: Value, o: int, p: int, e: int, rest: seq<Value>)
    requires Bounded(d, limit) && IsPackable(k) && IsScalar(k) && GoodScalar(k, v) && Survives(v)
    requires At(d.bs, o, EncodeScalar(k, v)) && o < p == o + |EncodeScalar(k, v)| <= e <= limit
    requires DecodePacked(k, d.bs, limit, p, e) == Ok(rest, e)
    ensures DecodePacked(k, d.bs, limit, o, e) == Ok([CanonScalar(k, v)] + rest, e)
  {
    ScalarBack(k, v, d.bs, limit, o);
    PackedNext(k, d.bs, limit, o, p, e, CanonScalar(k, v), rest);
  }

  lemma PackedNext(k: Kind, bs: seq<byte>, limit: int, o: int, p: int, e: int, v: Value, rest: seq<Value>)
    requires IsPackable(k) && o < p <= e && DecodeScalar(k, bs, limit, o) == Ok(v, p)
    requires DecodePacked(k, bs, limit, p, e) == Ok(rest, e)
    ensures DecodePacked(k, bs, limit, o, e) == Ok([v] + rest, e)
  {
  }

  // ---------- the mutual induction ----------

  ghost predicate ValueAt(d: Source, limit: int, k: Kind, id: nat, v: Value, o: int, fuel: nat) {
    && Ready(d, limit) && 1 <= id < 0x2000_0000
    && GoodValue(d.S, k, v) && Decodable(d, k, v)
    && At(d.bs, o, EncodeValue(d.S, k, id, v)) && o + |EncodeValue(d.S, k, id, v)| <= limit
    && fuel > |EncodeValue(d.S, k, id, v)|
  }

  lemma {:induction false} ValueBack(d: Source, limit: int, k: Kind, id: nat, v: Value, o: int, fuel: nat)
    requires ValueAt(d, limit, k, id, v, o, fuel)
    ensures DecodeValue(d, k, id, limit, o, fuel) == Ok(ExpectValue(d, k, v), o + |EncodeValue(d.S, k, id, v)|)
    decreases v, 1
  {
    if IsScalar(k) {
      ScalarBack(k, v, d.bs, limit, o);
    } else if k.Msg? {
      EmbeddedBack(d, limit, k, id, v, o, fuel);
    } else {
      GroupBack(d, limit, k, id, v, o, fuel);
    }
  }

  lemma {:induction false} EmbeddedBack(d: Source, limit: int, k: Kind, id: nat, v: Value, o: int, fuel: nat)
    requires ValueAt(d, limit, k, id, v, o, fuel) && k.Msg?
    ensures DecodeValue(d, k, id, limit, o, fuel) == Ok(ExpectValue(d, k, v), o + |EncodeValue(d.S, k, id, v)|)
    decreases v, 0
  {
    var w := EncodeSlots(d.S, k.t, v.slots, 0);
    DelimitedAt(d.bs, limit, o, w);
    MessageBack(d, limit, Frame(k.t, o + |Varint(|w|)|, |w|, None), v.slots, fuel - 1);
  }

  lemma {:induction false} GroupBack(d: Source, limit: int, k: Kind, id: nat, v: Value, o: int, fuel: nat)
    requires ValueAt(d, limit, k, id, v, o, fuel) && k.Group?
    ensures DecodeValue(d, k, id, limit, o, fuel) == Ok(ExpectValue(d, k, v), o + |EncodeValue(d.S, k, id, v)|)
    decreases v, 0
  {
    AtSplit(d.bs, o, EncodeSlots(d.S, k.t, v.slots, 0), Varint(Tag(id, ENDGROUP)));
    MessageBack(d, limit, Frame(k.t, o, -1, Some(id)), v.slots, fuel - 1);
  }

  /** How a frame ends after the bytes of its message: by length, by its end tag, or with the buffer. */
  ghost predicate Closes(d: Source, limit: int, fr: Frame, e: int) {
    && fr.start <= e && Reaches(fr, limit, e)
    && match fr.group
       case None => if fr.length == -1 then e == limit else e == fr.start + fr.length
       case Some(id) =>
         && fr.length == -1 && 1 <= id < 0x2000_0000
         && At(d.bs, e, Varint(Tag(id, ENDGROUP))) && e + |Varint(Tag(id, ENDGROUP))| <= limit
  }

  function After(fr: Frame, e: int): int {
    if fr.group.Some? then e + |Varint(Tag(fr.group.value, ENDGROUP))| else e
  }

  lemma LoopEnds(L: Loop, d: Source, limit: int, fr: Frame, o: int, acc: seq<Slot>, fuel: nat)
    requires IsLoop(L, d, limit, fr)
    requires Ready(d, limit) && fr.t in d.S && Closes(d, limit, fr, o) && fuel > 0
    ensures L(o, acc, fuel) == Ok(acc, After(fr, o))
  {
    assert DecodeLoop(d, limit, fr, o, acc, fuel) == L(o, acc, fuel);
    if fr.group.Some? {
      TagBack(d, limit, o, fr.group.value, ENDGROUP);
    }
  }

  /** The slots once the first i fields have been read. */
  function Progress(d: Source, t: nat, slots: seq<Slot>, i: nat): (acc: seq<Slot>)
    requires t in d.S
    ensures |acc| == |d.S[t].fields|
  {
    var fields, proto3 := d.S[t].fields, d.S[t].proto3;
    seq(|fields|, j requires 0 <= j < |fields| =>
      if j < i && j < |slots| then LoopSlot(d, t, fields[j], proto3, slots[j]) else InitialSlots(d, t)[j])
  }

  lemma {:induction false} MessageBack(d: Source, limit: int, fr: Frame, slots: seq<Slot>, fuel: nat)
    requires Ready(d, limit) && fr.t in d.S && GoodSlots(d.S, fr.t, slots) && DecodableSlots(d, fr.t, slots)
    requires var w := EncodeSlots(d.S, fr.t, slots, 0);
             At(d.bs, fr.start, w) && Closes(d, limit, fr, fr.start + |w|) && fuel > |w|
    ensures DecodeMessage(d, limit, fr, fuel)
         == Ok(ExpectSlots(d, fr.t, slots), After(fr, fr.start + |EncodeSlots(d.S, fr.t, slots, 0)|))
    decreases slots, |slots| + 2
  {
    LoopBack(d, limit, fr, slots, fuel);
    FinishBack(d, fr.t, slots);
  }

  /** A message that may lack any of its fields. */
  ghost predicate PartSlots(S: Schema, t: nat, slots: seq<Slot>) {
    t in S && |slots| == |S[t].fields|
    && forall i :: 0 <= i < |slots| ==> slots[i].Absent? || GoodSlot(S, S[t].fields[i], slots[i])
  }

  lemma {:induction false} LoopBack(d: Source, limit: int, fr: Frame, slots: seq<Slot>, fuel: nat)
    requires Ready(d, limit) && PartSlots(d.S, fr.t, slots) && DecodableSlots(d, fr.t, slots)
    requires var w := EncodeSlots(d.S, fr.t, slots, 0);
             At(d.bs, fr.start, w) && Closes(d, limit, fr, fr.start + |w|) && fuel > |w|
    ensures DecodeLoop(d, limit, fr, fr.start, InitialSlots(d, fr.t), fuel)
         == Ok(Progress(d, fr.t, slots, |slots|), After(fr, fr.start + |EncodeSlots(d.S, fr.t, slots, 0)|))
    decreases slots, |slots| + 1
  {
    var L := LoopOf(d, limit, fr, fr.start, InitialSlots(d, fr.t), fuel);
    NoProgress(d, fr.t, slots);
    SlotsBack(L, d, limit, fr, slots, 0, fr.start, fuel);
  }

  lemma NoProgress(d: Source, t: nat, slots: seq<Slot>)
    requires t in d.S
    ensures Progress(d, t, slots, 0) == InitialSlots(d, t)
  {
  }

  lemma LoopOf(d: Source, limit: int, fr: Frame, o: int, acc: seq<Slot>, fuel: nat) returns (L: Loop)
    ensures IsLoop(L, d, limit, fr) && L(o, acc, fuel) == DecodeLoop(d, limit, fr, o, acc, fuel)
  {
    L := (o: int, acc: seq<Slot>, fuel: nat) => DecodeLoop(d, limit, fr, o, acc, fuel);
  }

  lemma FinishBack(d: Source, t: nat, slots: seq<Slot>)
    requires GoodSchema(d.S) && t in d.S && GoodSlots(d.S, t, slots)
    ensures Finish(d, t, Progress(d, t, slots, |slots|)) == Some(ExpectSlots(d, t, slots))
  {
    var acc, fields := Progress(d, t, slots, |slots|), d.S[t].fields;
    forall i | 0 <= i < |acc| && !IsHidden(d, t, fields[i]) && fields[i].rule.Required?
      ensures !acc[i].Absent?
    {
      assert GoodSlot(d.S, fields[i], slots[i]);
      SchemaField(d.S, t, i);
    }
    var done := Finish(d, t, acc);
    assert done.Some?;
    assert done.value == ExpectSlots(d, t, slots);
  }

  lemma {:induction false} SlotsBack(L: Loop, d: Source, limit: int, fr: Frame, slots: seq<Slot>, i: nat, o: int,
                                     fuel: nat)
    requires IsLoop(L, d, limit, fr)
    requires Ready(d, limit) && PartSlots(d.S, fr.t, slots) && DecodableSlots(d, fr.t, slots) && i <= |slots|
    requires var w := EncodeSlots(d.S, fr.t, slots, i);
             At(d.bs, o, w) && Closes(d, limit, fr, o + |w|) && fuel > |w|
    ensures L(o, Progress(d, fr.t, slots, i), fuel)
         == Ok(Progress(d, fr.t, slots, |slots|), After(fr, o + |EncodeSlots(d.S, fr.t, slots, i)|))
    decreases slots, |slots| - i
  {
    var acc := Progress(d, fr.t, slots, i);
    if i == |slots| {
      LoopEnds(L, d, limit, fr, o, acc, fuel);
    } else {
      var f, proto3 := d.S[fr.t].fields[i], d.S[fr.t].proto3;
      var w := EncodeField(d.S, f, proto3, slots[i]);
      AtSplit(d.bs, o, w, EncodeSlots(d.S, fr.t, slots, i + 1));
      SchemaField(d.S, fr.t, i);
      var fuel' := FieldBack(L, d, limit, fr, i, f, proto3, slots[i], o, o + |w|, acc, fuel);
      ProgressStep(d, fr.t, slots, i);
      SlotsBack(L, d, limit, fr, slots, i + 1, o + |w|, fuel');
    }
  }

  lemma ProgressStep(d: Source, t: nat, slots: seq<Slot>, i: nat)
    requires t in d.S && i < |slots| == |d.S[t].fields|
    ensures Progress(d, t, slots, i)[i := LoopSlot(d, t, d.S[t].fields[i], d.S[t].proto3, slots[i])]
            == Progress(d, t, slots, i + 1)
  {
  }

  /** What a slot holds when the loop begins. */
  function Untouched(d: Source, t: nat, f: Field, proto3: bool): Slot {
    if IsHidden(d, t, f) then Hollow(f) else Blank(f, proto3)
  }

  /** The records of one field fill its slot and no other. */
  lemma {:induction false} FieldBack(L: Loop, d: Source, limit: int, fr: Frame, i: nat, f: Field, proto3: bool,
                                     slot: Slot, o: int, e: int, acc: seq<Slot>, fuel: nat)
    returns (fuel': nat)
    requires Spot(L, d, limit, fr, i, f, acc) && acc[i] == Untouched(d, fr.t, f, proto3)
    requires GoodField(d.S, f) && (slot.Absent? || GoodSlot(d.S, f, slot)) && DecodableSlot(d, fr.t, f, slot)
    requires Within(d, limit, fr, EncodeField(d.S, f, proto3, slot), o, e, fuel)
    ensures fuel' + (e - o) >= fuel && L(o, acc, fuel) == L(e, acc[i := LoopSlot(d, fr.t, f, proto3, slot)], fuel')
    decreases slot, 2
  {
    if slot.Absent? {
      assert acc[i := LoopSlot(d, fr.t, f, proto3, slot)] == acc;
      fuel' := fuel;
    } else if IsHidden(d, fr.t, f) {
      assert acc[i := Hollow(f)] == acc;
      fuel' := HiddenBack(L, d, limit, fr, i, f, proto3, slot, o, e, acc, fuel);
    } else if slot.Many? {
      fuel' := ManyBack(L, d, limit, fr, i, f, slot.vs, o, e, acc, fuel);
    } else if slot.Pairs? {
      assert ExpectEntries(d, f, slot.kvs)[..0] == [];
      fuel' := EntriesBack(L, d, limit, fr, i, f, slot.kvs, 0, o, e, acc, fuel);
    } else {
      fuel' := SingleBack(L, d, limit, fr, i, f, proto3, slot, o, e, acc, fuel);
    }
  }

  lemma {:induction false} SingleBack(L: Loop, d: Source, limit: int, fr: Frame, i: nat, f: Field, proto3: bool,
                                      slot: Slot, o: int, e: int, acc: seq<Slot>, fuel: nat)
    returns (fuel': nat)
    requires Spot(L, d, limit, fr, i, f, acc) && acc[i] == Blank(f, proto3) && !IsHidden(d, fr.t, f)
    requires GoodField(d.S, f) && GoodSlot(d.S, f, slot) && DecodableSlot(d, fr.t, f, slot) && slot.One?
    requires Within(d, limit, fr, EncodeField(d.S, f, proto3, slot), o, e, fuel)
    ensures fuel' + (e - o) >= fuel && L(o, acc, fuel) == L(e, acc[i := LoopSlot(d, fr.t, f, proto3, slot)], fuel')
    decreases slot, 1
  {
    if HasWirePresence(f, proto3, slot.v) {
      RecordBack(L, d, limit, fr, i, f, slot.v, o, e, acc, One(ExpectValue(d, f.kind, slot.v)), fuel);
      fuel' := fuel - 1;
    } else {
      assert acc[i := Blank(f, proto3)] == acc;
      fuel' := fuel;
    }
  }

  ghost predicate GoodValues(d: Source, k: Kind, vs: seq<Value>) {
    forall j :: 0 <= j < |vs| ==> GoodValue(d.S, k, vs[j]) && Decodable(d, k, vs[j])
  }

  lemma {:induction false} ManyBack(L: Loop, d: Source, limit: int, fr: Frame, i: nat, f: Field, vs: seq<Value>,
                                    o: int, e: int, acc: seq<Slot>, fuel: nat)
    returns (fuel': nat)
    requires Spot(L, d, limit, fr, i, f, acc) && acc[i] == Many([]) && !IsHidden(d, fr.t, f)
    requires GoodField(d.S, f) && (f.rule.Repeated? || f.rule.Packed?) && GoodValues(d, f.kind, vs)
    requires Within(d, limit, fr, EncodeField(d.S, f, d.S[fr.t].proto3, Many(vs)), o, e, fuel)
    ensures fuel' + (e - o) >= fuel && L(o, acc, fuel) == L(e, acc[i := Many(ExpectAll(d, f.kind, vs))], fuel')
    decreases vs, |vs| + 1
  {
    if |vs| == 0 {
      assert acc[i := Many(ExpectAll(d, f.kind, vs))] == acc;
      fuel' := fuel;
    } else if f.rule.Packed? {
      PackedFieldBack(L, d, limit, fr, i, f, vs, o, e, acc, fuel);
      fuel' := fuel - 1;
    } else {
      assert ExpectAll(d, f.kind, vs)[..0] == [];
      fuel' := RecordsBack(L, d, limit, fr, i, f, vs, 0, o, e, acc, fuel);
    }
  }

  /** What a record adds to its slot. */
  function Added(d: Source, f: Field, slot: Slot, v: Value): Slot {
    if f.rule.Repeated? then Many((if slot.Many? then slot.vs else []) + [ExpectValue(d, f.kind, v)])
    else One(ExpectValue(d, f.kind, v))
  }

  lemma {:induction false} RecordField(d: Source, limit: int, f: Field, v: Value, q: int, e: int, slot: Slot, fuel: nat)
    requires ValueAt(d, limit, f.kind, f.id, v, q, fuel) && e == q + |EncodeValue(d.S, f.kind, f.id, v)|
             && !f.rule.MapOf? && !f.rule.Packed?
    ensures DecodeField(d, f, limit, WireType(f.kind), q, slot, fuel) == Ok(Added(d, f, slot, v), e)
    decreases v, 2
  {
    ValueBack(d, limit, f.kind, f.id, v, q, fuel);
  }

  /** The tag of a record stands from o to q, its payload from q to e. */
  lemma RecordSplit(d: Source, f: Field, wireType: nat, body: seq<byte>, o: int, e: int) returns (q: int)
    requires At(d.bs, o, Varint(Tag(f.id, wireType)) + body) && e == o + |Varint(Tag(f.id, wireType)) + body|
    ensures TagAt(d, f.id, wireType, o, q) && At(d.bs, q, body) && q <= e == q + |body|
  {
    AtSplit(d.bs, o, Varint(Tag(f.id, wireType)), body);
    q := o + |Varint(Tag(f.id, wireType))|;
  }

  /** One record of a singular or repeated field. */
  lemma {:induction false} RecordBack(L: Loop, d: Source, limit: int, fr: Frame, i: nat, f: Field, v: Value, o: int,
                                      e: int, acc: seq<Slot>, slot: Slot, fuel: nat)
    requires Spot(L, d, limit, fr, i, f, acc) && !IsHidden(d, fr.t, f)
    requires GoodField(d.S, f) && !f.rule.MapOf? && !f.rule.Packed? && GoodValue(d.S, f.kind, v)
             && Decodable(d, f.kind, v)
    requires Within(d, limit, fr, EncodeRecord(d.S, f, v), o, e, fuel) && slot == Added(d, f, acc[i], v)
    ensures L(o, acc, fuel) == L(e, acc[i := slot], fuel - 1)
    decreases v, 3
  {
    var q := RecordSplit(d, f, WireType(f.kind), EncodeValue(d.S, f.kind, f.id, v), o, e);
    RecordField(d, limit, f, v, q, e, acc[i], fuel - 1);
    LoopTakes(L, d, limit, fr, i, f, WireType(f.kind), o, q, e, acc, slot, fuel);
  }

  lemma {:induction false} RecordsBack(L: Loop, d: Source, limit: int, fr: Frame, i: nat, f: Field, vs: seq<Value>,
                                       j: nat, o: int, e: int, acc: seq<Slot>, fuel: nat)
    returns (fuel': nat)
    requires Spot(L, d, limit, fr, i, f, acc) && !IsHidden(d, fr.t, f)
    requires GoodField(d.S, f) && f.rule.Repeated? && GoodValues(d, f.kind, vs) && j <= |vs|
    requires Within(d, limit, fr, EncodeRecords(d.S, f, vs, j), o, e, fuel)
             && acc[i] == Many(ExpectAll(d, f.kind, vs)[..j])
    ensures fuel' + (e - o) >= fuel && L(o, acc, fuel) == L(e, acc[i := Many(ExpectAll(d, f.kind, vs))], fuel')
    decreases vs, |vs| - j
  {
    var all := ExpectAll(d, f.kind, vs);
    if j == |vs| {
      assert all[..j] == all && acc[i := Many(all)] == acc;
      fuel' := fuel;
    } else {
      var w := EncodeRecord(d.S, f, vs[j]);
      AtSplit(d.bs, o, w, EncodeRecords(d.S, f, vs, j + 1));
      assert all[..j + 1] == all[..j] + [ExpectValue(d, f.kind, vs[j])];
      RecordBack(L, d, limit, fr, i, f, vs[j], o, o + |w|, acc, Many(all[..j + 1]), fuel);
      var next := acc[i := Many(all[..j + 1])];
      fuel' := RecordsBack(L, d, limit, fr, i, f, vs, j + 1, o + |w|, e, next, fuel - 1);
      assert next[i := Many(all)] == acc[i := Many(all)];
    }
  }

  lemma PackedField(d: Source, limit: int, f: Field, vs: seq<Value>, q: int, e: int, slot: Slot, fuel: nat)
    requires Bounded(d, limit) && GoodField(d.S, f) && f.rule.Packed? && GoodValues(d, f.kind, vs)
    requires At(d.bs, q, Delimited(EncodeElements(d.S, f, vs, 0)))
             && e == q + |Delimited(EncodeElements(d.S, f, vs, 0))| <= limit
    ensures DecodeField(d, f, limit, LDELIM, q, slot, fuel) == Ok(Many(ExpectAll(d, f.kind, vs)), e)
  {
    var w := EncodeElements(d.S, f, vs, 0);
    DelimitedAt(d.bs, limit, q, w);
    var p, all := q + |Varint(|w|)|, ExpectAll(d, f.kind, vs);
    PackedBack(d, limit, f, vs, 0, p, e);
    assert all[0..] == all;
    PackedTaken(d, limit, f, all, |w|, q, p, e, slot, fuel);
  }

  lemma PackedTaken(d: Source, limit: int, f: Field, vs: seq<Value>, n: nat, q: int, p: int, e: int, slot: Slot,
                    fuel: nat)
    requires f.rule.Packed? && IsPackable(f.kind) && Read32(d.bs, limit, q) == Ok(n, p) && Signed32(n) == n
             && e == p + n
    requires DecodePacked(f.kind, d.bs, limit, p, e) == Ok(vs, e)
    ensures DecodeField(d, f, limit, LDELIM, q, slot, fuel) == Ok(Many(vs), e)
  {
  }

  lemma PackedFieldBack(L: Loop, d: Source, limit: int, fr: Frame, i: nat, f: Field, vs: seq<Value>, o: int, e: int,
                        acc: seq<Slot>, fuel: nat)
    requires Spot(L, d, limit, fr, i, f, acc) && !IsHidden(d, fr.t, f)
    requires GoodField(d.S, f) && f.rule.Packed? && GoodValues(d, f.kind, vs)
    requires Within(d, limit, fr, Varint(Tag(f.id, LDELIM)) + Delimited(EncodeElements(d.S, f, vs, 0)), o, e, fuel)
    ensures L(o, acc, fuel) == L(e, acc[i := Many(ExpectAll(d, f.kind, vs))], fuel - 1)
  {
    var q := RecordSplit(d, f, LDELIM, Delimited(EncodeElements(d.S, f, vs, 0)), o, e);
    PackedField(d, limit, f, vs, q, e, acc[i], fuel - 1);
    LoopTakes(L, d, limit, fr, i, f, LDELIM, o, q, e, acc, Many(ExpectAll(d, f.kind, vs)), fuel);
  }

  // ---------- map entries ----------

  lemma EntryEnds(d: Source, f: Field, end: int, e: Entry, fuel: nat)
    ensures DecodeEntry(d, f, end, end, e, fuel) == Ok(e, end)
  {
  }

  /** One turn of an entry's loop as far as the tag. */
  lemma HalfTurn(d: Source, f: Field, id: nat, wireType: nat, o: int, q: int, end: int, e: Entry, fuel: nat)
    requires id < 0x2000_0000 && wireType < 8 && 0 < fuel && o < end && TagAt(d, id, wireType, o, q) && q <= end
    ensures DecodeEntry(d, f, end, o, e, fuel) == DecodeHalf(d, f, end, q, e, wireType, id, fuel)
  {
    TagBack(d, end, o, id, wireType);
  }

  lemma KeyTurn(d: Source, f: Field, o: int, q: int, next: int, end: int, e: Entry, key: Value, fuel: nat,
                r: Parsed<Entry>)
    requires f.rule.MapOf? && IsScalar(f.rule.key) && 0 < fuel && o < end
    requires TagAt(d, 1, WireType(f.rule.key), o, q) && q <= end
    requires DecodeScalar(f.rule.key, d.bs, end, q) == Ok(key, next)
    requires DecodeEntry(d, f, end, next, e.(key := key), fuel - 1) == r
    ensures DecodeEntry(d, f, end, o, e, fuel) == r
  {
    HalfTurn(d, f, 1, WireType(f.rule.key), o, q, end, e, fuel);
  }

  lemma ValueTurn(d: Source, f: Field, o: int, q: int, end: int, e: Entry, value: Value, fuel: nat)
    requires f.rule.MapOf? && 0 < fuel && o < end && TagAt(d, 2, WireType(f.kind), o, q) && q <= end
    requires DecodeValue(d, f.kind, 2, end, q, fuel - 1) == Ok(value, end)
    ensures DecodeEntry(d, f, end, o, e, fuel) == Ok(e.(value := value), end)
  {
    HalfTurn(d, f, 2, WireType(f.kind), o, q, end, e, fuel);
    EntryEnds(d, f, end, e.(value := value), fuel - 1);
  }

  lemma AtFour(bs: seq<byte>, o: int, all: seq<byte>, a: seq<byte>, b: seq<byte>, c: seq<byte>, w: seq<byte>)
    requires At(bs, o, all) && all == a + b + c + w
    ensures At(bs, o, a) && At(bs, o + |a|, b) && At(bs, o + |a| + |b|, c) && At(bs, o + |a| + |b| + |c|, w)
    ensures |all| == |a| + |b| + |c| + |w|
  {
    AtSplit(bs, o, a + b + c, w);
    AtSplit(bs, o, a + b, c);
    AtSplit(bs, o, a, b);
  }

  lemma PlacesOf(bs: seq<byte>, o: int, all: seq<byte>, a: seq<byte>, b: seq<byte>, c: seq<byte>, w: seq<byte>,
                 end: int)
    returns (p1: int, p2: int, p3: int)
    requires At(bs, o, all) && all == a + b + c + w && end == o + |all| && |a| > 0 && |b| > 0 && |c| > 0
    ensures At(bs, o, a) && o < p1 == o + |a| && At(bs, p1, b) && p1 < p2 == p1 + |b|
    ensures At(bs, p2, c) && p2 < p3 == p2 + |c| && At(bs, p3, w) && p3 <= end == p3 + |w|
  {
    AtFour(bs, o, all, a, b, c, w);
    p1 := o + |a|;
    p2 := p1 + |b|;
    p3 := p2 + |c|;
  }

  lemma FourParts(S: Schema, f: Field, e: Entry, t1: seq<byte>, w1: seq<byte>, t2: seq<byte>, w2: seq<byte>)
    requires f.rule.MapOf? && t1 == Varint(Tag(1, WireType(f.rule.key))) && w1 == EncodeScalar(f.rule.key, e.key)
    requires t2 == Varint(Tag(2, WireType(f.kind))) && w2 == EncodeValue(S, f.kind, 2, e.value)
    ensures EncodeEntry(S, f, e) == t1 + w1 + t2 + w2
  {
  }

  /** Where the parts of an entry begin: its key, the tag of its value, its value. */
  lemma EntryParts(d: Source, f: Field, e: Entry, o: int, end: int) returns (p1: int, p2: int, p3: int)
    requires f.rule.MapOf? && IsScalar(f.rule.key) && GoodScalar(f.rule.key, e.key)
    requires At(d.bs, o, EncodeEntry(d.S, f, e)) && end == o + |EncodeEntry(d.S, f, e)|
    ensures TagAt(d, 1, WireType(f.rule.key), o, p1) && At(d.bs, p1, EncodeScalar(f.rule.key, e.key))
    ensures p1 < p2 == p1 + |EncodeScalar(f.rule.key, e.key)| && TagAt(d, 2, WireType(f.kind), p2, p3)
    ensures At(d.bs, p3, EncodeValue(d.S, f.kind, 2, e.value))
            && p3 <= end == p3 + |EncodeValue(d.S, f.kind, 2, e.value)|
  {
    var t1, w1 := Varint(Tag(1, WireType(f.rule.key))), EncodeScalar(f.rule.key, e.key);
    var t2, w2 := Varint(Tag(2, WireType(f.kind))), EncodeValue(d.S, f.kind, 2, e.value);
    FourParts(d.S, f, e, t1, w1, t2, w2);
    PlainBytes(d.S, f.rule.key, 1, e.key);
    p1, p2, p3 := PlacesOf(d.bs, o, EncodeEntry(d.S, f, e), t1, w1, t2, w2, end);
  }

  ghost predicate GoodEntry(d: Source, f: Field, e: Entry) {
    && GoodField(d.S, f) && f.rule.MapOf? && GoodScalar(f.rule.key, e.key) && Survives(e.key)
    && GoodValue(d.S, f.kind, e.value) && Decodable(d, f.kind, e.value)
  }

  lemma KeyPart(d: Source, f: Field, key: Value, zero: Entry, o: int, q: int, next: int, end: int, fuel: nat,
                r: Parsed<Entry>)
    requires Bounded(d, end) && f.rule.MapOf? && IsScalar(f.rule.key) && GoodScalar(f.rule.key, key) && Survives(key)
             && fuel > 0
    requires TagAt(d, 1, WireType(f.rule.key), o, q)
    requires At(d.bs, q, EncodeScalar(f.rule.key, key)) && q <= next == q + |EncodeScalar(f.rule.key, key)| <= end
    requires DecodeEntry(d, f, end, next, zero.(key := CanonScalar(f.rule.key, key)), fuel - 1) == r
    ensures DecodeEntry(d, f, end, o, zero, fuel) == r
  {
    ScalarBack(f.rule.key, key, d.bs, end, q);
    KeyTurn(d, f, o, q, next, end, zero, CanonScalar(f.rule.key, key), fuel, r);
  }

  lemma {:induction false} ValuePart(d: Source, f: Field, value: Value, half: Entry, o: int, q: int, end: int,
                                     fuel: nat)
    requires Ready(d, end) && f.rule.MapOf? && GoodValue(d.S, f.kind, value) && Decodable(d, f.kind, value)
    requires TagAt(d, 2, WireType(f.kind), o, q)
    requires At(d.bs, q, EncodeValue(d.S, f.kind, 2, value)) && q <= end == q + |EncodeValue(d.S, f.kind, 2, value)|
             && fuel > end - q + 1
    ensures DecodeEntry(d, f, end, o, half, fuel) == Ok(half.(value := ExpectValue(d, f.kind, value)), end)
    decreases value, 2
  {
    ValueBack(d, end, f.kind, 2, value, q, fuel - 1);
    ValueTurn(d, f, o, q, end, half, ExpectValue(d, f.kind, value), fuel);
  }

  /** The two records of a map entry, read in a buffer that ends with it. */
  lemma {:induction false} EntryBack(d: Source, f: Field, e: Entry, zero: Entry, o: int, end: int, fuel: nat)
    requires Ready(d, end) && GoodEntry(d, f, e)
    requires At(d.bs, o, EncodeEntry(d.S, f, e)) && end == o + |EncodeEntry(d.S, f, e)| && fuel > end - o
    ensures DecodeEntry(d, f, end, o, zero, fuel) == Ok(ExpectEntry(d, f, e), end)
    decreases e, 0
  {
    var p1, p2, p3 := EntryParts(d, f, e, o, end);
    ValuePart(d, f, e.value, zero.(key := CanonScalar(f.rule.key, e.key)), p2, p3, end, fuel - 1);
    KeyPart(d, f, e.key, zero, o, p1, p2, end, fuel, Ok(ExpectEntry(d, f, e), end));
  }

  lemma {:induction false} PutFresh(kvs: seq<Entry>, e: Entry)
    requires forall i :: 0 <= i < |kvs| ==> kvs[i].key != e.key
    ensures PutEntry(kvs, e) == kvs + [e]
  {
    if |kvs| > 0 {
      PutFresh(kvs[1..], e);
    }
  }

  /** Every entry comes back, and no key twice. */
  ghost predicate GoodEntries(d: Source, f: Field, kvs: seq<Entry>) {
    && (forall k :: 0 <= k < |kvs| ==> GoodEntry(d, f, kvs[k]))
    && (forall k, l :: 0 <= k < l < |kvs| ==>
         CanonScalar(KeyKind(f), kvs[k].key) != CanonScalar(KeyKind(f), kvs[l].key))
  }

  lemma PutNext(d: Source, f: Field, kvs: seq<Entry>, j: nat)
    requires j < |kvs| && GoodEntries(d, f, kvs)
    ensures var all := ExpectEntries(d, f, kvs); PutEntry(all[..j], ExpectEntry(d, f, kvs[j])) == all[..j + 1]
  {
    var all := ExpectEntries(d, f, kvs);
    forall i | 0 <= i < j
      ensures all[i].key != all[j].key
    {
      assert all[i] == ExpectEntry(d, f, kvs[i]) && all[j] == ExpectEntry(d, f, kvs[j]);
    }
    PutFresh(all[..j], all[j]);
    assert all[..j + 1] == all[..j] + [all[j]];
  }

  lemma {:induction false} EntryField(d: Source, limit: int, f: Field, e: Entry, kvs: seq<Entry>, q: int, end: int,
                                      fuel: nat)
    requires Ready(d, limit) && GoodEntry(d, f, e)
    requires At(d.bs, q, Delimited(EncodeEntry(d.S, f, e))) && end == q + |Delimited(EncodeEntry(d.S, f, e))| <= limit
             && fuel > end - q
    ensures DecodeField(d, f, limit, LDELIM, q, Pairs(kvs), fuel) == Ok(Pairs(PutEntry(kvs, ExpectEntry(d, f, e))), end)
    decreases e, 1
  {
    var w := EncodeEntry(d.S, f, e);
    DelimitedAt(d.bs, limit, q, w);
    var p := q + |Varint(|w|)|;
    EntryBack(d, f, e, ZeroEntry(f), p, end, fuel);
    EntryTaken(d, limit, f, ExpectEntry(d, f, e), kvs, |w|, q, p, end, fuel);
  }

  function ZeroEntry(f: Field): Entry {
    Entry(ZeroOf(KeyKind(f)), ZeroOf(f.kind))
  }

  lemma EntryTaken(d: Source, limit: int, f: Field, e: Entry, kvs: seq<Entry>, n: nat, q: int, p: int, end: int,
                   fuel: nat)
    requires f.rule.MapOf? && Read32(d.bs, limit, q) == Ok(n, p) && Signed32(n) == n && end == p + n <= limit
    requires DecodeEntry(d, f, end, p, ZeroEntry(f), fuel) == Ok(e, end)
    ensures DecodeField(d, f, limit, LDELIM, q, Pairs(kvs), fuel) == Ok(Pairs(PutEntry(kvs, e)), end)
  {
    assert DecodeMapField(d, f, limit, q, Pairs(kvs), fuel) == Ok(Pairs(PutEntry(kvs, e)), end);
  }

  lemma {:induction false} EntryTurn(L: Loop, d: Source, limit: int, fr: Frame, i: nat, f: Field, e: Entry,
                                     kvs: seq<Entry>, kvs': seq<Entry>, o: int, q: int, end: int, acc: seq<Slot>,
                                     fuel: nat)
    requires Spot(L, d, limit, fr, i, f, acc) && !IsHidden(d, fr.t, f) && GoodEntry(d, f, e)
    requires acc[i] == Pairs(kvs) && kvs' == PutEntry(kvs, ExpectEntry(d, f, e))
    requires TagAt(d, f.id, LDELIM, o, q) && At(d.bs, q, Delimited(EncodeEntry(d.S, f, e)))
    requires q <= end == q + |Delimited(EncodeEntry(d.S, f, e))| && Reaches(fr, limit, end) && fuel > end - o
    ensures L(o, acc, fuel) == L(end, acc[i := Pairs(kvs')], fuel - 1)
    decreases e, 2
  {
    EntryField(d, limit, f, e, kvs, q, end, fuel - 1);
    LoopTakes(L, d, limit, fr, i, f, LDELIM, o, q, end, acc, Pairs(kvs'), fuel);
  }

  lemma AtThree(bs: seq<byte>, o: int, all: seq<byte>, a: seq<byte>, b: seq<byte>, c: seq<byte>)
    requires At(bs, o, all) && all == a + b + c
    ensures At(bs, o, a) && At(bs, o + |a|, b) && At(bs, o + |a| + |b|, c) && |all| == |a| + |b| + |c|
  {
    AtSplit(bs, o, a + b, c);
    AtSplit(bs, o, a, b);
  }

  lemma EntriesFirst(S: Schema, f: Field, kvs: seq<Entry>, j: nat, tag: seq<byte>, w: seq<byte>, rest: seq<byte>)
    requires j < |kvs| && tag == Varint(Tag(f.id, LDELIM)) && w == Delimited(EncodeEntry(S, f, kvs[j]))
    requires rest == EncodeEntries(S, f, kvs, j + 1)
    ensures EncodeEntries(S, f, kvs, j) == tag + w + rest
  {
  }

  lemma EntrySegments(d: Source, f: Field, kvs: seq<Entry>, j: nat, o: int, e: int) returns (q: int, end: int)
    requires j < |kvs| && At(d.bs, o, EncodeEntries(d.S, f, kvs, j)) && e == o + |EncodeEntries(d.S, f, kvs, j)|
    ensures TagAt(d, f.id, LDELIM, o, q) && At(d.bs, q, Delimited(EncodeEntry(d.S, f, kvs[j])))
    ensures q <= end == q + |Delimited(EncodeEntry(d.S, f, kvs[j]))|
    ensures At(d.bs, end, EncodeEntries(d.S, f, kvs, j + 1)) && end <= e == end + |EncodeEntries(d.S, f, kvs, j + 1)|
  {
    var tag, w, rest := Varint(Tag(f.id, LDELIM)), Delimited(EncodeEntry(d.S, f, kvs[j])),
      EncodeEntries(d.S, f, kvs, j + 1);
    EntriesFirst(d.S, f, kvs, j, tag, w, rest);
    AtThree(d.bs, o, EncodeEntries(d.S, f, kvs, j), tag, w, rest);
    q := o + |tag|;
    end := q + |w|;
  }

  ghost predicate EntriesAt(d: Source, limit: int, fr: Frame, f: Field, kvs: seq<Entry>, j: nat, o: int, e: int,
                            slot: Slot, fuel: nat) {
    && !IsHidden(d, fr.t, f) && GoodEntries(d, f, kvs) && j <= |kvs|
    && Within(d, limit, fr, EncodeEntries(d.S, f, kvs, j), o, e, fuel) && slot == Pairs(ExpectEntries(d, f, kvs)[..j])
  }

  lemma {:induction false} EntryStep(L: Loop, d: Source, limit: int, fr: Frame, i: nat, f: Field, kvs: seq<Entry>,
                                     j: nat, o: int, e: int, acc: seq<Slot>, slot: Slot, fuel: nat)
    returns (end: int)
    requires Spot(L, d, limit, fr, i, f, acc) && EntriesAt(d, limit, fr, f, kvs, j, o, e, acc[i], fuel) && j < |kvs|
    requires slot == Pairs(ExpectEntries(d, f, kvs)[..j + 1])
    ensures o < end && EntriesAt(d, limit, fr, f, kvs, j + 1, end, e, slot, fuel - 1)
    ensures L(o, acc, fuel) == L(end, acc[i := slot], fuel - 1)
    decreases kvs, |kvs| - j, 0
  {
    var all := ExpectEntries(d, f, kvs);
    var q;
    q, end := EntrySegments(d, f, kvs, j, o, e);
    PutNext(d, f, kvs, j);
    EntryTurn(L, d, limit, fr, i, f, kvs[j], all[..j], all[..j + 1], o, q, end, acc, fuel);
  }

  lemma {:induction false} EntriesBack(L: Loop, d: Source, limit: int, fr: Frame, i: nat, f: Field, kvs: seq<Entry>,
                                       j: nat, o: int, e: int, acc: seq<Slot>, fuel: nat)
    returns (fuel': nat)
    requires Spot(L, d, limit, fr, i, f, acc) && EntriesAt(d, limit, fr, f, kvs, j, o, e, acc[i], fuel)
    ensures fuel' + (e - o) >= fuel && L(o, acc, fuel) == L(e, acc[i := Pairs(ExpectEntries(d, f, kvs))], fuel')
    decreases kvs, |kvs| - j, 1
  {
    var all := ExpectEntries(d, f, kvs);
    if j == |kvs| {
      assert all[..j] == all && acc[i := Pairs(all)] == acc;
      fuel' := fuel;
    } else {
      var slot := Pairs(all[..j + 1]);
      var end := EntryStep(L, d, limit, fr, i, f, kvs, j, o, e, acc, slot, fuel);
      fuel' := EntriesBack(L, d, limit, fr, i, f, kvs, j + 1, end, e, acc[i := slot], fuel - 1);
      assert acc[i := slot][i := Pairs(all)] == acc[i := Pairs(all)];
    }
  }

  // ---------- fields the decoder does not have ----------

  lemma HiddenItem(L: Loop, d: Source, limit: int, fr: Frame, i: nat, f: Field, it: Item, o: int, p: int,
                   acc: seq<Slot>, fuel: nat)
    requires Spot(L, d, limit, fr, i, f, acc) && IsHidden(d, fr.t, f) && it.id == f.id && Passable(it)
    requires ItemAt(d, limit, it, o, p) && Reaches(fr, limit, p) && fuel >= p - o
    ensures L(o, acc, fuel) == L(p, acc, fuel - 1)
  {
    var q := TagSplit(d, limit, it, o, p);
    SkipsItem(d, limit, it, q, fuel);
    LoopSkips(L, d, limit, fr, i, f, ItemWire(it), o, q, p, acc, fuel);
  }

  lemma {:induction false} HiddenItems(L: Loop, d: Source, limit: int, fr: Frame, i: nat, f: Field, items: seq<Item>,
                                       o: int, e: int, acc: seq<Slot>, fuel: nat)
    returns (fuel': nat)
    requires Spot(L, d, limit, fr, i, f, acc) && IsHidden(d, fr.t, f)
    requires Renders(items, f.id, AllBytes(items)) && AllPassable(items)
             && Within(d, limit, fr, AllBytes(items), o, e, fuel)
    ensures fuel' + (e - o) >= fuel && L(o, acc, fuel) == L(e, acc, fuel')
    decreases items
  {
    if |items| == 0 {
      fuel' := fuel;
    } else {
      var it := items[0];
      AtSplit(d.bs, o, ItemBytes(it), AllBytes(items[1..]));
      var p := o + |ItemBytes(it)|;
      HiddenItem(L, d, limit, fr, i, f, it, o, p, acc, fuel);
      fuel' := HiddenItems(L, d, limit, fr, i, f, items[1..], p, e, acc, fuel - 1);
    }
  }

  /** A hidden field is passed over and leaves no trace. */
  lemma HiddenBack(L: Loop, d: Source, limit: int, fr: Frame, i: nat, f: Field, proto3: bool, slot: Slot, o: int,
                   e: int, acc: seq<Slot>, fuel: nat)
    returns (fuel': nat)
    requires Spot(L, d, limit, fr, i, f, acc) && IsHidden(d, fr.t, f)
    requires GoodField(d.S, f) && GoodSlot(d.S, f, slot) && SkippableSlot(d.S, f, slot)
    requires Within(d, limit, fr, EncodeField(d.S, f, proto3, slot), o, e, fuel)
    ensures fuel' + (e - o) >= fuel && L(o, acc, fuel) == L(e, acc, fuel')
  {
    FieldBytes(d.S, f, proto3, slot);
    FieldPassable(d.S, f, proto3, slot);
    fuel' := HiddenItems(L, d, limit, fr, i, f, FieldItems(d.S, f, proto3, slot), o, e, acc, fuel);
  }

  // ---------- the theorems ----------

  /** Decoding a whole buffer. */
  function Decode(d: Source, t: nat, fuel: nat): Parsed<seq<Slot>> {
    DecodeMessage(d, |d.bs|, Frame(t, 0, -1, None), fuel)
  }

  /**
    Forward compatibility: a decoder that lacks the hidden fields gets exactly the rest of the message
    and reads exactly the bytes that were written.
   */
  lemma ForwardCompatible(d: Source, t: nat, slots: seq<Slot>, fuel: nat)
    requires GoodSchema(d.S) && t in d.S && GoodSlots(d.S, t, slots) && DecodableSlots(d, t, slots)
    requires d.bs == EncodeSlots(d.S, t, slots, 0) && |d.bs| < W31 && fuel > |d.bs|
    ensures Decode(d, t, fuel) == Ok(ExpectSlots(d, t, slots), |d.bs|)
  {
    MessageBack(d, |d.bs|, Frame(t, 0, -1, None), slots, fuel);
  }

  // ---------- when nothing changes ----------

  /** The numbers of a type. */
  predicate Holds(k: Kind, n: int) {
    match k
    case Int64 => -W63 <= n < W63
    case SInt64 => -W63 <= n < W63
    case SFixed64 => -W63 <= n < W63
    case UInt64 => 0 <= n < W64
    case Fixed64 => 0 <= n < W64
    case UInt32 => 0 <= n < W32
    case Fixed32 => 0 <= n < W32
    case _ => -W31 <= n < W31
  }

  predicate ExactScalar(k: Kind, v: Value) {
    v.Num? ==> Holds(k, v.n)
  }

  /** A value its type can hold as it is. */
  ghost predicate ExactValue(d: Source, k: Kind, v: Value)
    decreases v
  {
    if IsScalar(k) || !v.Sub? || k.t !in d.S then ExactScalar(k, v) else ExactSlots(d, k.t, v.slots)
  }

  ghost predicate ExactSlots(d: Source, t: nat, slots: seq<Slot>)
    requires t in d.S
    decreases slots
  {
    forall i :: 0 <= i < |slots| && i < |d.S[t].fields| ==> ExactSlot(d, d.S[t].fields[i], d.S[t].proto3, slots[i])
  }

  /** What is absent has no default; a proto3 zero, which is not written, is the default. */
  ghost predicate ExactSlot(d: Source, f: Field, proto3: bool, slot: Slot)
    decreases slot
  {
    match slot
    case Absent => f.default.None?
    case One(v) =>
      ExactValue(d, f.kind, v) && (proto3 && IsScalar(f.kind) && v == ZeroOf(f.kind) ==> f.default == Some(v))
    case Many(vs) => forall i :: 0 <= i < |vs| ==> ExactValue(d, f.kind, vs[i])
    case Pairs(kvs) =>
      forall i :: 0 <= i < |kvs| ==> ExactScalar(KeyKind(f), kvs[i].key) && ExactValue(d, f.kind, kvs[i].value)
  }

  lemma SameScalar(k: Kind, v: Value)
    requires ExactScalar(k, v)
    ensures CanonScalar(k, v) == v
  {
  }

  lemma {:induction false} SameValue(d: Source, k: Kind, v: Value)
    requires GoodValue(d.S, k, v) && ExactValue(d, k, v) && d.hidden == {}
    ensures ExpectValue(d, k, v) == v
    decreases v
  {
    if !IsScalar(k) {
      SameSlots(d, k.t, v.slots);
    } else {
      SameScalar(k, v);
    }
  }

  lemma {:induction false} SameSlots(d: Source, t: nat, slots: seq<Slot>)
    requires t in d.S && GoodSlots(d.S, t, slots) && ExactSlots(d, t, slots) && d.hidden == {}
    ensures ExpectSlots(d, t, slots) == slots
    decreases slots
  {
    forall i | 0 <= i < |slots|
      ensures Finished(d, t, d.S[t].fields[i], LoopSlot(d, t, d.S[t].fields[i], d.S[t].proto3, slots[i])) == slots[i]
    {
      SameSlot(d, t, d.S[t].fields[i], d.S[t].proto3, slots[i]);
    }
  }

  lemma {:induction false} SameSlot(d: Source, t: nat, f: Field, proto3: bool, slot: Slot)
    requires GoodSlot(d.S, f, slot) && ExactSlot(d, f, proto3, slot) && d.hidden == {}
    ensures Finished(d, t, f, LoopSlot(d, t, f, proto3, slot)) == slot
    decreases slot
  {
    match slot
    case Absent =>
    case One(v) => SameValue(d, f.kind, v);
    case Many(vs) => SameValues(d, f.kind, vs);
    case Pairs(kvs) => SameEntries(d, f, kvs);
  }

  lemma {:induction false} SameValues(d: Source, k: Kind, vs: seq<Value>)
    requires d.hidden == {} && forall i :: 0 <= i < |vs| ==> GoodValue(d.S, k, vs[i]) && ExactValue(d, k, vs[i])
    ensures ExpectAll(d, k, vs) == vs
    decreases vs
  {
    forall i | 0 <= i < |vs|
      ensures ExpectAll(d, k, vs)[i] == vs[i]
    {
      SameValue(d, k, vs[i]);
    }
  }

  lemma {:induction false} SameEntry(d: Source, f: Field, e: Entry)
    requires d.hidden == {} && GoodValue(d.S, f.kind, e.value)
    requires ExactScalar(KeyKind(f), e.key) && ExactValue(d, f.kind, e.value)
    ensures ExpectEntry(d, f, e) == e
    decreases e
  {
    SameScalar(KeyKind(f), e.key);
    SameValue(d, f.kind, e.value);
  }

  lemma {:induction false} SameEntries(d: Source, f: Field, kvs: seq<Entry>)
    requires d.hidden == {} && forall i :: 0 <= i < |kvs| ==> GoodValue(d.S, f.kind, kvs[i].value)
    requires forall i :: 0 <= i < |kvs| ==>
               ExactScalar(KeyKind(f), kvs[i].key) && ExactValue(d, f.kind, kvs[i].value)
    ensures ExpectEntries(d, f, kvs) == kvs
    decreases kvs
  {
    forall i | 0 <= i < |kvs|
      ensures ExpectEntries(d, f, kvs)[i] == kvs[i]
    {
      SameEntry(d, f, kvs[i]);
    }
  }

  /** decode(encode(m)) is m. */
  lemma RoundTrip(d: Source, t: nat, slots: seq<Slot>, fuel: nat)
    requires GoodSchema(d.S) && t in d.S && GoodSlots(d.S, t, slots) && DecodableSlots(d, t, slots)
             && ExactSlots(d, t, slots)
    requires d.hidden == {} && d.bs == EncodeSlots(d.S, t, slots, 0) && |d.bs| < W31 && fuel > |d.bs|
    ensures Decode(d, t, fuel) == Ok(slots, |d.bs|)
  {
    ForwardCompatible(d, t, slots, fuel);
    SameSlots(d, t, slots);
  }

  // ---------- a group inside a group that is not known ----------

  /** Group 1 around group 2 around the varint 5 in field 3. */
  const NESTED: seq<byte> := [0x0B, 0x13, 0x18, 0x05, 0x14, 0x0C]

  lemma NestedSkips(bs: seq<byte>)
    requires bs == NESTED
    ensures SkipRecord(bs, 6, 1, 1) == Ok(true, 4) && SkipRecord(bs, 6, 1, 4) == Fail
  {
    assert Read32(bs, 6, 1) == Ok(0x13, 2);
    assert Read32(bs, 6, 2) == Ok(0x18, 3);
    assert SkipRecord(bs, 6, 2, 2) == Ok(true, 4);
    assert Read32(bs, 6, 4) == Ok(0x14, 5);
  }

  /** A decoder that does not know group 1 refuses these bytes, with any schema and however long it may run. */
  lemma NestedGroupRefused(d: Source, t: nat, fuel: nat)
    requires d.bs == NESTED && t in d.S
    requires Find(d.S[t].fields, 1) == |d.S[t].fields|
    ensures Decode(d, t, fuel).Fail?
  {
    NestedSkips(d.bs);
    assert Read32(d.bs, 6, 0) == Ok(0x0B, 1);
    if fuel > 0 {
      assert SkipGroup(d.bs, 6, 1, 4, fuel - 1).Fail?;
      assert SkipGroup(d.bs, 6, 1, 1, fuel).Fail?;
    }
    assert DecodeLoop(d, 6, Frame(t, 0, -1, None), 0, InitialSlots(d, t), fuel).Fail?;
  }
}

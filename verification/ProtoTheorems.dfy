/** Decoding what was encoded, by a decoder that may not know every field. */
module ProtoTheorems {
  import opened Common
  import opened Wire
  import opened Proto
  import opened ProtoDecode
  import opened ProtoMessage

  // ---------- what the decoder should make of a message ----------

  function ExpectValue(d: Source, k: Kind, v: Value): Value
    decreases v
  {
    if IsScalar(k) || !v.Sub? || k.t !in d.S then CanonScalar(k, v) else Sub(ExpectSlots(d, k.t, v.slots))
  }

  function ExpectAll(d: Source, k: Kind, vs: seq<Value>): (r: seq<Value>)
    ensures |r| == |vs|
    decreases vs
  {
    seq(|vs|, i requires 0 <= i < |vs| => ExpectValue(d, k, vs[i]))
  }

  function ExpectEntry(d: Source, f: Field, e: Entry): Entry
    decreases e
  {
    Entry(CanonScalar(KeyKind(f), e.key), ExpectValue(d, f.kind, e.value))
  }

  function ExpectEntries(d: Source, f: Field, kvs: seq<Entry>): (r: seq<Entry>)
    ensures |r| == |kvs|
    decreases kvs
  {
    seq(|kvs|, i requires 0 <= i < |kvs| => ExpectEntry(d, f, kvs[i]))
  }

  /** A field's slot when the loop has ended: fields the decoder lacks stay hollow. */
  function LoopSlot(d: Source, t: nat, f: Field, proto3: bool, slot: Slot): Slot
    decreases slot
  {
    if IsHidden(d, t, f) then Hollow(f)
    else
      match slot
      case Absent => Blank(f, proto3)
      case One(v) => if HasWirePresence(f, proto3, v) then One(ExpectValue(d, f.kind, v)) else Blank(f, proto3)
      case Many(vs) => Many(ExpectAll(d, f.kind, vs))
      case Pairs(kvs) => Pairs(ExpectEntries(d, f, kvs))
  }

  function Finished(d: Source, t: nat, f: Field, slot: Slot): Slot {
    if !IsHidden(d, t, f) && slot.Absent? then DefaultSlot(f) else slot
  }

  function ExpectSlots(d: Source, t: nat, slots: seq<Slot>): (r: seq<Slot>)
    requires t in d.S
    ensures |r| == |slots|
    decreases slots
  {
    var fields, proto3 := d.S[t].fields, d.S[t].proto3;
    seq(|slots|, i requires 0 <= i < |slots| =>
      if i < |fields| then Finished(d, t, fields[i], LoopSlot(d, t, fields[i], proto3, slots[i])) else slots[i])
  }

  // ---------- on which messages ----------

  /** Inside a group the decoder does not know, groups must be empty: they are entered only once. */
  ghost predicate Flat(S: Schema, t: nat, slots: seq<Slot>) {
    t in S && forall i :: 0 <= i < |slots| && i < |S[t].fields| ==> FlatSlot(S, S[t].fields[i], slots[i])
  }

  ghost predicate EmptyGroup(S: Schema, k: Kind, v: Value) {
    k.Group? ==> v.Sub? && k.t in S && EncodeSlots(S, k.t, v.slots, 0) == []
  }

  ghost predicate FlatSlot(S: Schema, f: Field, slot: Slot) {
    match slot
    case One(v) => EmptyGroup(S, f.kind, v)
    case Many(vs) => forall i :: 0 <= i < |vs| ==> EmptyGroup(S, f.kind, vs[i])
    case _ => true
  }

  ghost predicate Skippable(S: Schema, k: Kind, v: Value) {
    k.Group? ==> v.Sub? && Flat(S, k.t, v.slots)
  }

  ghost predicate SkippableSlot(S: Schema, f: Field, slot: Slot) {
    match slot
    case One(v) => Skippable(S, f.kind, v)
    case Many(vs) => forall i :: 0 <= i < |vs| ==> Skippable(S, f.kind, vs[i])
    case _ => true
  }

  ghost predicate Decodable(d: Source, k: Kind, v: Value)
    decreases v
  {
    if IsScalar(k) then Survives(v) else k.t in d.S && v.Sub? && DecodableSlots(d, k.t, v.slots)
  }

  ghost predicate DecodableSlots(d: Source, t: nat, slots: seq<Slot>)
    requires t in d.S
    decreases slots
  {
    forall i :: 0 <= i < |slots| && i < |d.S[t].fields| ==> DecodableSlot(d, t, d.S[t].fields[i], slots[i])
  }

  ghost predicate DecodableSlot(d: Source, t: nat, f: Field, slot: Slot)
    decreases slot
  {
    if IsHidden(d, t, f) then SkippableSlot(d.S, f, slot)
    else
      match slot
      case Absent => true
      case One(v) => Decodable(d, f.kind, v)
      case Many(vs) => forall i :: 0 <= i < |vs| ==> Decodable(d, f.kind, vs[i])
      case Pairs(kvs) =>
        && (forall i :: 0 <= i < |kvs| ==> Survives(kvs[i].key) && Decodable(d, f.kind, kvs[i].value))
        && (forall i, j :: 0 <= i < j < |kvs| ==>
             CanonScalar(KeyKind(f), kvs[i].key) != CanonScalar(KeyKind(f), kvs[j].key))
  }

  // ---------- one turn of the loop ----------

  predicate Bounded(d: Source, limit: int) {
    limit <= |d.bs| < W31
  }

  ghost predicate Ready(d: Source, limit: int) {
    GoodSchema(d.S) && Bounded(d, limit)
  }

  /** The frame still wants what lies before e. */
  predicate Reaches(fr: Frame, limit: int, e: int) {
    e <= limit && (e <= fr.start + fr.length || fr.length == -1)
  }

  lemma TagBack(d: Source, limit: int, o: int, id: nat, wireType: nat)
    requires At(d.bs, o, Varint(Tag(id, wireType))) && o + |Varint(Tag(id, wireType))| <= limit
    requires id < 0x2000_0000 && wireType < 8
    ensures Read32(d.bs, limit, o) == Ok(Tag(id, wireType), o + |Varint(Tag(id, wireType))|)
    ensures Tag(id, wireType) % 8 == wireType && Tag(id, wireType) / 8 == id
  {
    Read32OfVarint(d.bs, limit, o, Tag(id, wireType));
  }

  lemma {:induction false} FindIs(fields: seq<Field>, i: nat)
    requires i < |fields| && DistinctIds(fields)
    ensures Find(fields, fields[i].id) == i
  {
    if i > 0 {
      FindIs(fields[1..], i - 1);
    }
  }

  type Loop = (int, seq<Slot>, nat) -> Parsed<seq<Slot>>

  /** The decoding loop of one frame, as a value: proofs about its turns need not look inside. */
  ghost predicate IsLoop(L: Loop, d: Source, limit: int, fr: Frame) {
    forall o: int, acc: seq<Slot>, fuel: nat {:trigger DecodeLoop(d, limit, fr, o, acc, fuel)} ::
      L(o, acc, fuel) == DecodeLoop(d, limit, fr, o, acc, fuel)
  }

  /** Field i of the loop's type is f, and acc are the slots so far. */
  ghost predicate Spot(L: Loop, d: Source, limit: int, fr: Frame, i: nat, f: Field, acc: seq<Slot>) {
    && IsLoop(L, d, limit, fr) && Ready(d, limit)
    && fr.t in d.S && i < |d.S[fr.t].fields| == |acc| && d.S[fr.t].fields[i] == f
  }

  /** A tag stands from o to q. */
  ghost predicate TagAt(d: Source, id: nat, wireType: nat, o: int, q: int) {
    At(d.bs, o, Varint(Tag(id, wireType))) && o < q == o + |Varint(Tag(id, wireType))|
  }

  /** w stands from o to e, the frame wants it, and there are turns enough for it. */
  ghost predicate Within(d: Source, limit: int, fr: Frame, w: seq<byte>, o: int, e: int, fuel: nat) {
    At(d.bs, o, w) && e == o + |w| && Reaches(fr, limit, e) && fuel > e - o
  }

  /** One turn of the loop as far as the tag: a field that is known. */
  lemma LoopReads(L: Loop, d: Source, limit: int, fr: Frame, i: nat, f: Field, wireType: nat, o: int, q: int,
                  acc: seq<Slot>, fuel: nat)
    requires Spot(L, d, limit, fr, i, f, acc) && TagAt(d, f.id, wireType, o, q) && Reaches(fr, limit, q)
    requires wireType < 8 && wireType != 4 && fuel > 0
    ensures GoesOn(fr, limit, o) && Find(d.S[fr.t].fields, f.id) == i
    ensures Read32(d.bs, limit, o) == Ok(Tag(f.id, wireType), q)
    ensures Tag(f.id, wireType) % 8 == wireType && Tag(f.id, wireType) / 8 == f.id
  {
    SchemaType(d.S, fr.t);
    assert GoodField(d.S, d.S[fr.t].fields[i]);
    TagBack(d, limit, o, f.id, wireType);
    FindIs(d.S[fr.t].fields, i);
  }

  lemma LoopTakes(L: Loop, d: Source, limit: int, fr: Frame, i: nat, f: Field, wireType: nat, o: int, q: int, e: int,
                  acc: seq<Slot>, slot: Slot, fuel: nat)
    requires Spot(L, d, limit, fr, i, f, acc) && TagAt(d, f.id, wireType, o, q) && q <= e && Reaches(fr, limit, e)
    requires wireType < 8 && wireType != 4 && fuel > 0 && !IsHidden(d, fr.t, f)
    requires DecodeField(d, f, limit, wireType, q, acc[i], fuel - 1) == Ok(slot, e)
    ensures L(o, acc, fuel) == L(e, acc[i := slot], fuel - 1)
  {
    assert DecodeLoop(d, limit, fr, o, acc, fuel) == L(o, acc, fuel);
    assert DecodeLoop(d, limit, fr, e, acc[i := slot], fuel - 1) == L(e, acc[i := slot], fuel - 1);
    LoopReads(L, d, limit, fr, i, f, wireType, o, q, acc, fuel);
  }

  lemma LoopSkips(L: Loop, d: Source, limit: int, fr: Frame, i: nat, f: Field, wireType: nat, o: int, q: int, e: int,
                  acc: seq<Slot>, fuel: nat)
    requires Spot(L, d, limit, fr, i, f, acc) && TagAt(d, f.id, wireType, o, q) && q <= e && Reaches(fr, limit, e)
    requires wireType < 8 && wireType != 4 && fuel > 0 && IsHidden(d, fr.t, f)
    requires var r := SkipField(d.bs, limit, wireType, f.id, q, fuel); r.Ok? && r.next == e
    ensures L(o, acc, fuel) == L(e, acc, fuel - 1)
  {
    assert DecodeLoop(d, limit, fr, o, acc, fuel) == L(o, acc, fuel);
    assert DecodeLoop(d, limit, fr, e, acc, fuel - 1) == L(e, acc, fuel - 1);
    LoopReads(L, d, limit, fr, i, f, wireType, o, q, acc, fuel);
  }
}

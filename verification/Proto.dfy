/**
  Messages of a resolved schema and their encoding. A message is the sequence of its field slots, in
  the order of the fields of its type.
 */
module Proto {
  import opened Common
  import opened Wire
  import Utf

  datatype Kind =
    | Int32 | UInt32 | SInt32 | Fixed32 | SFixed32
    | Int64 | UInt64 | SInt64 | Fixed64 | SFixed64
    | Bool | Enum | Str | Bytes | Msg(t: nat) | Group(t: nat)

  datatype Rule = Required | Optional | Repeated | Packed | MapOf(key: Kind)

  datatype Field = Field(id: nat, rule: Rule, kind: Kind, default: Option<Value>)

  datatype MessageType = MessageType(fields: seq<Field>, proto3: bool)

  type Schema = map<nat, MessageType>

  datatype Value = Num(n: int) | Flag(b: bool) | Text(us: seq<Utf.Unit>) | Data(bs: seq<byte>) | Sub(slots: seq<Slot>)

  datatype Slot = Absent | One(v: Value) | Many(vs: seq<Value>) | Pairs(kvs: seq<Entry>)

  datatype Entry = Entry(key: Value, value: Value)

  // ---------- kinds ----------

  function WireType(k: Kind): nat {
    match k
    case Fixed64 => 1
    case SFixed64 => 1
    case Str => 2
    case Bytes => 2
    case Msg(_) => 2
    case Group(_) => 3
    case Fixed32 => 5
    case SFixed32 => 5
    case _ => 0
  }

  const LDELIM: nat := 2
  const ENDGROUP: nat := 4

  /** The bytes of a fixed-width number. */
  function Width(k: Kind): nat {
    if WireType(k) == 5 then 4 else 8
  }

  predicate IsPackable(k: Kind) {
    WireType(k) == 0 || WireType(k) == 1 || WireType(k) == 5
  }

  predicate IsScalar(k: Kind) {
    !k.Msg? && !k.Group?
  }

  function Tag(id: nat, wireType: nat): nat {
    id * 8 + wireType
  }

  /** `n | 0`. */
  function Signed32(n: int): int {
    var m := n % W32;
    if m >= W31 then m - W32 else m
  }

  function Signed64(n: int): int {
    var m := n % W64;
    if m >= W63 then m - W64 else m
  }

  // ---------- well-formed schemas and messages ----------

  ghost predicate DistinctIds(fields: seq<Field>) {
    forall i, j :: 0 <= i < j < |fields| ==> fields[i].id != fields[j].id
  }

  predicate KnownType(S: Schema, k: Kind) {
    (k.Msg? || k.Group?) ==> k.t in S
  }

  predicate GoodField(S: Schema, f: Field) {
    && 1 <= f.id < 0x2000_0000
    && KnownType(S, f.kind)
    && (f.rule.Packed? ==> IsPackable(f.kind))
    && (f.rule.MapOf? ==> IsScalar(f.rule.key))
  }

  ghost predicate GoodType(S: Schema, t: nat)
    requires t in S
  {
    && DistinctIds(S[t].fields)
    && (forall i :: 0 <= i < |S[t].fields| ==> GoodField(S, S[t].fields[i]))
    && (forall i :: 0 <= i < |S[t].fields| && S[t].proto3 ==> !S[t].fields[i].rule.Required?)
  }

  /** Names a type of a schema whose fields are wanted. */
  predicate Looked(S: Schema, t: nat) { true }

  ghost predicate GoodSchema(S: Schema) {
    forall t {:trigger Looked(S, t)} :: t in S ==> GoodType(S, t)
  }

  lemma SchemaType(S: Schema, t: nat)
    requires GoodSchema(S) && t in S
    ensures GoodType(S, t)
  {
    assert Looked(S, t);
  }

  lemma SchemaField(S: Schema, t: nat, i: nat)
    requires GoodSchema(S) && t in S && i < |S[t].fields|
    ensures GoodField(S, S[t].fields[i]) && (S[t].proto3 ==> !S[t].fields[i].rule.Required?)
  {
    SchemaType(S, t);
  }

  /** A value that verifyValue lets through, with a type the schema knows. */
  ghost predicate GoodScalar(k: Kind, v: Value) {
    match k
    case Bool => v.Flag?
    case Str => v.Text? && !Utf.Hangs(v.us)
    case Bytes => v.Data?
    case Int32 => v.Num? && v.n >= -W63
    case Int64 => v.Num? && -W63 <= v.n < W63
    case SInt64 => v.Num? && -W63 <= v.n < W63
    case SFixed64 => v.Num? && -W63 <= v.n < W63
    case UInt64 => v.Num? && 0 <= v.n < W64
    case Fixed64 => v.Num? && 0 <= v.n < W64
    case _ => v.Num?
  }

  ghost predicate GoodValue(S: Schema, k: Kind, v: Value)
    decreases v
  {
    if IsScalar(k) then GoodScalar(k, v)
    else k.t in S && v.Sub? && GoodSlots(S, k.t, v.slots)
  }

  ghost predicate GoodSlots(S: Schema, t: nat, slots: seq<Slot>)
    requires t in S
    decreases slots
  {
    && |slots| == |S[t].fields|
    && forall i :: 0 <= i < |slots| ==>
         GoodSlot(S, S[t].fields[i], slots[i]) && !IsNull(S[t].fields[i], S[t].proto3, slots[i])
  }

  /** In proto3 only a message may be null. */
  predicate IsNull(f: Field, proto3: bool, slot: Slot) {
    slot.Absent? && proto3 && !f.kind.Msg?
  }

  ghost predicate GoodSlot(S: Schema, f: Field, slot: Slot)
    decreases slot
  {
    match f.rule
    case Required => slot.One? && GoodValue(S, f.kind, slot.v)
    case Optional => slot.Absent? || (slot.One? && GoodValue(S, f.kind, slot.v))
    case MapOf(key) =>
      slot.Pairs? && forall i :: 0 <= i < |slot.kvs| ==>
        GoodScalar(key, slot.kvs[i].key) && GoodValue(S, f.kind, slot.kvs[i].value)
    case _ => slot.Many? && forall i :: 0 <= i < |slot.vs| ==> GoodValue(S, f.kind, slot.vs[i])
  }

  // ---------- encoding ----------

  function TextBytes(us: seq<Utf.Unit>): seq<byte> {
    var cps := Utf.CodePoints(us);
    if cps.None? then [] else Utf.EncodePoints(cps.value)
  }

  function Delimited(w: seq<byte>): seq<byte> {
    Varint(|w|) + w
  }

  function EncodeNumber(k: Kind, n: int): seq<byte> {
    match k
    case Int32 => if n < 0 then Varint(n % W64) else Varint(n % W32)
    case SInt32 => Varint(ZigZag(Signed32(n)))
    case Fixed32 => Fixed(n % W32, Width(k))
    case SFixed32 => Fixed(n % W32, Width(k))
    case Int64 => Varint(n % W64)
    case UInt64 => Varint(n % W64)
    case SInt64 => Varint(ZigZag(n))
    case Fixed64 => Fixed(n % W64, Width(k))
    case SFixed64 => Fixed(n % W64, Width(k))
    case _ => Varint(n % W32)
  }

  function EncodeScalar(k: Kind, v: Value): seq<byte> {
    match v
    case Num(n) => EncodeNumber(k, n)
    case Flag(b) => Varint(if b then 1 else 0)
    case Text(us) => Delimited(TextBytes(us))
    case Data(bs) => Delimited(bs)
    case Sub(_) => []
  }

  function EncodeValue(S: Schema, k: Kind, id: nat, v: Value): seq<byte>
    decreases v, 1
  {
    if IsScalar(k) || !v.Sub? || k.t !in S then EncodeScalar(k, v)
    else
      var w := EncodeSlots(S, k.t, v.slots, 0);
      if k.Msg? then Delimited(w) else w + Varint(Tag(id, ENDGROUP))
  }

  /** The fields from the i-th on. */
  function EncodeSlots(S: Schema, t: nat, slots: seq<Slot>, i: nat): seq<byte>
    requires t in S
    decreases slots, |slots| - i
  {
    if i >= |slots| || i >= |S[t].fields| then []
    else EncodeField(S, S[t].fields[i], S[t].proto3, slots[i]) + EncodeSlots(S, t, slots, i + 1)
  }

  /** mkDefault: the value that stands for a field nobody set. */
  function ZeroOf(k: Kind): Value {
    match k
    case Bool => Flag(false)
    case Str => Text([])
    case Bytes => Data([])
    case Msg(_) => Sub([])
    case Group(_) => Sub([])
    case _ => Num(0)
  }

  /** In proto3 a singular field that holds its type's default is not written. */
  predicate HasWirePresence(f: Field, proto3: bool, v: Value) {
    !proto3 ||
    match v
    case Num(n) => n != 0
    case Flag(b) => b
    case Text(us) => |us| > 0
    case Data(bs) => |bs| > 0
    case Sub(_) => true
  }

  function EncodeField(S: Schema, f: Field, proto3: bool, slot: Slot): seq<byte>
    decreases slot, 0
  {
    match slot
    case Absent => []
    case One(v) => if HasWirePresence(f, proto3, v) then EncodeRecord(S, f, v) else []
    case Many(vs) =>
      if |vs| == 0 then []
      else if f.rule.Packed? then Varint(Tag(f.id, LDELIM)) + Delimited(EncodeElements(S, f, vs, 0))
      else EncodeRecords(S, f, vs, 0)
    case Pairs(kvs) => EncodeEntries(S, f, kvs, 0)
  }

  /** In proto2 every value is written, whatever it is. */
  lemma WrittenAlways(S: Schema, f: Field, v: Value)
    ensures EncodeField(S, f, false, One(v)) == Varint(Tag(f.id, WireType(f.kind))) + EncodeValue(S, f.kind, f.id, v)
  {
  }

  /** In proto3 all but the zero of a scalar type is, and messages always are. */
  lemma WrittenUnlessZero(S: Schema, f: Field, v: Value)
    requires GoodValue(S, f.kind, v)
    ensures EncodeField(S, f, true, One(v))
         == if IsScalar(f.kind) && v == ZeroOf(f.kind) then []
            else Varint(Tag(f.id, WireType(f.kind))) + EncodeValue(S, f.kind, f.id, v)
    ensures EncodeField(S, f, true, One(v)) == [] <==> IsScalar(f.kind) && v == ZeroOf(f.kind)
  {
  }

  function EncodeRecord(S: Schema, f: Field, v: Value): seq<byte>
    decreases v, 2
  {
    Varint(Tag(f.id, WireType(f.kind))) + EncodeValue(S, f.kind, f.id, v)
  }

  function EncodeRecords(S: Schema, f: Field, vs: seq<Value>, i: nat): seq<byte>
    decreases vs, |vs| - i
  {
    if i >= |vs| then [] else EncodeRecord(S, f, vs[i]) + EncodeRecords(S, f, vs, i + 1)
  }

  function EncodeElements(S: Schema, f: Field, vs: seq<Value>, i: nat): seq<byte>
    decreases vs, |vs| - i
  {
    if i >= |vs| then [] else EncodeValue(S, f.kind, f.id, vs[i]) + EncodeElements(S, f, vs, i + 1)
  }

  function KeyKind(f: Field): Kind {
    if f.rule.MapOf? then f.rule.key else Int32
  }

  /** A map entry is a message with a key field 1 and a value field 2. */
  function EncodeEntry(S: Schema, f: Field, e: Entry): seq<byte>
    decreases e, 0
  {
    Varint(Tag(1, WireType(KeyKind(f)))) + EncodeScalar(KeyKind(f), e.key)
    + Varint(Tag(2, WireType(f.kind))) + EncodeValue(S, f.kind, 2, e.value)
  }

  function EncodeEntries(S: Schema, f: Field, kvs: seq<Entry>, i: nat): seq<byte>
    decreases kvs, |kvs| - i
  {
    if i >= |kvs| then []
    else Varint(Tag(f.id, LDELIM)) + Delimited(EncodeEntry(S, f, kvs[i])) + EncodeEntries(S, f, kvs, i + 1)
  }

  /** A negative int32 is written as the int64 of the same value, and a flag is the number 0 or 1. */
  lemma ScalarBytes(n: int, b: bool)
    requires -W31 <= n < W31
    ensures EncodeNumber(Int32, n) == EncodeNumber(Int64, n)
    ensures EncodeScalar(Bool, Flag(b)) == EncodeNumber(UInt32, if b then 1 else 0) == [if b then 1 else 0]
  {
  }

  // ---------- the calculated length ----------

  function CalculateNumber(k: Kind, n: int): nat {
    match k
    case Int32 => if n < 0 then CalculateVarint64(n % W64) else CalculateVarint32(n % W32)
    case SInt32 => CalculateVarint32(ZigZag(Signed32(n)))
    case Fixed32 => Width(k)
    case SFixed32 => Width(k)
    case Int64 => CalculateVarint64(n % W64)
    case UInt64 => CalculateVarint64(n % W64)
    case SInt64 => CalculateVarint64(ZigZag(n))
    case Fixed64 => Width(k)
    case SFixed64 => Width(k)
    case _ => CalculateVarint32(n % W32)
  }

  function CalculateScalar(k: Kind, v: Value): nat {
    match v
    case Num(n) => CalculateNumber(k, n)
    case Flag(_) => 1
    case Text(us) =>
      var cps := Utf.CodePoints(us);
      var n := if cps.None? then 0 else Utf.PointsLength(cps.value);
      CalculateVarint32(n) + n
    case Data(bs) => CalculateVarint32(|bs|) + |bs|
    case Sub(_) => 0
  }

  function CalculateValue(S: Schema, k: Kind, id: nat, v: Value): nat
    decreases v, 1
  {
    if IsScalar(k) || !v.Sub? || k.t !in S then CalculateScalar(k, v)
    else
      var n := CalculateSlots(S, k.t, v.slots, 0);
      if k.Msg? then CalculateVarint32(n) + n else n + CalculateVarint32(Tag(id, ENDGROUP))
  }

  function CalculateSlots(S: Schema, t: nat, slots: seq<Slot>, i: nat): nat
    requires t in S
    decreases slots, |slots| - i
  {
    if i >= |slots| || i >= |S[t].fields| then 0
    else CalculateField(S, S[t].fields[i], S[t].proto3, slots[i]) + CalculateSlots(S, t, slots, i + 1)
  }

  function CalculateField(S: Schema, f: Field, proto3: bool, slot: Slot): nat
    decreases slot, 0
  {
    match slot
    case Absent => 0
    case One(v) =>
      if HasWirePresence(f, proto3, v)
      then CalculateVarint32(Tag(f.id, WireType(f.kind))) + CalculateValue(S, f.kind, f.id, v) else 0
    case Many(vs) =>
      if |vs| == 0 then 0
      else if f.rule.Packed? then
        var n := CalculateElements(S, f, vs, 0);
        CalculateVarint32(Tag(f.id, LDELIM)) + CalculateVarint32(n) + n
      else CalculateRecords(S, f, vs, 0)
    case Pairs(kvs) => CalculateEntries(S, f, kvs, 0)
  }

  function CalculateElements(S: Schema, f: Field, vs: seq<Value>, i: nat): nat
    decreases vs, |vs| - i
  {
    if i >= |vs| then 0 else CalculateValue(S, f.kind, f.id, vs[i]) + CalculateElements(S, f, vs, i + 1)
  }

  function CalculateRecords(S: Schema, f: Field, vs: seq<Value>, i: nat): nat
    decreases vs, |vs| - i
  {
    if i >= |vs| then 0
    else
      CalculateVarint32(Tag(f.id, WireType(f.kind))) + CalculateValue(S, f.kind, f.id, vs[i])
      + CalculateRecords(S, f, vs, i + 1)
  }

  function CalculateEntry(S: Schema, f: Field, e: Entry): nat
    decreases e, 0
  {
    CalculateVarint32(Tag(1, WireType(KeyKind(f)))) + CalculateScalar(KeyKind(f), e.key)
    + CalculateVarint32(Tag(2, WireType(f.kind))) + CalculateValue(S, f.kind, 2, e.value)
  }

  function CalculateEntries(S: Schema, f: Field, kvs: seq<Entry>, i: nat): nat
    decreases kvs, |kvs| - i
  {
    if i >= |kvs| then 0
    else
      var n := CalculateEntry(S, f, kvs[i]);
      CalculateVarint32(Tag(f.id, LDELIM)) + CalculateVarint32(n) + n + CalculateEntries(S, f, kvs, i + 1)
  }

  // ---------- the two agree ----------

  lemma TagLength(id: nat, wireType: nat)
    requires id < 0x2000_0000 && wireType < 8
    ensures CalculateVarint32(Tag(id, wireType)) == |Varint(Tag(id, wireType))|
  {
    CalculateVarint32Exact(Tag(id, wireType));
  }

  lemma NumberLength(k: Kind, n: int)
    requires k.SInt64? ==> -W63 <= n < W63
    ensures CalculateNumber(k, n) == |EncodeNumber(k, n)|
  {
    ZigZagInverse(Signed32(n));
    ZigZagInverse(n);
    CalculateVarint32Exact(n % W32);
    CalculateVarint32Exact(ZigZag(Signed32(n)));
    CalculateVarint64Exact(n % W64);
    if k.SInt64? { CalculateVarint64Exact(ZigZag(n)); }
  }

  lemma DelimitedLength(w: seq<byte>)
    requires |Delimited(w)| < W31
    ensures |Delimited(w)| == CalculateVarint32(|w|) + |w|
  {
    CalculateVarint32Exact(|w|);
  }

  lemma ScalarLength(k: Kind, v: Value)
    requires GoodScalar(k, v) && |EncodeScalar(k, v)| < W31
    ensures CalculateScalar(k, v) == |EncodeScalar(k, v)|
  {
    match v
    case Num(n) => NumberLength(k, n);
    case Flag(b) =>
    case Text(us) =>
      Utf.PointsByUnits(us);
      Utf.PointsLengthExact(Utf.CodePoints(us).value);
      DelimitedLength(TextBytes(us));
    case Data(bs) => DelimitedLength(bs);
    case Sub(_) =>
  }

  lemma {:induction false} ValueLength(S: Schema, k: Kind, id: nat, v: Value)
    requires GoodSchema(S) && GoodValue(S, k, v) && 1 <= id < 0x2000_0000 && |EncodeValue(S, k, id, v)| < W31
    ensures CalculateValue(S, k, id, v) == |EncodeValue(S, k, id, v)|
    decreases v, 1
  {
    if IsScalar(k) {
      ScalarLength(k, v);
    } else {
      var w := EncodeSlots(S, k.t, v.slots, 0);
      SlotsLength(S, k.t, v.slots, 0);
      if k.Msg? { DelimitedLength(w); } else { TagLength(id, ENDGROUP); }
    }
  }

  /** calculate returns exactly the number of bytes that encode writes. */
  lemma {:induction false} SlotsLength(S: Schema, t: nat, slots: seq<Slot>, i: nat)
    requires GoodSchema(S) && t in S && GoodSlots(S, t, slots) && |EncodeSlots(S, t, slots, i)| < W31
    ensures CalculateSlots(S, t, slots, i) == |EncodeSlots(S, t, slots, i)|
    decreases slots, |slots| - i
  {
    if i < |slots| {
      SchemaField(S, t, i);
      FieldLength(S, S[t].fields[i], S[t].proto3, slots[i]);
      SlotsLength(S, t, slots, i + 1);
    }
  }

  lemma {:induction false} FieldLength(S: Schema, f: Field, proto3: bool, slot: Slot)
    requires GoodSchema(S) && GoodField(S, f) && GoodSlot(S, f, slot) && |EncodeField(S, f, proto3, slot)| < W31
    ensures CalculateField(S, f, proto3, slot) == |EncodeField(S, f, proto3, slot)|
    decreases slot, 0
  {
    match slot
    case Absent =>
    case One(v) =>
      if HasWirePresence(f, proto3, v) {
        TagLength(f.id, WireType(f.kind));
        ValueLength(S, f.kind, f.id, v);
      }
    case Many(vs) =>
      if |vs| > 0 && f.rule.Packed? {
        TagLength(f.id, LDELIM);
        ElementsLength(S, f, vs, 0);
        DelimitedLength(EncodeElements(S, f, vs, 0));
      } else if |vs| > 0 {
        RecordsLength(S, f, vs, 0);
      }
    case Pairs(kvs) => EntriesLength(S, f, kvs, 0);
  }

  lemma {:induction false} ElementsLength(S: Schema, f: Field, vs: seq<Value>, i: nat)
    requires GoodSchema(S) && GoodField(S, f) && |EncodeElements(S, f, vs, i)| < W31
    requires forall j :: 0 <= j < |vs| ==> GoodValue(S, f.kind, vs[j])
    ensures CalculateElements(S, f, vs, i) == |EncodeElements(S, f, vs, i)|
    decreases vs, |vs| - i
  {
    if i < |vs| {
      ValueLength(S, f.kind, f.id, vs[i]);
      ElementsLength(S, f, vs, i + 1);
    }
  }

  lemma {:induction false} RecordsLength(S: Schema, f: Field, vs: seq<Value>, i: nat)
    requires GoodSchema(S) && GoodField(S, f) && |EncodeRecords(S, f, vs, i)| < W31
    requires forall j :: 0 <= j < |vs| ==> GoodValue(S, f.kind, vs[j])
    ensures CalculateRecords(S, f, vs, i) == |EncodeRecords(S, f, vs, i)|
    decreases vs, |vs| - i
  {
    if i < |vs| {
      TagLength(f.id, WireType(f.kind));
      ValueLength(S, f.kind, f.id, vs[i]);
      RecordsLength(S, f, vs, i + 1);
    }
  }

  lemma {:induction false} EntryLength(S: Schema, f: Field, e: Entry)
    requires GoodSchema(S) && GoodField(S, f) && |EncodeEntry(S, f, e)| < W31
    requires GoodScalar(KeyKind(f), e.key) && GoodValue(S, f.kind, e.value)
    ensures CalculateEntry(S, f, e) == |EncodeEntry(S, f, e)|
    decreases e, 0
  {
    TagLength(1, WireType(KeyKind(f)));
    ScalarLength(KeyKind(f), e.key);
    TagLength(2, WireType(f.kind));
    ValueLength(S, f.kind, 2, e.value);
  }

  lemma {:induction false} EntriesLength(S: Schema, f: Field, kvs: seq<Entry>, i: nat)
    requires GoodSchema(S) && GoodField(S, f) && f.rule.MapOf? && |EncodeEntries(S, f, kvs, i)| < W31
    requires forall j :: 0 <= j < |kvs| ==> GoodScalar(f.rule.key, kvs[j].key) && GoodValue(S, f.kind, kvs[j].value)
    ensures CalculateEntries(S, f, kvs, i) == |EncodeEntries(S, f, kvs, i)|
    decreases kvs, |kvs| - i
  {
    if i < |kvs| {
      TagLength(f.id, LDELIM);
      EntryLength(S, f, kvs[i]);
      DelimitedLength(EncodeEntry(S, f, kvs[i]));
      EntriesLength(S, f, kvs, i + 1);
    }
  }
}

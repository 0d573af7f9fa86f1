/**
  Passing over what a decoder does not know. A message on the wire is a list of items: plain records, and
  groups around further items. An unknown group is passed over exactly when every group in it is empty.
 */
module ProtoSkip {
  import opened Common
  import opened Wire
  import opened Proto
  import opened ProtoDecode
  import opened ProtoMessage
  import opened ProtoTheorems

  // ---------- items ----------

  /** The payload of a record that is not a group. */
  datatype Shape = VarintShape(v: nat) | FixedShape(w: seq<byte>) | DelimitedShape(w: seq<byte>)

  datatype Item = Plain(id: nat, s: Shape) | Nest(id: nat, items: seq<Item>)

  function Payload(s: Shape): seq<byte> {
    match s
    case VarintShape(v) => Varint(v)
    case FixedShape(w) => w
    case DelimitedShape(w) => Delimited(w)
  }

  function ItemWire(it: Item): nat {
    match it
    case Nest(_, _) => 3
    case Plain(_, VarintShape(_)) => 0
    case Plain(_, FixedShape(w)) => if |w| == 4 then 5 else 1
    case Plain(_, DelimitedShape(_)) => LDELIM
  }

  function EndTag(id: nat): (w: seq<byte>)
    ensures |w| > 0
  {
    Varint(Tag(id, ENDGROUP))
  }

  function ItemTag(it: Item): (w: seq<byte>)
    ensures |w| > 0
  {
    Varint(Tag(it.id, ItemWire(it)))
  }

  /** What follows the tag. */
  function ItemBody(it: Item): seq<byte>
    decreases it, 0
  {
    match it
    case Plain(_, s) => Payload(s)
    case Nest(id, items) => AllBytes(items) + EndTag(id)
  }

  function ItemBytes(it: Item): (w: seq<byte>)
    ensures |w| > 0
    decreases it, 1
  {
    ItemTag(it) + ItemBody(it)
  }

  function AllBytes(items: seq<Item>): seq<byte>
    decreases items
  {
    if |items| == 0 then [] else ItemBytes(items[0]) + AllBytes(items[1..])
  }

  ghost predicate GoodItem(it: Item)
    decreases it
  {
    && it.id < 0x2000_0000
    && match it
       case Plain(_, s) => s.FixedShape? ==> |s.w| == 4 || |s.w| == 8
       case Nest(_, items) => GoodItems(items)
  }

  ghost predicate GoodItems(items: seq<Item>)
    decreases items
  {
    forall i :: 0 <= i < |items| ==> GoodItem(items[i])
  }

  /** Not a group, or one with nothing in it. */
  predicate Shallow(it: Item) {
    it.Nest? ==> it.items == []
  }

  predicate FlatItems(items: seq<Item>) {
    forall i :: 0 <= i < |items| ==> Shallow(items[i])
  }

  /** What the decoder can pass over when it does not know the item's field. */
  predicate Passable(it: Item) {
    it.Nest? ==> FlatItems(it.items)
  }

  // ---------- one record of an unknown group ----------

  lemma {:induction false} SkipVarintBack(bs: seq<byte>, o: int, v: nat)
    requires At(bs, o, Varint(v))
    ensures SkipVarint(bs, o) == Ok(true, o + |Varint(v)|)
    decreases v
  {
    assert bs[o + 0] == Varint(v)[0];
    if v >= 128 {
      AtSplit(bs, o, [v % 128 + 128], Varint(v / 128));
      SkipVarintBack(bs, o + 1, v / 128);
    }
  }

  /** The item stands from o to p. */
  ghost predicate ItemAt(d: Source, limit: int, it: Item, o: int, p: int) {
    Bounded(d, limit) && GoodItem(it) && At(d.bs, o, ItemBytes(it)) && o < p == o + |ItemBytes(it)| <= limit
  }

  /** The items and the end tag of a group stand from o to e. */
  ghost predicate GroupAt(d: Source, limit: int, items: seq<Item>, id: nat, o: int, e: int) {
    && Bounded(d, limit) && GoodItems(items) && id < 0x2000_0000
    && At(d.bs, o, AllBytes(items)) && At(d.bs, o + |AllBytes(items)|, EndTag(id))
    && o < e == o + |AllBytes(items)| + |EndTag(id)| <= limit
  }

  lemma TailsGood(items: seq<Item>)
    requires |items| > 0 && GoodItems(items)
    ensures GoodItem(items[0]) && GoodItems(items[1..])
  {
  }

  lemma GroupSplit(d: Source, limit: int, items: seq<Item>, id: nat, o: int, e: int) returns (p: int)
    requires GroupAt(d, limit, items, id, o, e) && |items| > 0
    ensures p == o + |ItemBytes(items[0])| < e
    ensures ItemAt(d, limit, items[0], o, p) && GroupAt(d, limit, items[1..], id, p, e)
  {
    var a, b := ItemBytes(items[0]), AllBytes(items[1..]);
    assert AllBytes(items) == a + b;
    TailsGood(items);
    AtSplit(d.bs, o, a, b);
    p := o + |a|;
  }

  lemma TagSplit(d: Source, limit: int, it: Item, o: int, p: int) returns (q: int)
    requires ItemAt(d, limit, it, o, p)
    ensures q == o + |ItemTag(it)| && At(d.bs, o, ItemTag(it)) && At(d.bs, q, ItemBody(it))
            && o < q <= p == q + |ItemBody(it)|
  {
    AtSplit(d.bs, o, ItemTag(it), ItemBody(it));
    q := o + |ItemTag(it)|;
  }

  lemma BodySplit(d: Source, limit: int, it: Item, q: int, p: int)
    requires Bounded(d, limit) && GoodItem(it) && it.Nest? && At(d.bs, q, ItemBody(it))
             && p == q + |ItemBody(it)| <= limit
    ensures GroupAt(d, limit, it.items, it.id, q, p)
  {
    AtSplit(d.bs, q, AllBytes(it.items), EndTag(it.id));
  }

  /** skipTillGroupEnd behind a tag whose number and type are known. */
  function SkipBehind(bs: seq<byte>, limit: int, wireType: nat, q: int): Parsed<bool> {
    if wireType == 0 then SkipVarint(bs, q)
    else if wireType == 1 then Ok(true, q + 8)
    else if wireType == 5 then Ok(true, q + 4)
    else
      var n := Read32(bs, limit, q);
      if n.Fail? then Fail else Ok(true, n.next + Signed32(n.value))
  }

  lemma SkipHead(d: Source, limit: int, group: nat, id: nat, wireType: nat, o: int, q: int)
    requires id < 0x2000_0000 && (wireType == 0 || wireType == 1 || wireType == LDELIM || wireType == 5)
    requires At(d.bs, o, Varint(Tag(id, wireType))) && q == o + |Varint(Tag(id, wireType))| <= limit
    ensures SkipRecord(d.bs, limit, group, o) == SkipBehind(d.bs, limit, wireType, q)
  {
    TagBack(d, limit, o, id, wireType);
  }

  lemma SkipsPayload(d: Source, limit: int, it: Item, q: int, p: int)
    requires Bounded(d, limit) && GoodItem(it) && it.Plain? && At(d.bs, q, Payload(it.s))
             && p == q + |Payload(it.s)| <= limit
    ensures SkipBehind(d.bs, limit, ItemWire(it), q) == Ok(true, p)
  {
    match it.s
    case VarintShape(v) => SkipVarintBack(d.bs, q, v);
    case FixedShape(w) =>
    case DelimitedShape(w) => DelimitedAt(d.bs, limit, q, w);
  }

  lemma SkipsPlain(d: Source, limit: int, group: nat, it: Item, o: int, p: int)
    requires ItemAt(d, limit, it, o, p) && it.Plain?
    ensures SkipRecord(d.bs, limit, group, o) == Ok(true, p)
  {
    var q := TagSplit(d, limit, it, o, p);
    SkipHead(d, limit, group, it.id, ItemWire(it), o, q);
    SkipsPayload(d, limit, it, q, p);
  }

  lemma SkipsEnd(d: Source, limit: int, group: nat, id: nat, o: int)
    requires id < 0x2000_0000 && At(d.bs, o, EndTag(id)) && o + |EndTag(id)| <= limit
    ensures SkipRecord(d.bs, limit, group, o) == if id == group then Ok(false, o + |EndTag(id)|) else Fail
  {
    TagBack(d, limit, o, id, ENDGROUP);
  }

  /** A group inside is entered, and what its first record is decides where it is left. */
  lemma EntersGroup(d: Source, limit: int, group: nat, it: Item, o: int, p: int) returns (q: int)
    requires ItemAt(d, limit, it, o, p) && it.Nest?
    ensures o < q && GroupAt(d, limit, it.items, it.id, q, p)
    ensures var inner := SkipRecord(d.bs, limit, it.id, q);
            SkipRecord(d.bs, limit, group, o) == if inner.Fail? then Fail else Ok(true, inner.next)
  {
    q := TagSplit(d, limit, it, o, p);
    BodySplit(d, limit, it, q, p);
    TagBack(d, limit, o, it.id, 3);
  }

  lemma SkipsShallow(d: Source, limit: int, group: nat, it: Item, o: int, p: int)
    requires ItemAt(d, limit, it, o, p) && Shallow(it)
    ensures SkipRecord(d.bs, limit, group, o) == Ok(true, p)
  {
    if it.Plain? {
      SkipsPlain(d, limit, group, it, o, p);
    } else {
      var q := EntersGroup(d, limit, group, it, o, p);
      SkipsEnd(d, limit, it.id, it.id, q);
    }
  }

  // ---------- the skipping loop ----------

  type Skip = (int, nat) -> Parsed<bool>

  /** The skipping loop of one unknown group, as a value. */
  ghost predicate IsSkip(G: Skip, d: Source, limit: int, group: nat) {
    forall o: int, fuel: nat {:trigger SkipGroup(d.bs, limit, group, o, fuel)} ::
      G(o, fuel) == SkipGroup(d.bs, limit, group, o, fuel)
  }

  lemma SkipTurn(G: Skip, d: Source, limit: int, group: nat, o: int, fuel: nat)
    requires IsSkip(G, d, limit, group) && fuel > 0
    ensures var r := SkipRecord(d.bs, limit, group, o);
            G(o, fuel) == if r.Ok? && r.value then G(r.next, fuel - 1) else r
  {
    assert SkipGroup(d.bs, limit, group, o, fuel) == G(o, fuel);
    var r := SkipRecord(d.bs, limit, group, o);
    if r.Ok? && r.value {
      assert SkipGroup(d.bs, limit, group, r.next, fuel - 1) == G(r.next, fuel - 1);
    }
  }

  /** Items without groups in groups are passed over one by one, to the end tag. */
  lemma {:induction false} SkipsFlat(G: Skip, d: Source, limit: int, group: nat, items: seq<Item>, o: int, e: int,
                                     fuel: nat)
    requires IsSkip(G, d, limit, group) && GroupAt(d, limit, items, group, o, e) && FlatItems(items) && fuel >= e - o
    ensures G(o, fuel) == Ok(false, e)
    decreases items
  {
    SkipTurn(G, d, limit, group, o, fuel);
    if |items| == 0 {
      SkipsEnd(d, limit, group, group, o);
    } else {
      var p := GroupSplit(d, limit, items, group, o, e);
      SkipsShallow(d, limit, group, items[0], o, p);
      SkipsFlat(G, d, limit, group, items[1..], p, e, fuel - 1);
    }
  }

  ghost predicate NotPast(r: Parsed<bool>, e: int) {
    r.Fail? || r.next <= e
  }

  /**
    A group that is entered is left behind its first record, and the rest of it is taken for content of
    the unknown group: the loop fails at the inner end tag or takes it for its own.
   */
  lemma {:induction false} EnteredIsLost(G: Skip, d: Source, limit: int, group: nat, within: nat, items: seq<Item>,
                                         id: nat, o: int, e: int, fuel: nat)
    requires IsSkip(G, d, limit, group) && GroupAt(d, limit, items, id, o, e) && |items| > 0
    ensures var r := SkipRecord(d.bs, limit, within, o); r.Fail? || (r.value && NotPast(G(r.next, fuel), e))
    decreases items, 0
  {
    var it := items[0];
    var p := GroupSplit(d, limit, items, id, o, e);
    if Shallow(it) {
      SkipsShallow(d, limit, within, it, o, p);
      NotPastEnd(G, d, limit, group, items[1..], id, p, e, fuel);
    } else {
      NestIsLost(G, d, limit, group, within, it, o, p, fuel);
    }
  }

  lemma {:induction false} NestIsLost(G: Skip, d: Source, limit: int, group: nat, within: nat, it: Item, o: int,
                                      p: int, fuel: nat)
    requires IsSkip(G, d, limit, group) && ItemAt(d, limit, it, o, p) && !Shallow(it)
    ensures var r := SkipRecord(d.bs, limit, within, o); r.Fail? || (r.value && NotPast(G(r.next, fuel), p))
    decreases it
  {
    var q := EntersGroup(d, limit, within, it, o, p);
    EnteredIsLost(G, d, limit, group, it.id, it.items, it.id, q, p, fuel);
  }

  /** The loop never gets past the first end tag that has no start tag behind o. */
  lemma {:induction false} NotPastEnd(G: Skip, d: Source, limit: int, group: nat, items: seq<Item>, id: nat, o: int,
                                      e: int, fuel: nat)
    requires IsSkip(G, d, limit, group) && GroupAt(d, limit, items, id, o, e)
    ensures NotPast(G(o, fuel), e)
    decreases items, 1
  {
    if fuel == 0 {
      assert SkipGroup(d.bs, limit, group, o, fuel) == G(o, fuel);
    } else {
      SkipTurn(G, d, limit, group, o, fuel);
      if |items| == 0 {
        SkipsEnd(d, limit, group, id, o);
      } else {
        EnteredIsLost(G, d, limit, group, group, items, id, o, e, fuel - 1);
      }
    }
  }

  lemma {:induction false} StopsEarly(G: Skip, d: Source, limit: int, group: nat, items: seq<Item>, o: int, e: int,
                                      fuel: nat)
    requires IsSkip(G, d, limit, group) && GroupAt(d, limit, items, group, o, e) && !FlatItems(items)
    ensures NotPast(G(o, fuel), e - 1)
    decreases items
  {
    if fuel == 0 {
      assert SkipGroup(d.bs, limit, group, o, fuel) == G(o, fuel);
    } else {
      var it := items[0];
      SkipTurn(G, d, limit, group, o, fuel);
      var p := GroupSplit(d, limit, items, group, o, e);
      if Shallow(it) {
        SkipsShallow(d, limit, group, it, o, p);
        StopsEarly(G, d, limit, group, items[1..], p, e, fuel - 1);
      } else {
        NestIsLost(G, d, limit, group, group, it, o, p, fuel - 1);
      }
    }
  }

  ghost predicate ReachesEnd(r: Parsed<bool>, e: int) {
    r.Ok? && r.next == e
  }

  /** Behind the tag of an unknown field: its payload is passed over exactly when it is passable. */
  lemma SkipsItem(d: Source, limit: int, it: Item, o: int, fuel: nat)
    requires Bounded(d, limit) && GoodItem(it) && At(d.bs, o, ItemBody(it)) && o + |ItemBody(it)| <= limit
             && fuel > |ItemBody(it)|
    ensures ReachesEnd(SkipField(d.bs, limit, ItemWire(it), it.id, o, fuel), o + |ItemBody(it)|) <==> Passable(it)
  {
    match it
    case Nest(id, items) =>
      var e := o + |ItemBody(it)|;
      BodySplit(d, limit, it, o, e);
      var G: Skip := (o: int, fuel: nat) => SkipGroup(d.bs, limit, id, o, fuel);
      if FlatItems(items) {
        SkipsFlat(G, d, limit, id, items, o, e, fuel);
      } else {
        StopsEarly(G, d, limit, id, items, o, e, fuel);
      }
    case Plain(_, s) =>
      match s
      case VarintShape(n) => Read32OfVarint(d.bs, limit, o, n);
      case FixedShape(w) =>
      case DelimitedShape(w) => DelimitedAt(d.bs, limit, o, w);
  }

  // ---------- a message as items ----------

  function NumberShape(k: Kind, n: int): Shape {
    match k
    case Int32 => VarintShape(if n < 0 then n % W64 else n % W32)
    case SInt32 => VarintShape(ZigZag(Signed32(n)))
    case SInt64 => VarintShape(ZigZag(n))
    case Int64 => VarintShape(n % W64)
    case UInt64 => VarintShape(n % W64)
    case _ => if WireType(k) == 0 then VarintShape(n % W32) else FixedShape(EncodeNumber(k, n))
  }

  function ShapeOf(S: Schema, k: Kind, v: Value): Shape {
    match v
    case Num(n) => NumberShape(k, n)
    case Flag(b) => VarintShape(if b then 1 else 0)
    case Text(us) => DelimitedShape(TextBytes(us))
    case Data(w) => DelimitedShape(w)
    case Sub(slots) => DelimitedShape(if k.Msg? && k.t in S then EncodeSlots(S, k.t, slots, 0) else [])
  }

  function RecordItem(S: Schema, f: Field, v: Value): Item
    decreases v, 1
  {
    if f.kind.Group? && v.Sub? && f.kind.t in S then Nest(f.id, SlotItems(S, f.kind.t, v.slots, 0))
    else Plain(f.id, ShapeOf(S, f.kind, v))
  }

  function SlotItems(S: Schema, t: nat, slots: seq<Slot>, i: nat): seq<Item>
    requires t in S
    decreases slots, |slots| - i
  {
    if i >= |slots| || i >= |S[t].fields| then []
    else FieldItems(S, S[t].fields[i], S[t].proto3, slots[i]) + SlotItems(S, t, slots, i + 1)
  }

  function FieldItems(S: Schema, f: Field, proto3: bool, slot: Slot): seq<Item>
    decreases slot, 0
  {
    match slot
    case Absent => []
    case One(v) => if HasWirePresence(f, proto3, v) then [RecordItem(S, f, v)] else []
    case Many(vs) =>
      if |vs| == 0 then []
      else if f.rule.Packed? then [Plain(f.id, DelimitedShape(EncodeElements(S, f, vs, 0)))]
      else RecordItems(S, f, vs, 0)
    case Pairs(kvs) => EntryItems(S, f, kvs, 0)
  }

  function RecordItems(S: Schema, f: Field, vs: seq<Value>, i: nat): seq<Item>
    decreases vs, |vs| - i
  {
    if i >= |vs| then [] else [RecordItem(S, f, vs[i])] + RecordItems(S, f, vs, i + 1)
  }

  function EntryItems(S: Schema, f: Field, kvs: seq<Entry>, i: nat): seq<Item>
    decreases |kvs| - i
  {
    if i >= |kvs| then []
    else [Plain(f.id, DelimitedShape(EncodeEntry(S, f, kvs[i])))] + EntryItems(S, f, kvs, i + 1)
  }

  lemma {:induction false} BytesJoin(a: seq<Item>, b: seq<Item>)
    ensures AllBytes(a + b) == AllBytes(a) + AllBytes(b)
    decreases a
  {
    if |a| == 0 {
      assert a + b == b;
    } else {
      assert (a + b)[1..] == a[1..] + b;
      BytesJoin(a[1..], b);
    }
  }

  lemma BytesOne(it: Item)
    ensures AllBytes([it]) == ItemBytes(it)
  {
    assert [it][1..] == [];
  }

  lemma PlainBytes(S: Schema, k: Kind, id: nat, v: Value)
    requires GoodValue(S, k, v) && !k.Group?
    ensures var it := Plain(id, ShapeOf(S, k, v));
            && ItemWire(it) == WireType(k) && ItemBody(it) == EncodeValue(S, k, id, v)
            && (it.s.FixedShape? ==> |it.s.w| == 4 || |it.s.w| == 8)
            && |ItemBody(it)| > 0
  {
    if v.Num? {
      NumberBytes(k, v.n);
    }
  }

  lemma NumberBytes(k: Kind, n: int)
    requires GoodScalar(k, Num(n)) && IsScalar(k)
    ensures var s := NumberShape(k, n);
            && Payload(s) == EncodeNumber(k, n) && |Payload(s)| > 0 && !s.DelimitedShape?
            && (if s.VarintShape? then WireType(k) == 0 else WireType(k) == if |s.w| == 4 then 5 else 1)
            && (s.FixedShape? ==> |s.w| == 4 || |s.w| == 8)
  {
  }

  /** The items of a field all bear its number, and their bytes are the field's. */
  ghost predicate Renders(items: seq<Item>, id: nat, w: seq<byte>) {
    AllBytes(items) == w && forall i :: 0 <= i < |items| ==> items[i].id == id && GoodItem(items[i])
  }

  lemma RendersJoin(a: seq<Item>, b: seq<Item>, id: nat, v: seq<byte>, w: seq<byte>)
    requires Renders(a, id, v) && Renders(b, id, w)
    ensures Renders(a + b, id, v + w)
  {
    BytesJoin(a, b);
  }

  lemma {:induction false} RecordBytes(S: Schema, f: Field, v: Value)
    requires GoodSchema(S) && GoodField(S, f) && GoodValue(S, f.kind, v)
    ensures var it := RecordItem(S, f, v);
            && it.id == f.id && GoodItem(it) && ItemWire(it) == WireType(f.kind)
            && ItemBody(it) == EncodeValue(S, f.kind, f.id, v) && ItemBytes(it) == EncodeRecord(S, f, v)
    decreases v, 1
  {
    if f.kind.Group? {
      SlotsBytes(S, f.kind.t, v.slots, 0);
    } else {
      PlainBytes(S, f.kind, f.id, v);
    }
  }

  lemma {:induction false} SlotsBytes(S: Schema, t: nat, slots: seq<Slot>, i: nat)
    requires GoodSchema(S) && t in S && GoodSlots(S, t, slots)
    ensures AllBytes(SlotItems(S, t, slots, i)) == EncodeSlots(S, t, slots, i) && GoodItems(SlotItems(S, t, slots, i))
    decreases slots, |slots| - i
  {
    if i < |slots| {
      var f, proto3 := S[t].fields[i], S[t].proto3;
      SchemaField(S, t, i);
      FieldBytes(S, f, proto3, slots[i]);
      SlotsBytes(S, t, slots, i + 1);
      BytesJoin(FieldItems(S, f, proto3, slots[i]), SlotItems(S, t, slots, i + 1));
      GoodJoin(FieldItems(S, f, proto3, slots[i]), SlotItems(S, t, slots, i + 1));
    }
  }

  lemma GoodJoin(a: seq<Item>, b: seq<Item>)
    requires GoodItems(a) && GoodItems(b)
    ensures GoodItems(a + b)
  {
  }

  lemma {:induction false} FieldBytes(S: Schema, f: Field, proto3: bool, slot: Slot)
    requires GoodSchema(S) && GoodField(S, f) && GoodSlot(S, f, slot)
    ensures Renders(FieldItems(S, f, proto3, slot), f.id, EncodeField(S, f, proto3, slot))
    decreases slot, 0
  {
    match slot
    case Absent =>
    case One(v) =>
      if HasWirePresence(f, proto3, v) {
        RecordBytes(S, f, v);
        BytesOne(RecordItem(S, f, v));
      }
    case Many(vs) =>
      if |vs| > 0 && f.rule.Packed? {
        BytesOne(Plain(f.id, DelimitedShape(EncodeElements(S, f, vs, 0))));
      } else if |vs| > 0 {
        RecordsBytes(S, f, vs, 0);
      }
    case Pairs(kvs) => EntriesBytes(S, f, kvs, 0);
  }

  lemma {:induction false} RecordsBytes(S: Schema, f: Field, vs: seq<Value>, i: nat)
    requires GoodSchema(S) && GoodField(S, f) && forall j :: 0 <= j < |vs| ==> GoodValue(S, f.kind, vs[j])
    ensures Renders(RecordItems(S, f, vs, i), f.id, EncodeRecords(S, f, vs, i))
    decreases vs, |vs| - i
  {
    if i < |vs| {
      RecordBytes(S, f, vs[i]);
      BytesOne(RecordItem(S, f, vs[i]));
      RecordsBytes(S, f, vs, i + 1);
      RendersJoin([RecordItem(S, f, vs[i])], RecordItems(S, f, vs, i + 1), f.id,
        EncodeRecord(S, f, vs[i]), EncodeRecords(S, f, vs, i + 1));
    }
  }

  lemma {:induction false} EntriesBytes(S: Schema, f: Field, kvs: seq<Entry>, i: nat)
    requires GoodField(S, f)
    ensures Renders(EntryItems(S, f, kvs, i), f.id, EncodeEntries(S, f, kvs, i))
    decreases |kvs| - i
  {
    if i < |kvs| {
      var it := Plain(f.id, DelimitedShape(EncodeEntry(S, f, kvs[i])));
      BytesOne(it);
      EntriesBytes(S, f, kvs, i + 1);
      RendersJoin([it], EntryItems(S, f, kvs, i + 1), f.id, ItemBytes(it), EncodeEntries(S, f, kvs, i + 1));
    }
  }

  // ---------- flat messages have flat items ----------

  lemma EmptyIsShallow(S: Schema, f: Field, v: Value)
    requires GoodSchema(S) && GoodField(S, f) && GoodValue(S, f.kind, v)
    ensures EmptyGroup(S, f.kind, v) <==> Shallow(RecordItem(S, f, v))
  {
    if f.kind.Group? {
      SlotsBytes(S, f.kind.t, v.slots, 0);
    }
  }

  lemma {:induction false} RecordsFlat(S: Schema, f: Field, vs: seq<Value>, i: nat)
    requires GoodSchema(S) && GoodField(S, f) && forall j :: 0 <= j < |vs| ==> GoodValue(S, f.kind, vs[j])
    ensures FlatItems(RecordItems(S, f, vs, i)) <==> forall j :: i <= j < |vs| ==> EmptyGroup(S, f.kind, vs[j])
    decreases |vs| - i
  {
    if i < |vs| {
      EmptyIsShallow(S, f, vs[i]);
      FlatOne(RecordItem(S, f, vs[i]));
      RecordsFlat(S, f, vs, i + 1);
      FlatJoin([RecordItem(S, f, vs[i])], RecordItems(S, f, vs, i + 1));
    }
  }

  lemma FlatOne(it: Item)
    ensures FlatItems([it]) <==> Shallow(it)
  {
    assert [it][0] == it;
  }

  lemma FlatJoin(a: seq<Item>, b: seq<Item>)
    ensures FlatItems(a + b) <==> FlatItems(a) && FlatItems(b)
  {
    if FlatItems(a + b) {
      forall i | 0 <= i < |b|
        ensures Shallow(b[i])
      {
        assert (a + b)[|a| + i] == b[i];
      }
      forall i | 0 <= i < |a|
        ensures Shallow(a[i])
      {
        assert (a + b)[i] == a[i];
      }
    }
  }

  lemma {:induction false} EntriesFlat(S: Schema, f: Field, kvs: seq<Entry>, i: nat)
    ensures FlatItems(EntryItems(S, f, kvs, i))
    decreases |kvs| - i
  {
    if i < |kvs| {
      EntriesFlat(S, f, kvs, i + 1);
    }
  }

  lemma FieldFlat(S: Schema, f: Field, proto3: bool, slot: Slot)
    requires GoodSchema(S) && GoodField(S, f) && GoodSlot(S, f, slot)
    ensures FlatItems(FieldItems(S, f, proto3, slot)) <==> FlatSlot(S, f, slot)
  {
    match slot
    case Absent =>
    case One(v) =>
      EmptyIsShallow(S, f, v);
      FlatOne(RecordItem(S, f, v));
    case Many(vs) => if |vs| > 0 && !f.rule.Packed? { RecordsFlat(S, f, vs, 0); }
    case Pairs(kvs) => EntriesFlat(S, f, kvs, 0);
  }

  ghost predicate FlatFrom(S: Schema, t: nat, slots: seq<Slot>, i: nat)
    requires t in S && |slots| == |S[t].fields|
    decreases |slots| - i
  {
    i >= |slots| || (FlatSlot(S, S[t].fields[i], slots[i]) && FlatFrom(S, t, slots, i + 1))
  }

  lemma {:induction false} FlatThroughout(S: Schema, t: nat, slots: seq<Slot>, i: nat)
    requires t in S && |slots| == |S[t].fields|
    ensures FlatFrom(S, t, slots, i) <==> forall j :: i <= j < |slots| ==> FlatSlot(S, S[t].fields[j], slots[j])
    decreases |slots| - i
  {
    if i < |slots| {
      FlatThroughout(S, t, slots, i + 1);
    }
  }

  lemma {:induction false} SlotsFlat(S: Schema, t: nat, slots: seq<Slot>, i: nat)
    requires GoodSchema(S) && t in S && GoodSlots(S, t, slots)
    ensures FlatItems(SlotItems(S, t, slots, i)) <==> FlatFrom(S, t, slots, i)
    decreases |slots| - i
  {
    if i < |slots| {
      var f, proto3 := S[t].fields[i], S[t].proto3;
      SchemaField(S, t, i);
      FieldFlat(S, f, proto3, slots[i]);
      SlotsFlat(S, t, slots, i + 1);
      FlatJoin(FieldItems(S, f, proto3, slots[i]), SlotItems(S, t, slots, i + 1));
    }
  }

  lemma RecordPassable(S: Schema, f: Field, v: Value)
    requires GoodSchema(S) && GoodField(S, f) && GoodValue(S, f.kind, v)
    ensures Skippable(S, f.kind, v) <==> Passable(RecordItem(S, f, v))
  {
    if f.kind.Group? {
      SlotsFlat(S, f.kind.t, v.slots, 0);
      FlatThroughout(S, f.kind.t, v.slots, 0);
    }
  }

  predicate AllPassable(items: seq<Item>) {
    forall i :: 0 <= i < |items| ==> Passable(items[i])
  }

  lemma {:induction false} RecordsPassable(S: Schema, f: Field, vs: seq<Value>, i: nat)
    requires GoodSchema(S) && GoodField(S, f)
    requires forall j :: 0 <= j < |vs| ==> GoodValue(S, f.kind, vs[j]) && Skippable(S, f.kind, vs[j])
    ensures AllPassable(RecordItems(S, f, vs, i))
    decreases |vs| - i
  {
    if i < |vs| {
      RecordPassable(S, f, vs[i]);
      RecordsPassable(S, f, vs, i + 1);
    }
  }

  lemma {:induction false} EntriesPassable(S: Schema, f: Field, kvs: seq<Entry>, i: nat)
    ensures AllPassable(EntryItems(S, f, kvs, i))
    decreases |kvs| - i
  {
    if i < |kvs| {
      EntriesPassable(S, f, kvs, i + 1);
    }
  }

  lemma FieldPassable(S: Schema, f: Field, proto3: bool, slot: Slot)
    requires GoodSchema(S) && GoodField(S, f) && GoodSlot(S, f, slot) && SkippableSlot(S, f, slot)
    ensures AllPassable(FieldItems(S, f, proto3, slot))
  {
    match slot
    case Absent =>
    case One(v) => RecordPassable(S, f, v);
    case Many(vs) => if |vs| > 0 && !f.rule.Packed? { RecordsPassable(S, f, vs, 0); }
    case Pairs(kvs) => EntriesPassable(S, f, kvs, 0);
  }

  /**
    Message.decode on a payload it does not know, of any type: exactly its length, if and only if no group in
    it holds another.
   */
  lemma SkipsUnknown(d: Source, limit: int, f: Field, v: Value, o: int, fuel: nat)
    requires Ready(d, limit) && GoodField(d.S, f) && GoodValue(d.S, f.kind, v)
    requires var w := EncodeValue(d.S, f.kind, f.id, v); At(d.bs, o, w) && o + |w| <= limit && fuel > |w|
    ensures var r := SkipField(d.bs, limit, WireType(f.kind), f.id, o, fuel);
            r.Ok? && r.next == o + |EncodeValue(d.S, f.kind, f.id, v)| <==> Skippable(d.S, f.kind, v)
  {
    RecordBytes(d.S, f, v);
    RecordPassable(d.S, f, v);
    SkipsItem(d, limit, RecordItem(d.S, f, v), o, fuel);
  }
}

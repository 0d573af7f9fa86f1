/**
  Decoding messages with a schema that may lack some fields. A field hidden from the decoder is one its own
  version of the schema does not have. `fuel` bounds the turns of loops that negative lengths could keep going.
 */
module ProtoMessage {
  import opened Common
  import opened Wire
  import opened Proto
  import opened ProtoDecode

  /** hidden holds (type, field id) pairs. */
  datatype Source = Source(S: Schema, hidden: set<(nat, nat)>, bs: seq<byte>)

  /** One call of Message.decode: where it began, its length (-1 for none) and the group it must close. */
  datatype Frame = Frame(t: nat, start: int, length: int, group: Option<nat>)

  // ---------- skipping what is not known ----------

  /** `do readUint8 while high bit`. */
  function SkipVarint(bs: seq<byte>, o: int): (r: Parsed<bool>)
    ensures r.Ok? ==> r.next > o
    decreases |bs| - o
  {
    if o < 0 || o + 1 > |bs| then Fail
    else if bs[o] < 128 then Ok(true, o + 1)
    else SkipVarint(bs, o + 1)
  }

  /** skipTillGroupEnd: false at the end of the group. A group inside is entered once, not looped over. */
  function SkipRecord(bs: seq<byte>, limit: int, group: nat, o: int): Parsed<bool>
    decreases limit - o
  {
    var tag := Read32(bs, limit, o);
    if tag.Fail? || o > limit then Fail
    else
      var wireType, id := tag.value % 8, tag.value / 8;
      if wireType == 0 then SkipVarint(bs, tag.next)
      else if wireType == 1 then Ok(true, tag.next + 8)
      else if wireType == 2 then
        var n := Read32(bs, limit, tag.next);
        if n.Fail? then Fail else Ok(true, n.next + Signed32(n.value))
      else if wireType == 3 then
        var inner := SkipRecord(bs, limit, id, tag.next);
        if inner.Fail? then Fail else Ok(true, inner.next)
      else if wireType == 4 then if id == group then Ok(false, tag.next) else Fail
      else if wireType == 5 then Ok(true, tag.next + 4)
      else Fail
  }

  function SkipGroup(bs: seq<byte>, limit: int, group: nat, o: int, fuel: nat): Parsed<bool>
    decreases fuel
  {
    if fuel == 0 then Fail
    else
      var r := SkipRecord(bs, limit, group, o);
      if r.Fail? || !r.value then r else SkipGroup(bs, limit, group, r.next, fuel - 1)
  }

  function SkipField(bs: seq<byte>, limit: int, wireType: nat, id: nat, o: int, fuel: nat): Parsed<bool> {
    if wireType == 0 then
      var r := Read32(bs, limit, o);
      if r.Fail? then Fail else Ok(true, r.next)
    else if wireType == 5 then Ok(true, o + 4)
    else if wireType == 1 then Ok(true, o + 8)
    else if wireType == 2 then
      var n := Read32(bs, limit, o);
      if n.Fail? then Fail else Ok(true, n.next + Signed32(n.value))
    else if wireType == 3 then SkipGroup(bs, limit, id, o, fuel)
    else Fail
  }

  // ---------- the decoder ----------

  /** The field with an id, the number of fields when there is none. */
  function Find(fields: seq<Field>, id: nat): (i: nat)
    ensures i <= |fields| && (i < |fields| ==> fields[i].id == id)
  {
    if |fields| == 0 || fields[0].id == id then 0 else 1 + Find(fields[1..], id)
  }

  predicate IsHidden(d: Source, t: nat, f: Field) {
    (t, f.id) in d.hidden
  }

  /** What a field holds before anything is decoded, and for ever when the decoder does not have it. */
  function Hollow(f: Field): Slot {
    match f.rule
    case MapOf(_) => Pairs([])
    case Repeated => Many([])
    case Packed => Many([])
    case _ => Absent
  }

  function DefaultSlot(f: Field): Slot {
    if f.default.Some? then One(f.default.value) else Absent
  }

  function Blank(f: Field, proto3: bool): Slot {
    if (f.rule.Required? || (f.rule.Optional? && proto3)) && f.default.Some? then One(f.default.value) else Hollow(f)
  }

  function InitialSlots(d: Source, t: nat): (slots: seq<Slot>)
    requires t in d.S
    ensures |slots| == |d.S[t].fields|
  {
    var fields, proto3 := d.S[t].fields, d.S[t].proto3;
    seq(|fields|, i requires 0 <= i < |fields| =>
      if IsHidden(d, t, fields[i]) then Hollow(fields[i]) else Blank(fields[i], proto3))
  }

  /** Defaults for what is still absent; None where a required field is. */
  function Finish(d: Source, t: nat, slots: seq<Slot>): Option<seq<Slot>>
    requires t in d.S && |slots| == |d.S[t].fields|
  {
    var fields := d.S[t].fields;
    if exists i ::
        0 <= i < |slots| && !IsHidden(d, t, fields[i]) && fields[i].rule.Required? && slots[i].Absent?
    then None
    else Some(seq(|slots|, i requires 0 <= i < |slots| =>
      if !IsHidden(d, t, fields[i]) && slots[i].Absent? then DefaultSlot(fields[i]) else slots[i]))
  }

  predicate GoesOn(fr: Frame, limit: int, o: int) {
    o < fr.start + fr.length || (fr.length == -1 && limit - o > 0)
  }

  function DecodeValue(d: Source, k: Kind, id: nat, limit: int, o: int, fuel: nat): Parsed<Value>
    decreases fuel, 1
  {
    if IsScalar(k) then DecodeScalar(k, d.bs, limit, o)
    else if fuel == 0 then Fail
    else if k.Msg? then
      var n := Read32(d.bs, limit, o);
      if n.Fail? then Fail else AsValue(DecodeMessage(d, limit, Frame(k.t, n.next, Signed32(n.value), None), fuel - 1))
    else AsValue(DecodeMessage(d, limit, Frame(k.t, o, -1, Some(id)), fuel - 1))
  }

  function AsValue(r: Parsed<seq<Slot>>): Parsed<Value> {
    if r.Fail? then Fail else Ok(Sub(r.value), r.next)
  }

  function DecodeMessage(d: Source, limit: int, fr: Frame, fuel: nat): Parsed<seq<Slot>>
    decreases fuel, 3
  {
    if fr.t !in d.S then Fail
    else
      var r := DecodeLoop(d, limit, fr, fr.start, InitialSlots(d, fr.t), fuel);
      if r.Fail? || |r.value| != |d.S[fr.t].fields| then Fail
      else
        var done := Finish(d, fr.t, r.value);
        if done.None? then Fail else Ok(done.value, r.next)
  }

  function DecodeLoop(d: Source, limit: int, fr: Frame, o: int, slots: seq<Slot>, fuel: nat): Parsed<seq<Slot>>
    decreases fuel, 0
  {
    if !GoesOn(fr, limit, o) then Ok(slots, o)
    else
      var tag := Read32(d.bs, limit, o);
      if tag.Fail? || fuel == 0 || fr.t !in d.S then Fail
      else
        var wireType, id := tag.value % 8, tag.value / 8;
        var i := Find(d.S[fr.t].fields, id);
        if wireType == 4 then if fr.group == Some(id) then Ok(slots, tag.next) else Fail
        else if i >= |d.S[fr.t].fields| || i >= |slots| || IsHidden(d, fr.t, d.S[fr.t].fields[i]) then
          var r := SkipField(d.bs, limit, wireType, id, tag.next, fuel);
          if r.Fail? then Fail else DecodeLoop(d, limit, fr, r.next, slots, fuel - 1)
        else
          var r := DecodeField(d, d.S[fr.t].fields[i], limit, wireType, tag.next, slots[i], fuel - 1);
          if r.Fail? then Fail else DecodeLoop(d, limit, fr, r.next, slots[i := r.value], fuel - 1)
  }

  /** The new content of a field's slot. */
  function DecodeField(d: Source, f: Field, limit: int, wireType: nat, o: int, slot: Slot, fuel: nat): Parsed<Slot>
    decreases fuel, 3
  {
    if f.rule.MapOf? then if wireType != LDELIM then Fail else DecodeMapField(d, f, limit, o, slot, fuel)
    else if f.rule.Packed? && wireType == LDELIM && IsPackable(f.kind) then
      var n := Read32(d.bs, limit, o);
      if n.Fail? then Fail else
        var r := DecodePacked(f.kind, d.bs, limit, n.next, n.next + Signed32(n.value));
        if r.Fail? then Fail else Ok(Many(r.value), r.next)
    else if wireType != WireType(f.kind) then Fail
    else
      var r := DecodeValue(d, f.kind, f.id, limit, o, fuel);
      if r.Fail? then Fail
      else if f.rule.Repeated? then Ok(Many((if slot.Many? then slot.vs else []) + [r.value]), r.next)
      else Ok(One(r.value), r.next)
  }

  /** One entry of a map, in a slice of its own length. */
  function DecodeMapField(d: Source, f: Field, limit: int, o: int, slot: Slot, fuel: nat): Parsed<Slot>
    decreases fuel, 2
  {
    var n := Read32(d.bs, limit, o);
    if n.Fail? || limit - n.next < Signed32(n.value) then Fail
    else
      var end := n.next + Signed32(n.value);
      var r := DecodeEntry(d, f, end, n.next, Entry(ZeroOf(KeyKind(f)), ZeroOf(f.kind)), fuel);
      if r.Fail? then Fail else Ok(Pairs(PutEntry(if slot.Pairs? then slot.kvs else [], r.value)), end)
  }

  function DecodePacked(k: Kind, bs: seq<byte>, limit: int, o: int, end: int): Parsed<seq<Value>>
    requires IsPackable(k)
    decreases end - o
  {
    if o >= end then Ok([], o)
    else
      var r := DecodeScalar(k, bs, limit, o);
      if r.Fail? then Fail
      else
        var rest := DecodePacked(k, bs, limit, r.next, end);
        if rest.Fail? then Fail else Ok([r.value] + rest.value, rest.next)
  }

  /** The key/value message of a map entry, in a buffer of its own. */
  function DecodeEntry(d: Source, f: Field, end: int, o: int, e: Entry, fuel: nat): Parsed<Entry>
    decreases fuel, 1
  {
    if end - o <= 0 then Ok(e, o)
    else
      var tag := Read32(d.bs, end, o);
      if tag.Fail? || fuel == 0 then Fail
      else DecodeHalf(d, f, end, tag.next, e, tag.value % 8, tag.value / 8, fuel)
  }

  /** The key or the value of an entry behind its tag, then the rest. */
  function DecodeHalf(d: Source, f: Field, end: int, o: int, e: Entry, wireType: nat, id: nat, fuel: nat): Parsed<Entry>
    requires fuel > 0
    decreases fuel, 0
  {
    if id == 1 && wireType == WireType(KeyKind(f)) && IsScalar(KeyKind(f)) then
      var r := DecodeScalar(KeyKind(f), d.bs, end, o);
      if r.Fail? then Fail else DecodeEntry(d, f, end, r.next, e.(key := r.value), fuel - 1)
    else if id == 2 && wireType == WireType(f.kind) then
      var r := DecodeValue(d, f.kind, 2, end, o, fuel - 1);
      if r.Fail? then Fail else DecodeEntry(d, f, end, r.next, e.(value := r.value), fuel - 1)
    else Fail
  }

  /** A map holds one value a key. */
  function PutEntry(kvs: seq<Entry>, e: Entry): seq<Entry> {
    if |kvs| == 0 then [e]
    else if kvs[0].key == e.key then [e] + kvs[1..]
    else [kvs[0]] + PutEntry(kvs[1..], e)
  }
}

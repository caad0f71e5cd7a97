/**
  Decoding of the messages, as a function on byte sequences, and its laws: last one wins, and
  unknown fields are invisible.
 */
module Codec {
  import opened Wire
  import opened Skipping
  import opened Messages

  // ---- Decoding ------------------------------------------------------------------------------

  function SetRow(r: Row, num: int, p: Payload): Row
    requires Declared(RowKind, num) == Some(TypeOf(p))
  {
    if num == 1 then r.(timestamp := p.v)
    else if num == 10 then r.(keys := p.b)
    else r.(content := p.b)
  }

  function SetDialout(d: DialoutArgs, num: int, p: Payload): DialoutArgs
    requires Declared(DialoutKind, num) == Some(TypeOf(p))
  {
    if num == 1 then d.(reqId := ToInt64(p.v))
    else if num == 2 then d.(data := p.b)
    else d.(errors := p.b)
  }

  /** The member of the oneof that a field number between 4 and 12 selects. */
  function ReadValue(num: int, p: Payload): Value
    requires Declared(FieldKind, num) == Some(TypeOf(p)) && 4 <= num <= 12
  {
    if num == 4 then BytesValue(Some(p.b))
    else if num == 5 then StringValue(p.b)
    else if num == 6 then BoolValue(p.v != 0)
    else if num == 7 then Uint32Value(p.v % TWO_32)
    else if num == 8 then Uint64Value(p.v)
    else if num == 9 then Sint32Value(UnZigZag32(p.v % TWO_32))
    else if num == 10 then Sint64Value(UnZigZag64(p.v))
    else if num == 11 then DoubleValue(p.bits64)
    else FloatValue(p.bits32)
  }

  function SetScalar(f: Field, num: int, p: Payload): Field
    requires Declared(FieldKind, num) == Some(TypeOf(p)) && num != 15
  {
    if num == 1 then f.(timestamp := p.v)
    else if num == 2 then f.(name := p.b)
    else f.(value := Some(ReadValue(num, p)))
  }

  function SetTelemetryScalar(t: Telemetry, num: int, p: Payload): Telemetry
    requires Declared(TelemetryKind, num) == Some(TypeOf(p)) && num != 11 && num != 12
  {
    if num == 1 then t.(nodeId := Some(p.b))
    else if num == 3 then t.(subscription := Some(p.b))
    else if num == 6 then t.(encodingPath := p.b)
    else if num == 8 then t.(collectionId := p.v)
    else if num == 9 then t.(collectionStartTime := p.v)
    else if num == 10 then t.(msgTimestamp := p.v)
    else t.(collectionEndTime := p.v)
  }

  /** The `switch` of the decoding loop: what one declared field does to a message.  Repeated
      fields append a new element, the embedded table is merged into the one already there,
      everything else is overwritten. */
  function Apply(m: Message, num: int, p: Payload): (r: Result<Message>)
    requires Declared(KindOf(m), num) == Some(TypeOf(p))
    ensures r.Ok? ==> KindOf(r.value) == KindOf(m)
    decreases if p.Bytes? then |p.b| else 0, 1
  {
    match m
    case OfRow(r) => Ok(OfRow(SetRow(r, num, p)))
    case OfDialout(d) => Ok(OfDialout(SetDialout(d, num, p)))
    case OfTable(t) =>
      var row :- Decode(OfRow(EMPTY_ROW), p.b, 0);
      Ok(OfTable(Table(t.rows + [row.row])))
    case OfField(f) =>
      if num == 15 then
        var child :- Decode(OfField(EMPTY_FIELD), p.b, 0);
        Ok(OfField(f.(fields := f.fields + [child.field])))
      else Ok(OfField(SetScalar(f, num, p)))
    case OfTelemetry(t) =>
      if num == 11 then
        var child :- Decode(OfField(EMPTY_FIELD), p.b, 0);
        Ok(OfTelemetry(t.(dataGpbkv := t.dataGpbkv + [child.field])))
      else if num == 12 then
        var present := if t.dataGpb.Some? then t.dataGpb.value else EMPTY_TABLE;
        var table :- Decode(OfTable(present), p.b, 0);
        Ok(OfTelemetry(t.(dataGpb := Some(table.table))))
      else Ok(OfTelemetry(SetTelemetryScalar(t, num, p)))
  }

  /** One turn of the loop: an unknown field leaves the message as it is. */
  function ApplyItem(m: Message, item: Item): (r: Result<Message>)
    requires item.Known? ==> Declared(KindOf(m), item.num) == Some(TypeOf(item.payload))
    ensures r.Ok? ==> KindOf(r.value) == KindOf(m)
    decreases if item.Known? && item.payload.Bytes? then |item.payload.b| else 0, 2
  {
    match item
    case Known(num, payload) => Apply(m, num, payload)
    case Unknown => Ok(m)
  }

  /** `Unmarshal` into `m` of the bytes `s`, which start `at` bytes into the slice. */
  function Decode(m: Message, s: seq<byte>, at: nat): (r: Result<Message>)
    ensures r.Ok? ==> KindOf(r.value) == KindOf(m)
    decreases |s|, 0
  {
    if s == [] then Ok(m)
    else
      var next :- NextItem(KindOf(m), s, at);
      var m' :- ApplyItem(m, next.item);
      Decode(m', s[next.size..], at + next.size)
  }

  // ---- Last one wins ---------------------------------------------------------------------------

  /** Decoding a concatenation is decoding the second part into the result of the first: a
      later occurrence overwrites, appends to or merges with what the earlier ones left. */
  lemma {:induction false} MergeLaw(m: Message, a: seq<byte>, b: seq<byte>, at: nat)
    requires Decode(m, a, at).Ok?
    ensures Decode(m, a + b, at) == Decode(Decode(m, a, at).value, b, at + |a|)
    decreases |a|
  {
    hide NextItem, ApplyItem;
    if a == [] {
      assert a + b == b;
    } else {
      var next := NextItem(KindOf(m), a, at).value;
      ItemPrefix(KindOf(m), a, b, at);
      assert (a + b)[next.size..] == a[next.size..] + b;
      MergeLaw(ApplyItem(m, next.item).value, a[next.size..], b, at + next.size);
    }
  }

  /** The position in the slice affects no result, only which error an overrun reports. */
  lemma {:induction false} DecodeAnywhere(m: Message, s: seq<byte>, at: nat, at': nat)
    ensures SameOutcome(Decode(m, s, at), Decode(m, s, at'))
    decreases |s|
  {
    hide NextItem, ApplyItem;
    if s == [] {
    } else {
      ItemAnywhere(KindOf(m), s, at, at');
      if NextItem(KindOf(m), s, at).Ok? {
        var next := NextItem(KindOf(m), s, at).value;
        if ApplyItem(m, next.item).Ok? {
          DecodeAnywhere(ApplyItem(m, next.item).value, s[next.size..], at + next.size, at' + next.size);
        }
      }
    }
  }

  // ---- Unknown fields --------------------------------------------------------------------------

  /** The field number a tag spells, as the decoder computes it. */
  function TagNumber(f: WireField): int
    requires IsVarint(f.tag)
  {
    ToInt32(ReadVarint(f.tag).value.value / 8)
  }

  lemma UnknownIsInvisible(m: Message, f: WireField, s: seq<byte>, at: nat)
    requires WellFormed(f) && |FieldBytes(f)| < TWO_63
    requires TagNumber(f) > 0 && Declared(KindOf(m), TagNumber(f)) == None
    ensures Decode(m, FieldBytes(f) + s, at) == Decode(m, s, at + |FieldBytes(f)|)
  {
    hide ReadVarint, Skip, FieldBytes, WellFormed, Declared;
    var t := FieldBytes(f) + s;
    SkipExact(f, s);
    ReadFieldTag(f, s);
    assert t[|FieldBytes(f)|..] == s;
    assert NextItem(KindOf(m), t, at) == Ok(Scanned(Unknown, |FieldBytes(f)|));
  }

  /** Inserting a well-formed field with an undeclared number at any field boundary leaves
      the decoded message unchanged. */
  lemma UnknownFieldTransparency(m: Message, a: seq<byte>, f: WireField, b: seq<byte>)
    requires Decode(m, a, 0).Ok?
    requires WellFormed(f) && |FieldBytes(f)| < TWO_63
    requires TagNumber(f) > 0 && Declared(KindOf(m), TagNumber(f)) == None
    ensures SameOutcome(Decode(m, a + FieldBytes(f) + b, 0), Decode(m, a + b, 0))
  {
    hide Decode, FieldBytes, WellFormed, TagNumber, Declared;
    var m', w := Decode(m, a, 0).value, FieldBytes(f);
    assert a + w + b == a + (w + b);
    MergeLaw(m, a, w + b, 0);
    MergeLaw(m, a, b, 0);
    UnknownIsInvisible(m', f, b, |a|);
    DecodeAnywhere(m', b, |a| + |w|, |a|);
  }
}

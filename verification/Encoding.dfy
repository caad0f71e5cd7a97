/**
  What `Marshal` writes, as a list of records per message, and how `Codec.Decode` reads a list
  of records.
 */
module Encoding {
  import opened Wire
  import opened Messages
  import opened Codec

  // ---- Records ------------------------------------------------------------------------------

  datatype Record = Record(num: nat, payload: Payload)

  function EncodePayload(p: Payload): seq<byte> {
    match p
    case Number(v) => EncodeVarint(v)
    case Fixed64(bits) => LittleEndian(bits, 8)
    case Bytes(b) => EncodeVarint(|b|) + b
    case Fixed32(bits) => LittleEndian(bits, 4)
  }

  function EncodeRecord(r: Record): (s: seq<byte>)
    ensures |s| >= 1
  {
    EncodeVarint(8 * r.num + Code(TypeOf(r.payload))) + EncodePayload(r.payload)
  }

  function EncodeAll(rs: seq<Record>): seq<byte> {
    if rs == [] then [] else EncodeRecord(rs[0]) + EncodeAll(rs[1..])
  }

  lemma {:induction false} EncodeAllConcat(a: seq<Record>, b: seq<Record>)
    ensures EncodeAll(a + b) == EncodeAll(a) + EncodeAll(b)
  {
    hide EncodeRecord;
    if a == [] {
      assert a + b == b;
    } else {
      assert (a + b)[1..] == a[1..] + b;
      EncodeAllConcat(a[1..], b);
    }
  }

  // ---- What each message writes ----------------------------------------------------------------

  /** A number is written unless it is zero, a string unless it is empty. */
  function NumberRecord(num: nat, v: uint64): seq<Record> {
    if v == 0 then [] else [Record(num, Number(v))]
  }

  function BytesRecord(num: nat, b: seq<byte>): seq<Record> {
    if |b| == 0 then [] else [Record(num, Bytes(b))]
  }

  function OptionalRecord(num: nat, b: Option<seq<byte>>): seq<Record> {
    if b.None? then [] else [Record(num, Bytes(b.value))]
  }

  /** A member of a oneof is written even when it is zero or empty; only nil bytes are not. */
  function ValueRecord(v: Value): seq<Record> {
    match v
    case BytesValue(bytes) => OptionalRecord(4, bytes)
    case StringValue(text) => [Record(5, Bytes(text))]
    case BoolValue(flag) => [Record(6, Number(if flag then 1 else 0))]
    case Uint32Value(n) => [Record(7, Number(n))]
    case Uint64Value(n) => [Record(8, Number(n))]
    case Sint32Value(n) => [Record(9, Number(ZigZag32(n)))]
    case Sint64Value(n) => [Record(10, Number(ZigZag64(n)))]
    case DoubleValue(bits) => [Record(11, Fixed64(bits))]
    case FloatValue(bits) => [Record(12, Fixed32(bits))]
  }

  function ValueRecords(v: Option<Value>): seq<Record> {
    if v.None? then [] else ValueRecord(v.value)
  }

  function FieldRecords(f: Field): seq<Record>
    decreases f, 1
  {
    NumberRecord(1, f.timestamp) + BytesRecord(2, f.name) + ValueRecords(f.value) + ChildRecords(15, f.fields)
  }

  function ChildRecords(num: nat, fs: seq<Field>): seq<Record>
    decreases fs, 0
  {
    if fs == [] then [] else [Record(num, Bytes(EncodeAll(FieldRecords(fs[0]))))] + ChildRecords(num, fs[1..])
  }

  function RowRecords(r: Row): seq<Record> {
    NumberRecord(1, r.timestamp) + BytesRecord(10, r.keys) + BytesRecord(11, r.content)
  }

  function RowListRecords(rows: seq<Row>): seq<Record> {
    if rows == [] then [] else [Record(1, Bytes(EncodeAll(RowRecords(rows[0]))))] + RowListRecords(rows[1..])
  }

  function TableRecord(t: Option<Table>): seq<Record> {
    if t.None? then [] else [Record(12, Bytes(EncodeAll(RowListRecords(t.value.rows))))]
  }

  function TelemetryHead(t: Telemetry): seq<Record> {
    OptionalRecord(1, t.nodeId) + OptionalRecord(3, t.subscription) + BytesRecord(6, t.encodingPath)
    + NumberRecord(8, t.collectionId) + NumberRecord(9, t.collectionStartTime) + NumberRecord(10, t.msgTimestamp)
  }

  function TelemetryRecords(t: Telemetry): seq<Record> {
    TelemetryHead(t) + ChildRecords(11, t.dataGpbkv) + TableRecord(t.dataGpb) + NumberRecord(13, t.collectionEndTime)
  }

  function DialoutRecords(d: DialoutArgs): seq<Record> {
    NumberRecord(1, ToUint64(d.reqId)) + BytesRecord(2, d.data) + BytesRecord(3, d.errors)
  }

  function RecordsOf(m: Message): seq<Record> {
    match m
    case OfTelemetry(t) => TelemetryRecords(t)
    case OfField(f) => FieldRecords(f)
    case OfTable(t) => RowListRecords(t.rows)
    case OfRow(r) => RowRecords(r)
    case OfDialout(d) => DialoutRecords(d)
  }

  function Encode(m: Message): seq<byte> {
    EncodeAll(RecordsOf(m))
  }

  function EncodeField(f: Field): seq<byte> {
    EncodeAll(FieldRecords(f))
  }

  // ---- Taking encodings apart --------------------------------------------------------------------

  /** A record of bytes is longer than the bytes. */
  lemma ConsRecord(num: nat, b: seq<byte>, rest: seq<Record>)
    ensures EncodeAll([Record(num, Bytes(b))] + rest) == EncodeRecord(Record(num, Bytes(b))) + EncodeAll(rest)
    ensures |EncodeRecord(Record(num, Bytes(b)))| > |b|
  {
    hide EncodeVarint;
    assert ([Record(num, Bytes(b))] + rest)[1..] == rest;
  }

  lemma ChildrenCons(num: nat, fs: seq<Field>)
    requires fs != []
    ensures EncodeAll(ChildRecords(num, fs))
         == EncodeRecord(Record(num, Bytes(EncodeField(fs[0])))) + EncodeAll(ChildRecords(num, fs[1..]))
    ensures |EncodeField(fs[0])| < |EncodeAll(ChildRecords(num, fs))|
    ensures |EncodeAll(ChildRecords(num, fs[1..]))| < |EncodeAll(ChildRecords(num, fs))|
  {
    hide FieldRecords, EncodeRecord;
    ConsRecord(num, EncodeField(fs[0]), ChildRecords(num, fs[1..]));
  }

  lemma RowsCons(rows: seq<Row>)
    requires rows != []
    ensures EncodeAll(RowListRecords(rows))
         == EncodeRecord(Record(1, Bytes(EncodeAll(RowRecords(rows[0]))))) + EncodeAll(RowListRecords(rows[1..]))
    ensures |EncodeAll(RowRecords(rows[0]))| < |EncodeAll(RowListRecords(rows))|
    ensures |EncodeAll(RowListRecords(rows[1..]))| < |EncodeAll(RowListRecords(rows))|
  {
    hide RowRecords, EncodeRecord;
    ConsRecord(1, EncodeAll(RowRecords(rows[0])), RowListRecords(rows[1..]));
  }

  lemma ThreeParts(a: seq<Record>, b: seq<Record>, c: seq<Record>)
    ensures EncodeAll(a + b + c) == EncodeAll(a) + EncodeAll(b) + EncodeAll(c)
  {
    hide EncodeAll;
    EncodeAllConcat(a + b, c);
    EncodeAllConcat(a, b);
  }

  lemma FieldParts(f: Field)
    ensures EncodeField(f) == EncodeAll(NumberRecord(1, f.timestamp)) + EncodeAll(BytesRecord(2, f.name))
                            + EncodeAll(ValueRecords(f.value)) + EncodeAll(ChildRecords(15, f.fields))
    ensures |f.name| <= |EncodeField(f)|
  {
    hide EncodeAll, NumberRecord, BytesRecord, ValueRecords, ChildRecords;
    var a, b, c := NumberRecord(1, f.timestamp), BytesRecord(2, f.name), ValueRecords(f.value);
    EncodeAllConcat(a + b + c, ChildRecords(15, f.fields));
    ThreeParts(a, b, c);
    BytesFit(2, f.name);
  }

  lemma RowParts(r: Row)
    ensures EncodeAll(RowRecords(r))
         == EncodeAll(NumberRecord(1, r.timestamp)) + EncodeAll(BytesRecord(10, r.keys)) + EncodeAll(BytesRecord(11, r.content))
    ensures |r.keys| <= |EncodeAll(RowRecords(r))| && |r.content| <= |EncodeAll(RowRecords(r))|
  {
    hide EncodeAll, NumberRecord, BytesRecord;
    ThreeParts(NumberRecord(1, r.timestamp), BytesRecord(10, r.keys), BytesRecord(11, r.content));
    BytesFit(10, r.keys);
    BytesFit(11, r.content);
  }

  lemma DialoutParts(d: DialoutArgs)
    ensures Encode(OfDialout(d))
         == EncodeAll(NumberRecord(1, ToUint64(d.reqId))) + EncodeAll(BytesRecord(2, d.data)) + EncodeAll(BytesRecord(3, d.errors))
    ensures |d.data| <= |Encode(OfDialout(d))| && |d.errors| <= |Encode(OfDialout(d))|
  {
    hide EncodeAll, NumberRecord, BytesRecord;
    ThreeParts(NumberRecord(1, ToUint64(d.reqId)), BytesRecord(2, d.data), BytesRecord(3, d.errors));
    BytesFit(2, d.data);
    BytesFit(3, d.errors);
  }

  lemma HeadParts(t: Telemetry)
    ensures EncodeAll(TelemetryHead(t))
         == EncodeAll(OptionalRecord(1, t.nodeId)) + EncodeAll(OptionalRecord(3, t.subscription))
          + EncodeAll(BytesRecord(6, t.encodingPath)) + EncodeAll(NumberRecord(8, t.collectionId))
          + EncodeAll(NumberRecord(9, t.collectionStartTime)) + EncodeAll(NumberRecord(10, t.msgTimestamp))
    ensures |t.encodingPath| <= |EncodeAll(TelemetryHead(t))|
    ensures t.nodeId.Some? ==> |t.nodeId.value| <= |EncodeAll(TelemetryHead(t))|
    ensures t.subscription.Some? ==> |t.subscription.value| <= |EncodeAll(TelemetryHead(t))|
  {
    hide EncodeAll, NumberRecord, BytesRecord, OptionalRecord;
    var a, b := OptionalRecord(1, t.nodeId), OptionalRecord(3, t.subscription);
    var c, d := BytesRecord(6, t.encodingPath), NumberRecord(8, t.collectionId);
    var e, f := NumberRecord(9, t.collectionStartTime), NumberRecord(10, t.msgTimestamp);
    ThreeParts(a, b, c);
    ThreeParts(a + b + c, d, e);
    EncodeAllConcat(a + b + c + d + e, f);
    BytesFit(6, t.encodingPath);
    OptionalFits(1, t.nodeId);
    OptionalFits(3, t.subscription);
  }

  lemma TelemetryParts(t: Telemetry)
    ensures Encode(OfTelemetry(t))
         == EncodeAll(TelemetryHead(t)) + EncodeAll(ChildRecords(11, t.dataGpbkv))
          + EncodeAll(TableRecord(t.dataGpb)) + EncodeAll(NumberRecord(13, t.collectionEndTime))
  {
    hide EncodeAll, TelemetryHead, ChildRecords, TableRecord, NumberRecord;
    var a, b, c := TelemetryHead(t), ChildRecords(11, t.dataGpbkv), TableRecord(t.dataGpb);
    EncodeAllConcat(a + b + c, NumberRecord(13, t.collectionEndTime));
    ThreeParts(a, b, c);
  }

  lemma OptionalFits(num: nat, b: Option<seq<byte>>)
    ensures b.Some? ==> |b.value| <= |EncodeAll(OptionalRecord(num, b))|
  {
    if b.Some? {
      assert OptionalRecord(num, b) == [Record(num, Bytes(b.value))] + [];
      ConsRecord(num, b.value, []);
    }
  }

  lemma BytesFit(num: nat, b: seq<byte>)
    ensures |b| <= |EncodeAll(BytesRecord(num, b))|
  {
    if b != [] {
      assert BytesRecord(num, b) == [Record(num, Bytes(b))] + [];
      ConsRecord(num, b, []);
    }
  }

  // ---- Reading records ---------------------------------------------------------------------------

  predicate Declares(kind: Kind, rs: seq<Record>) {
    forall i | 0 <= i < |rs| :: Declared(kind, rs[i].num) == Some(TypeOf(rs[i].payload))
  }

  lemma ReadRecordPayload(p: Payload, s: seq<byte>, at: nat)
    requires |EncodePayload(p)| < TWO_63
    ensures ReadPayload(TypeOf(p), EncodePayload(p) + s, at) == Ok(Scanned(p, |EncodePayload(p)|))
  {
    hide ReadVarint, EncodeVarint;
    match p
    case Number(v) => VarintRoundTrip(v, s);
    case Fixed64(bits) =>
      Pow2Of63(); assert Pow2(64) == 2 * Pow2(63);
      LittleEndianRoundTrip(bits, 8);
      assert (LittleEndian(bits, 8) + s)[..8] == LittleEndian(bits, 8);
    case Bytes(b) =>
      VarintRoundTrip(|b|, b + s);
      var n := |EncodeVarint(|b|)|;
      assert EncodePayload(p) + s == EncodeVarint(|b|) + (b + s);
      assert (EncodePayload(p) + s)[n..n + |b|] == b;
    case Fixed32(bits) =>
      Pow2Of32();
      LittleEndianRoundTrip(bits, 4);
      assert (LittleEndian(bits, 4) + s)[..4] == LittleEndian(bits, 4);
  }

  lemma TagArithmetic(num: nat, t: WireType)
    requires 1 <= num <= 15
    ensures var tag := 8 * num + Code(t); ToInt32(tag / 8) == num && tag % 8 == Code(t) && Code(t) != 4
  {}

  lemma ScanRecord(kind: Kind, r: Record, s: seq<byte>, at: nat)
    requires Declared(kind, r.num) == Some(TypeOf(r.payload)) && |EncodeRecord(r)| < TWO_63
    ensures NextItem(kind, EncodeRecord(r) + s, at) == Ok(Scanned(Known(r.num, r.payload), |EncodeRecord(r)|))
  {
    TagArithmetic(r.num, TypeOf(r.payload));
    hide ReadVarint, EncodeVarint, ReadPayload, EncodePayload, Declared, ToInt32, Code, TypeOf;
    var tag := 8 * r.num + Code(TypeOf(r.payload));
    var t, body := EncodeRecord(r) + s, EncodePayload(r.payload) + s;
    assert t == EncodeVarint(tag) + body;
    VarintRoundTrip(tag, body);
    assert t[|EncodeVarint(tag)|..] == body;
    ReadRecordPayload(r.payload, s, at + |EncodeVarint(tag)|);
  }

  function ApplyAll(m: Message, rs: seq<Record>): (r: Result<Message>)
    requires Declares(KindOf(m), rs)
    ensures r.Ok? ==> KindOf(r.value) == KindOf(m)
    decreases |rs|
  {
    if rs == [] then Ok(m)
    else
      var m' :- Apply(m, rs[0].num, rs[0].payload);
      ApplyAll(m', rs[1..])
  }

  /** Decoding the encoding of a list of records is applying them one after the other. */
  lemma {:induction false} DecodeRecords(m: Message, rs: seq<Record>, at: nat)
    requires Declares(KindOf(m), rs) && |EncodeAll(rs)| < TWO_63
    ensures Decode(m, EncodeAll(rs), at) == ApplyAll(m, rs)
    decreases |rs|
  {
    hide NextItem, Apply, EncodeRecord, Declared;
    if rs == [] {
    } else {
      var first, rest := EncodeRecord(rs[0]), EncodeAll(rs[1..]);
      ScanRecord(KindOf(m), rs[0], rest, at);
      assert (first + rest)[|first|..] == rest;
      var r := Apply(m, rs[0].num, rs[0].payload);
      if r.Ok? {
        DecodeRecords(r.value, rs[1..], at + |first|);
      }
    }
  }

  lemma {:induction false} ApplyAllConcat(m: Message, a: seq<Record>, b: seq<Record>)
    requires Declares(KindOf(m), a) && Declares(KindOf(m), b) && ApplyAll(m, a).Ok?
    ensures Declares(KindOf(m), a + b)
    ensures ApplyAll(m, a + b) == ApplyAll(ApplyAll(m, a).value, b)
    decreases |a|
  {
    hide Apply, Declared;
    if a == [] {
      assert a + b == b;
    } else {
      assert (a + b)[1..] == a[1..] + b;
      ApplyAllConcat(Apply(m, a[0].num, a[0].payload).value, a[1..], b);
    }
  }

  // ---- Normal form ---------------------------------------------------------------------------------

  /** The one thing the encoding forgets: a oneof holding nil bytes becomes no oneof. */
  function NormValue(v: Option<Value>): Option<Value> {
    if v == Some(BytesValue(None)) then None else v
  }

  function NormField(f: Field): Field
    decreases f, 1
  {
    Field(f.timestamp, f.name, NormValue(f.value), NormFields(f.fields))
  }

  function NormFields(fs: seq<Field>): (ns: seq<Field>)
    ensures |ns| == |fs|
    decreases fs, 0
  {
    if fs == [] then [] else [NormField(fs[0])] + NormFields(fs[1..])
  }

  function Norm(m: Message): (n: Message)
    ensures KindOf(n) == KindOf(m)
  {
    match m
    case OfTelemetry(t) => OfTelemetry(t.(dataGpbkv := NormFields(t.dataGpbkv)))
    case OfField(f) => OfField(NormField(f))
    case _ => m
  }

  function Empty(kind: Kind): (m: Message)
    ensures KindOf(m) == kind
  {
    match kind
    case TelemetryKind => OfTelemetry(EMPTY_TELEMETRY)
    case FieldKind => OfField(EMPTY_FIELD)
    case TableKind => OfTable(EMPTY_TABLE)
    case RowKind => OfRow(EMPTY_ROW)
    case DialoutKind => OfDialout(EMPTY_DIALOUT)
  }
}

/**
  What is written is read back: for every message type, for field trees of any depth, and
  through both layers of the dial-out stream.
 */
module RoundTrip {
  import opened Wire
  import opened Messages
  import opened Codec
  import opened Encoding

  // ---- Merging -------------------------------------------------------------------------------------

  /** What a message becomes when another one is decoded into it: everything the other one
      writes replaces what was there, and lists are continued. */
  function Merge(m: Message, n: Message): Message
    requires KindOf(m) == KindOf(n)
  {
    match n
    case OfTelemetry(t) => OfTelemetry(MergeTelemetry(m.telemetry, t))
    case OfField(f) => OfField(MergeField(m.field, f))
    case OfTable(t) => OfTable(MergeTable(m.table, t))
    case OfRow(r) => OfRow(MergeRow(m.row, r))
    case OfDialout(d) => OfDialout(MergeDialout(m.dialout, d))
  }

  function MergeTelemetry(m: Telemetry, n: Telemetry): Telemetry {
    Telemetry(
      if n.nodeId == None then m.nodeId else n.nodeId,
      if n.subscription == None then m.subscription else n.subscription,
      if n.encodingPath == [] then m.encodingPath else n.encodingPath,
      if n.collectionId == 0 then m.collectionId else n.collectionId,
      if n.collectionStartTime == 0 then m.collectionStartTime else n.collectionStartTime,
      if n.msgTimestamp == 0 then m.msgTimestamp else n.msgTimestamp,
      m.dataGpbkv + n.dataGpbkv,
      if n.dataGpb == None then m.dataGpb
      else if m.dataGpb == None then n.dataGpb
      else Some(MergeTable(m.dataGpb.value, n.dataGpb.value)),
      if n.collectionEndTime == 0 then m.collectionEndTime else n.collectionEndTime)
  }

  function MergeField(m: Field, n: Field): Field {
    Field(
      if n.timestamp == 0 then m.timestamp else n.timestamp,
      if n.name == [] then m.name else n.name,
      if n.value == None then m.value else n.value,
      m.fields + n.fields)
  }

  function MergeTable(m: Table, n: Table): Table {
    Table(m.rows + n.rows)
  }

  function MergeRow(m: Row, n: Row): Row {
    Row(if n.timestamp == 0 then m.timestamp else n.timestamp,
        if n.keys == [] then m.keys else n.keys,
        if n.content == [] then m.content else n.content)
  }

  function MergeDialout(m: DialoutArgs, n: DialoutArgs): DialoutArgs {
    DialoutArgs(if n.reqId == 0 then m.reqId else n.reqId,
                if n.data == [] then m.data else n.data,
                if n.errors == [] then m.errors else n.errors)
  }

  /** Decoding into an empty message is decoding. */
  lemma MergeIntoEmpty(n: Message)
    ensures Merge(Empty(KindOf(n)), n) == n
  {
    match n
    case OfTelemetry(t) => assert [] + t.dataGpbkv == t.dataGpbkv;
    case OfField(f) => assert [] + f.fields == f.fields;
    case OfTable(t) => assert [] + t.rows == t.rows;
    case _ =>
  }

  // ---- From one message to another by records --------------------------------------------------------

  /** Applying `rs` to `m` succeeds and yields `m'`. */
  predicate Leads(m: Message, rs: seq<Record>, m': Message) {
    Declares(KindOf(m), rs) && ApplyAll(m, rs) == Ok(m')
  }

  lemma LeadsConcat(m: Message, a: seq<Record>, m': Message, b: seq<Record>, m'': Message)
    requires Leads(m, a, m') && Leads(m', b, m'')
    ensures Leads(m, a + b, m'')
  {
    ApplyAllConcat(m, a, b);
  }

  lemma LeadsByNone(m: Message)
    ensures Leads(m, [], m)
  {}

  lemma LeadsByOne(m: Message, r: Record, m': Message)
    requires Declared(KindOf(m), r.num) == Some(TypeOf(r.payload)) && Apply(m, r.num, r.payload) == Ok(m')
    ensures Leads(m, [r], m')
  {
    hide Apply, Declared;
    assert ApplyAll(m', []) == Ok(m');
    assert [r][1..] == [];
  }

  lemma LeadsByNumber(m: Message, num: nat, v: uint64, m': Message)
    requires Declared(KindOf(m), num) == Some(VarintType)
    requires if v == 0 then m' == m else Apply(m, num, Number(v)) == Ok(m')
    ensures Leads(m, NumberRecord(num, v), m')
  {
    hide Apply, Declared;
    if v != 0 {
      LeadsByOne(m, Record(num, Number(v)), m');
    }
  }

  lemma LeadsByBytes(m: Message, num: nat, b: seq<byte>, m': Message)
    requires Declared(KindOf(m), num) == Some(BytesType)
    requires if b == [] then m' == m else Apply(m, num, Bytes(b)) == Ok(m')
    ensures Leads(m, BytesRecord(num, b), m')
  {
    hide Apply, Declared;
    if b != [] {
      LeadsByOne(m, Record(num, Bytes(b)), m');
    }
  }

  lemma LeadsDecode(m: Message, rs: seq<Record>, m': Message)
    requires Leads(m, rs, m') && |EncodeAll(rs)| < TWO_63
    ensures Decode(m, EncodeAll(rs), 0) == Ok(m')
  {
    DecodeRecords(m, rs, 0);
  }

  // ---- Field trees --------------------------------------------------------------------------------

  lemma LeadsByValue(f: Field, v: Option<Value>)
    ensures Leads(OfField(f), ValueRecords(v),
                  OfField(f.(value := if NormValue(v) == None then f.value else NormValue(v))))
  {
    if v.Some? && v != Some(BytesValue(None)) {
      var r := ReadValueBack(v.value);
      hide Declared, ReadValue, Decode, ValueRecord;
      LeadsByOne(OfField(f), r, OfField(f.(value := v)));
    }
  }

  lemma ReadValueBack(v: Value) returns (r: Record)
    requires v != BytesValue(None)
    ensures ValueRecord(v) == [r] && 4 <= r.num <= 12
    ensures Declared(FieldKind, r.num) == Some(TypeOf(r.payload)) && ReadValue(r.num, r.payload) == v
  {
    hide ZigZag32, UnZigZag32, ZigZag64, UnZigZag64;
    r := ValueRecord(v)[0];
    match v
    case Sint32Value(n) => ZigZag32Inverse(n);
    case Sint64Value(n) => ZigZag64Inverse(n);
    case _ =>
  }

  function FieldScalars(f: Field): seq<Record> {
    NumberRecord(1, f.timestamp) + BytesRecord(2, f.name) + ValueRecords(f.value)
  }

  lemma LeadsByScalars(m: Field, f: Field)
    ensures Leads(OfField(m), FieldScalars(f), OfField(MergeField(m, NormField(f)).(fields := m.fields)))
  {
    hide Leads, NumberRecord, BytesRecord, ValueRecords, NormValue, NormFields, Decode;
    var merged := MergeField(m, NormField(f));
    var timed := m.(timestamp := merged.timestamp);
    var named := timed.(name := merged.name);
    var valued := named.(value := merged.value);
    LeadsByNumber(OfField(m), 1, f.timestamp, OfField(timed));
    LeadsByBytes(OfField(timed), 2, f.name, OfField(named));
    LeadsByValue(named, f.value);
    var a, b, c := NumberRecord(1, f.timestamp), BytesRecord(2, f.name), ValueRecords(f.value);
    LeadsConcat(OfField(m), a, OfField(timed), b, OfField(named));
    LeadsConcat(OfField(m), a + b, OfField(named), c, OfField(valued));
  }

  /** The messages that hold a list of fields, and the number of that list. */
  predicate HoldsFields(m: Message, num: nat) {
    (m.OfField? && num == 15) || (m.OfTelemetry? && num == 11)
  }

  function Append(m: Message, fs: seq<Field>): Message
    requires m.OfField? || m.OfTelemetry?
  {
    if m.OfField? then OfField(m.field.(fields := m.field.fields + fs))
    else OfTelemetry(m.telemetry.(dataGpbkv := m.telemetry.dataGpbkv + fs))
  }

  lemma AppendAssociates(m: Message, a: seq<Field>, b: seq<Field>)
    requires m.OfField? || m.OfTelemetry?
    ensures Append(Append(m, a), b) == Append(m, a + b) && Append(m, []) == m
  {
    if m.OfField? {
      assert m.field.fields + a + b == m.field.fields + (a + b);
    } else {
      assert m.telemetry.dataGpbkv + a + b == m.telemetry.dataGpbkv + (a + b);
    }
  }

  lemma ApplyChild(m: Message, num: nat, bytes: seq<byte>, child: Field)
    requires HoldsFields(m, num) && Decode(OfField(EMPTY_FIELD), bytes, 0) == Ok(OfField(child))
    ensures Leads(m, [Record(num, Bytes(bytes))], Append(m, [child]))
  {
    hide Decode, Leads;
    LeadsByOne(m, Record(num, Bytes(bytes)), Append(m, [child]));
  }

  lemma {:induction false} LeadsByChildren(m: Message, num: nat, fs: seq<Field>)
    requires HoldsFields(m, num) && |EncodeAll(ChildRecords(num, fs))| < TWO_63
    ensures Leads(m, ChildRecords(num, fs), Append(m, NormFields(fs)))
    decreases fs, 0
  {
    if fs == [] {
      AppendAssociates(m, [], []);
    } else {
      hide Leads, FieldRecords, NormField, EncodeAll, Append, Decode;
      ChildrenCons(num, fs);
      RoundTripField(fs[0]);
      var first, rest := [NormField(fs[0])], NormFields(fs[1..]);
      ApplyChild(m, num, EncodeField(fs[0]), NormField(fs[0]));
      assert HoldsFields(Append(m, first), num) by { AppendHolds(m, num, first); }
      LeadsByChildren(Append(m, first), num, fs[1..]);
      AppendAssociates(m, first, rest);
      LeadsConcat(m, [Record(num, Bytes(EncodeField(fs[0])))], Append(m, first),
        ChildRecords(num, fs[1..]), Append(Append(m, first), rest));
    }
  }

  lemma AppendHolds(m: Message, num: nat, fs: seq<Field>)
    requires HoldsFields(m, num)
    ensures HoldsFields(Append(m, fs), num)
  {}

  /** Decoding an encoded field tree, of any depth, into any field merges it in. */
  lemma {:induction false} FieldOnto(m: Field, f: Field)
    requires |EncodeField(f)| < TWO_63
    ensures Decode(OfField(m), EncodeField(f), 0) == Ok(OfField(MergeField(m, NormField(f))))
    decreases f, 2
  {
    hide Leads, NumberRecord, BytesRecord, ValueRecords, ChildRecords, Decode, EncodeAll, NormFields;
    var scalars, children := FieldScalars(f), ChildRecords(15, f.fields);
    var merged := MergeField(m, NormField(f));
    var flat := OfField(merged.(fields := m.fields));
    LeadsByScalars(m, f);
    EncodeAllConcat(scalars, children);
    LeadsByChildren(flat, 15, f.fields);
    assert Append(flat, NormFields(f.fields)) == OfField(merged);
    LeadsConcat(OfField(m), scalars, flat, children, OfField(merged));
    LeadsDecode(OfField(m), FieldRecords(f), OfField(merged));
  }

  /** A field tree of any depth survives encoding and decoding, up to oneofs of nil bytes. */
  lemma {:induction false} RoundTripField(f: Field)
    requires |EncodeField(f)| < TWO_63
    ensures Decode(OfField(EMPTY_FIELD), EncodeField(f), 0) == Ok(OfField(NormField(f)))
    decreases f, 3
  {
    hide Decode, EncodeField;
    FieldOnto(EMPTY_FIELD, f);
    MergeIntoEmpty(OfField(NormField(f)));
  }

  // ---- Rows and tables -----------------------------------------------------------------------------

  lemma RowOnto(m: Row, r: Row)
    requires |EncodeAll(RowRecords(r))| < TWO_63
    ensures Decode(OfRow(m), EncodeAll(RowRecords(r)), 0) == Ok(OfRow(MergeRow(m, r)))
  {
    hide Leads, NumberRecord, BytesRecord, Decode, EncodeAll;
    var merged := MergeRow(m, r);
    var a, b, c := NumberRecord(1, r.timestamp), BytesRecord(10, r.keys), BytesRecord(11, r.content);
    var timed := m.(timestamp := merged.timestamp);
    var keyed := timed.(keys := merged.keys);
    LeadsByNumber(OfRow(m), 1, r.timestamp, OfRow(timed));
    LeadsByBytes(OfRow(timed), 10, r.keys, OfRow(keyed));
    LeadsByBytes(OfRow(keyed), 11, r.content, OfRow(merged));
    LeadsConcat(OfRow(m), a, OfRow(timed), b, OfRow(keyed));
    LeadsConcat(OfRow(m), a + b, OfRow(keyed), c, OfRow(merged));
    LeadsDecode(OfRow(m), RowRecords(r), OfRow(merged));
  }

  lemma RoundTripRow(r: Row)
    requires |EncodeAll(RowRecords(r))| < TWO_63
    ensures Decode(OfRow(EMPTY_ROW), EncodeAll(RowRecords(r)), 0) == Ok(OfRow(r))
  {
    hide Decode, RowRecords;
    RowOnto(EMPTY_ROW, r);
    MergeIntoEmpty(OfRow(r));
  }

  lemma ApplyRow(t: Table, row: Row)
    requires |EncodeAll(RowRecords(row))| < TWO_63
    ensures Leads(OfTable(t), [Record(1, Bytes(EncodeAll(RowRecords(row))))], OfTable(Table(t.rows + [row])))
  {
    hide Leads, RowRecords, EncodeAll, Decode;
    RoundTripRow(row);
    LeadsByOne(OfTable(t), Record(1, Bytes(EncodeAll(RowRecords(row)))), OfTable(Table(t.rows + [row])));
  }

  lemma {:induction false} LeadsByRows(t: Table, rows: seq<Row>)
    requires |EncodeAll(RowListRecords(rows))| < TWO_63
    ensures Leads(OfTable(t), RowListRecords(rows), OfTable(Table(t.rows + rows)))
    decreases |rows|
  {
    hide Leads, RowRecords, EncodeAll;
    if rows == [] {
      LeadsByNone(OfTable(t));
      assert t.rows + rows == t.rows;
    } else {
      RowsCons(rows);
      ApplyRow(t, rows[0]);
      var first := Record(1, Bytes(EncodeAll(RowRecords(rows[0]))));
      var rest := RowListRecords(rows[1..]);
      assert RowListRecords(rows) == [first] + rest;
      hide RowListRecords;
      var t' := Table(t.rows + [rows[0]]);
      LeadsByRows(t', rows[1..]);
      assert t'.rows + rows[1..] == t.rows + rows;
      LeadsConcat(OfTable(t), [first], OfTable(t'), rest, OfTable(Table(t.rows + rows)));
    }
  }

  lemma TableOnto(m: Table, t: Table)
    requires |EncodeAll(RowListRecords(t.rows))| < TWO_63
    ensures Decode(OfTable(m), EncodeAll(RowListRecords(t.rows)), 0) == Ok(OfTable(MergeTable(m, t)))
  {
    hide Leads, RowListRecords, Decode, EncodeAll;
    LeadsByRows(m, t.rows);
    LeadsDecode(OfTable(m), RowListRecords(t.rows), OfTable(MergeTable(m, t)));
  }

  lemma RoundTripTable(t: Table)
    requires |EncodeAll(RowListRecords(t.rows))| < TWO_63
    ensures Decode(OfTable(EMPTY_TABLE), EncodeAll(RowListRecords(t.rows)), 0) == Ok(OfTable(t))
  {
    hide Decode, RowListRecords;
    TableOnto(EMPTY_TABLE, t);
    MergeIntoEmpty(OfTable(t));
  }

  // ---- Telemetry ---------------------------------------------------------------------------------

  lemma LeadsByOptional(m: Message, num: nat, b: Option<seq<byte>>, m': Message)
    requires Declared(KindOf(m), num) == Some(BytesType)
    requires if b.Some? then Apply(m, num, Bytes(b.value)) == Ok(m') else m' == m
    ensures Leads(m, OptionalRecord(num, b), m')
  {
    hide Apply, Declared;
    if b.Some? {
      LeadsByOne(m, Record(num, Bytes(b.value)), m');
    }
  }

  /** `m` with the parts of `n` that are written before the lists. */
  function WithHead(m: Telemetry, n: Telemetry): Telemetry {
    var merged := MergeTelemetry(m, n);
    merged.(dataGpbkv := m.dataGpbkv, dataGpb := m.dataGpb, collectionEndTime := m.collectionEndTime)
  }

  lemma LeadsByHead(m: Telemetry, t: Telemetry)
    ensures Leads(OfTelemetry(m), TelemetryHead(t), OfTelemetry(WithHead(m, t)))
  {
    hide Leads, OptionalRecord, BytesRecord, NumberRecord, Decode;
    var merged := MergeTelemetry(m, t);
    var a, b := OptionalRecord(1, t.nodeId), OptionalRecord(3, t.subscription);
    var c, d := BytesRecord(6, t.encodingPath), NumberRecord(8, t.collectionId);
    var e, f := NumberRecord(9, t.collectionStartTime), NumberRecord(10, t.msgTimestamp);
    var t1 := m.(nodeId := merged.nodeId);
    var t2 := t1.(subscription := merged.subscription);
    var t3 := t2.(encodingPath := merged.encodingPath);
    var t4 := t3.(collectionId := merged.collectionId);
    var t5 := t4.(collectionStartTime := merged.collectionStartTime);
    var t6 := t5.(msgTimestamp := merged.msgTimestamp);
    LeadsByOptional(OfTelemetry(m), 1, t.nodeId, OfTelemetry(t1));
    LeadsByOptional(OfTelemetry(t1), 3, t.subscription, OfTelemetry(t2));
    LeadsByBytes(OfTelemetry(t2), 6, t.encodingPath, OfTelemetry(t3));
    LeadsByNumber(OfTelemetry(t3), 8, t.collectionId, OfTelemetry(t4));
    LeadsByNumber(OfTelemetry(t4), 9, t.collectionStartTime, OfTelemetry(t5));
    LeadsByNumber(OfTelemetry(t5), 10, t.msgTimestamp, OfTelemetry(t6));
    hide Apply, Declared;
    LeadsConcat(OfTelemetry(m), a, OfTelemetry(t1), b, OfTelemetry(t2));
    LeadsConcat(OfTelemetry(m), a + b, OfTelemetry(t2), c, OfTelemetry(t3));
    LeadsConcat(OfTelemetry(m), a + b + c, OfTelemetry(t3), d, OfTelemetry(t4));
    LeadsConcat(OfTelemetry(m), a + b + c + d, OfTelemetry(t4), e, OfTelemetry(t5));
    LeadsConcat(OfTelemetry(m), a + b + c + d + e, OfTelemetry(t5), f, OfTelemetry(t6));
  }

  lemma LeadsByTable(t: Telemetry, table: Option<Table>, merged: Telemetry)
    requires |EncodeAll(TableRecord(table))| < TWO_63
    requires merged == t.(dataGpb := MergeTelemetry(t, EMPTY_TELEMETRY.(dataGpb := table)).dataGpb)
    ensures Leads(OfTelemetry(t), TableRecord(table), OfTelemetry(merged))
  {
    if table.Some? {
      hide RowListRecords, Decode;
      var r := TableRecord(table)[0];
      assert EncodeAll([r]) == EncodeRecord(r) + EncodeAll([r][1..]);
      TableOnto(if t.dataGpb.Some? then t.dataGpb.value else EMPTY_TABLE, table.value);
      assert [] + table.value.rows == table.value.rows;
      hide EncodeAll, Leads;
      LeadsByOne(OfTelemetry(t), r, OfTelemetry(merged));
    }
  }

  lemma TelemetryOnto(m: Telemetry, t: Telemetry)
    requires |Encode(OfTelemetry(t))| < TWO_63
    ensures Decode(OfTelemetry(m), Encode(OfTelemetry(t)), 0) == Ok(Merge(OfTelemetry(m), Norm(OfTelemetry(t))))
  {
    hide Leads, TelemetryHead, ChildRecords, TableRecord, NumberRecord, Decode, EncodeAll, NormFields;
    var a, b := TelemetryHead(t), ChildRecords(11, t.dataGpbkv);
    var c, d := TableRecord(t.dataGpb), NumberRecord(13, t.collectionEndTime);
    EncodeAllConcat(a + b + c, d);
    EncodeAllConcat(a + b, c);
    EncodeAllConcat(a, b);
    var merged := Merge(OfTelemetry(m), Norm(OfTelemetry(t))).telemetry;
    var t1 := WithHead(m, t);
    var t2 := t1.(dataGpbkv := merged.dataGpbkv);
    var t3 := t2.(dataGpb := merged.dataGpb);
    LeadsByHead(m, t);
    LeadsByChildren(OfTelemetry(t1), 11, t.dataGpbkv);
    assert Append(OfTelemetry(t1), NormFields(t.dataGpbkv)) == OfTelemetry(t2);
    LeadsByTable(t2, t.dataGpb, t3);
    LeadsByNumber(OfTelemetry(t3), 13, t.collectionEndTime, OfTelemetry(merged));
    hide Apply, Declared;
    LeadsConcat(OfTelemetry(m), a, OfTelemetry(t1), b, OfTelemetry(t2));
    LeadsConcat(OfTelemetry(m), a + b, OfTelemetry(t2), c, OfTelemetry(t3));
    LeadsConcat(OfTelemetry(m), a + b + c, OfTelemetry(t3), d, OfTelemetry(merged));
    LeadsDecode(OfTelemetry(m), TelemetryRecords(t), OfTelemetry(merged));
  }

  lemma RoundTripTelemetry(t: Telemetry)
    requires |Encode(OfTelemetry(t))| < TWO_63
    ensures Decode(OfTelemetry(EMPTY_TELEMETRY), Encode(OfTelemetry(t)), 0) == Ok(Norm(OfTelemetry(t)))
  {
    hide Decode, Encode, Norm, Merge;
    TelemetryOnto(EMPTY_TELEMETRY, t);
    MergeIntoEmpty(Norm(OfTelemetry(t)));
  }

  // ---- The envelope --------------------------------------------------------------------------------

  lemma DialoutOnto(m: DialoutArgs, d: DialoutArgs)
    requires |Encode(OfDialout(d))| < TWO_63
    ensures Decode(OfDialout(m), Encode(OfDialout(d)), 0) == Ok(OfDialout(MergeDialout(m, d)))
  {
    hide Leads, NumberRecord, BytesRecord, Decode, EncodeAll;
    var merged := MergeDialout(m, d);
    var a, b, c := NumberRecord(1, ToUint64(d.reqId)), BytesRecord(2, d.data), BytesRecord(3, d.errors);
    var d1 := m.(reqId := merged.reqId);
    var d2 := d1.(data := merged.data);
    LeadsByNumber(OfDialout(m), 1, ToUint64(d.reqId), OfDialout(d1));
    LeadsByBytes(OfDialout(d1), 2, d.data, OfDialout(d2));
    LeadsByBytes(OfDialout(d2), 3, d.errors, OfDialout(merged));
    LeadsConcat(OfDialout(m), a, OfDialout(d1), b, OfDialout(d2));
    LeadsConcat(OfDialout(m), a + b, OfDialout(d2), c, OfDialout(merged));
    LeadsDecode(OfDialout(m), DialoutRecords(d), OfDialout(merged));
  }

  lemma RoundTripDialout(d: DialoutArgs)
    requires |Encode(OfDialout(d))| < TWO_63
    ensures Decode(OfDialout(EMPTY_DIALOUT), Encode(OfDialout(d)), 0) == Ok(OfDialout(d))
  {
    hide Decode, Encode;
    DialoutOnto(EMPTY_DIALOUT, d);
    MergeIntoEmpty(OfDialout(d));
  }

  // ---- All messages --------------------------------------------------------------------------------

  /** Every message type: decoding what `Marshal` writes into any message merges it in, up to
      oneofs of nil bytes. */
  lemma RoundTripOnto(m: Message, n: Message)
    requires KindOf(m) == KindOf(n) && |Encode(n)| < TWO_63
    ensures Decode(m, Encode(n), 0) == Ok(Merge(m, Norm(n)))
  {
    hide Decode;
    match n
    case OfTelemetry(t) => TelemetryOnto(m.telemetry, t);
    case OfField(f) => FieldOnto(m.field, f);
    case OfTable(t) => TableOnto(m.table, t);
    case OfRow(r) => RowOnto(m.row, r);
    case OfDialout(d) => DialoutOnto(m.dialout, d);
  }

  /** Every message type: decoding what `Marshal` writes, into an empty message, gives the
      message back up to oneofs of nil bytes. */
  lemma RoundTripAll(m: Message)
    requires |Encode(m)| < TWO_63
    ensures Decode(Empty(KindOf(m)), Encode(m), 0) == Ok(Norm(m))
  {
    hide Decode, Encode, Norm, Merge;
    RoundTripOnto(Empty(KindOf(m)), m);
    MergeIntoEmpty(Norm(m));
  }

  // ---- Both layers ---------------------------------------------------------------------------------

  /** A telemetry message marshalled into the `data` of a dial-out request, marshalled again
      and decoded at both layers comes back, whatever the request id. */
  lemma TwoLayerRoundTrip(t: Telemetry, reqId: int64, errors: seq<byte>)
    requires |Encode(OfDialout(DialoutArgs(reqId, Encode(OfTelemetry(t)), errors)))| < TWO_63
    ensures var sent := DialoutArgs(reqId, Encode(OfTelemetry(t)), errors);
            var received := Decode(OfDialout(EMPTY_DIALOUT), Encode(OfDialout(sent)), 0);
            received == Ok(OfDialout(sent))
            && Decode(OfTelemetry(EMPTY_TELEMETRY), received.value.dialout.data, 0) == Ok(Norm(OfTelemetry(t)))
  {
    var data := Encode(OfTelemetry(t));
    var sent := DialoutArgs(reqId, data, errors);
    RoundTripDialout(sent);
    DialoutParts(sent);
    RoundTripTelemetry(t);
  }

  // ---- What the encoding identifies -------------------------------------------------------------------

  lemma {:induction false} EncodeNormField(f: Field)
    ensures FieldRecords(NormField(f)) == FieldRecords(f)
    decreases f, 1
  {
    EncodeNormFields(15, f.fields);
  }

  lemma {:induction false} EncodeNormFields(num: nat, fs: seq<Field>)
    ensures ChildRecords(num, NormFields(fs)) == ChildRecords(num, fs)
    decreases fs, 0
  {
    if fs == [] {
    } else {
      EncodeNormField(fs[0]);
      EncodeNormFields(num, fs[1..]);
      assert NormFields(fs)[1..] == NormFields(fs[1..]);
    }
  }

  lemma EncodeNorm(m: Message)
    ensures Encode(Norm(m)) == Encode(m)
  {
    match m
    case OfTelemetry(t) => EncodeNormFields(11, t.dataGpbkv);
    case OfField(f) => EncodeNormField(f);
    case _ =>
  }

  /** Two messages of one type have the same encoding exactly when they differ at most in
      oneofs of nil bytes: the encoding is canonical and loses nothing else. */
  lemma EncodeInjective(m: Message, n: Message)
    requires KindOf(m) == KindOf(n) && |Encode(m)| < TWO_63 && |Encode(n)| < TWO_63
    ensures Encode(m) == Encode(n) <==> Norm(m) == Norm(n)
  {
    hide Encode, Norm, Decode;
    RoundTripAll(m);
    RoundTripAll(n);
    EncodeNorm(m);
    EncodeNorm(n);
  }

  predicate NoNilBytes(f: Field) {
    f.value != Some(BytesValue(None)) && forall i | 0 <= i < |f.fields| :: NoNilBytes(f.fields[i])
  }

  /** Exactly the trees without a oneof of nil bytes come back unchanged. */
  lemma {:induction false} NormIsIdentity(f: Field)
    ensures NormField(f) == f <==> NoNilBytes(f)
    decreases f, 1
  {
    NormsAreIdentity(f.fields);
  }

  lemma {:induction false} NormsAreIdentity(fs: seq<Field>)
    ensures NormFields(fs) == fs <==> forall i | 0 <= i < |fs| :: NoNilBytes(fs[i])
    decreases fs, 0
  {
    if fs == [] {
    } else {
      NormIsIdentity(fs[0]);
      NormsAreIdentity(fs[1..]);
      assert fs == [fs[0]] + fs[1..];
      assert forall i | 0 < i < |fs| :: fs[i] == fs[1..][i - 1];
    }
  }
}

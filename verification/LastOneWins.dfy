/**
  What any bytes decode to, field by field: a scalar is that of the last record for it, a list
  is continued by all records for it, and nothing else matters.
 */
module LastOneWins {
  import opened Wire
  import opened Skipping
  import opened Messages
  import opened Codec
  import opened Encoding

  // ---- The records in the bytes ------------------------------------------------------------------

  /** The declared fields that the decoding loop finds, in order. */
  function Found(kind: Kind, s: seq<byte>, at: nat): seq<Record>
    decreases |s|
  {
    if s == [] || NextItem(kind, s, at).Err? then []
    else
      var next := NextItem(kind, s, at).value;
      (if next.item.Known? then [Record(next.item.num, next.item.payload)] else [])
      + Found(kind, s[next.size..], at + next.size)
  }

  /** The number in the last record for a field. */
  function LastNumber(rs: seq<Record>, num: nat): Option<uint64> {
    if rs == [] then None
    else
      var later := LastNumber(rs[1..], num);
      if later.Some? then later
      else if rs[0].num == num && rs[0].payload.Number? then Some(rs[0].payload.v)
      else None
  }

  /** The bytes in the last record for a field. */
  function LastBytes(rs: seq<Record>, num: nat): Option<seq<byte>> {
    if rs == [] then None
    else
      var later := LastBytes(rs[1..], num);
      if later.Some? then later
      else if rs[0].num == num && rs[0].payload.Bytes? then Some(rs[0].payload.b)
      else None
  }

  /** The value in the last record for any member of the oneof of a field. */
  function LastValue(rs: seq<Record>): Option<Value> {
    if rs == [] then None
    else
      var later := LastValue(rs[1..]);
      var r := rs[0];
      if later.Some? then later
      else if 4 <= r.num <= 12 && Declared(FieldKind, r.num) == Some(TypeOf(r.payload)) then
        Some(ReadValue(r.num, r.payload))
      else None
  }

  /** The bytes in all records for a field, in order. */
  function AllBytes(rs: seq<Record>, num: nat): seq<seq<byte>> {
    if rs == [] then []
    else (if rs[0].num == num && rs[0].payload.Bytes? then [rs[0].payload.b] else []) + AllBytes(rs[1..], num)
  }

  function Flat(bs: seq<seq<byte>>): seq<byte> {
    if bs == [] then [] else bs[0] + Flat(bs[1..])
  }

  // ---- Reading field by field ----------------------------------------------------------------------

  /** `after` is `before` continued by one field for each of the byte strings. */
  predicate Continued(before: seq<Field>, bs: seq<seq<byte>>, after: seq<Field>) {
    && before <= after && |after| == |before| + |bs|
    && (forall k | 0 <= k < |bs| :: Decode(OfField(EMPTY_FIELD), bs[k], 0) == Ok(OfField(after[|before| + k])))
  }

  predicate ContinuedRows(before: seq<Row>, bs: seq<seq<byte>>, after: seq<Row>) {
    && before <= after && |after| == |before| + |bs|
    && (forall k | 0 <= k < |bs| :: Decode(OfRow(EMPTY_ROW), bs[k], 0) == Ok(OfRow(after[|before| + k])))
  }

  /** The embedded table: untouched without a record, or else what all its records together
      decode to, into the table that was there or an empty one. */
  predicate Merged(before: Option<Table>, bs: seq<seq<byte>>, after: Option<Table>) {
    if bs == [] then after == before
    else after.Some? && Decode(OfTable(OrElse(before, EMPTY_TABLE)), Flat(bs), 0) == Ok(OfTable(after.value))
  }

  predicate ReadsTelemetry(m: Telemetry, rs: seq<Record>, t: Telemetry) {
    && t.nodeId == (match LastBytes(rs, 1) case Some(b) => Some(b) case None => m.nodeId)
    && t.subscription == (match LastBytes(rs, 3) case Some(b) => Some(b) case None => m.subscription)
    && t.encodingPath == OrElse(LastBytes(rs, 6), m.encodingPath)
    && t.collectionId == OrElse(LastNumber(rs, 8), m.collectionId)
    && t.collectionStartTime == OrElse(LastNumber(rs, 9), m.collectionStartTime)
    && t.msgTimestamp == OrElse(LastNumber(rs, 10), m.msgTimestamp)
    && t.collectionEndTime == OrElse(LastNumber(rs, 13), m.collectionEndTime)
    && Continued(m.dataGpbkv, AllBytes(rs, 11), t.dataGpbkv)
    && Merged(m.dataGpb, AllBytes(rs, 12), t.dataGpb)
  }

  predicate ReadsField(m: Field, rs: seq<Record>, f: Field) {
    && f.timestamp == OrElse(LastNumber(rs, 1), m.timestamp)
    && f.name == OrElse(LastBytes(rs, 2), m.name)
    && f.value == (match LastValue(rs) case Some(v) => Some(v) case None => m.value)
    && Continued(m.fields, AllBytes(rs, 15), f.fields)
  }

  predicate ReadsRow(m: Row, rs: seq<Record>, r: Row) {
    && r.timestamp == OrElse(LastNumber(rs, 1), m.timestamp)
    && r.keys == OrElse(LastBytes(rs, 10), m.keys)
    && r.content == OrElse(LastBytes(rs, 11), m.content)
  }

  predicate ReadsDialout(m: DialoutArgs, rs: seq<Record>, d: DialoutArgs) {
    && d.reqId == (match LastNumber(rs, 1) case Some(v) => ToInt64(v) case None => m.reqId)
    && d.data == OrElse(LastBytes(rs, 2), m.data)
    && d.errors == OrElse(LastBytes(rs, 3), m.errors)
  }

  /** `n` is what `m` becomes by reading the records field by field. */
  predicate Reads(m: Message, rs: seq<Record>, n: Message) {
    match m
    case OfTelemetry(t) => n.OfTelemetry? && ReadsTelemetry(t, rs, n.telemetry)
    case OfField(f) => n.OfField? && ReadsField(f, rs, n.field)
    case OfTable(t) => n.OfTable? && ContinuedRows(t.rows, AllBytes(rs, 1), n.table.rows)
    case OfRow(r) => n.OfRow? && ReadsRow(r, rs, n.row)
    case OfDialout(d) => n.OfDialout? && ReadsDialout(d, rs, n.dialout)
  }

  // ---- The decoder reads field by field ---------------------------------------------------------------

  lemma ContinuedMore(before: seq<Field>, b: seq<byte>, f: Field, bs: seq<seq<byte>>, after: seq<Field>)
    requires Decode(OfField(EMPTY_FIELD), b, 0) == Ok(OfField(f)) && Continued(before + [f], bs, after)
    ensures Continued(before, [b] + bs, after)
  {
    hide Decode;
    forall k | 0 <= k < |[b] + bs|
      ensures Decode(OfField(EMPTY_FIELD), ([b] + bs)[k], 0) == Ok(OfField(after[|before| + k]))
    {
      if k == 0 {
        assert after[|before|] == (before + [f])[|before|];
      }
    }
  }

  lemma ContinuedRowsMore(before: seq<Row>, b: seq<byte>, r: Row, bs: seq<seq<byte>>, after: seq<Row>)
    requires Decode(OfRow(EMPTY_ROW), b, 0) == Ok(OfRow(r)) && ContinuedRows(before + [r], bs, after)
    ensures ContinuedRows(before, [b] + bs, after)
  {
    hide Decode;
    forall k | 0 <= k < |[b] + bs|
      ensures Decode(OfRow(EMPTY_ROW), ([b] + bs)[k], 0) == Ok(OfRow(after[|before| + k]))
    {
      if k == 0 {
        assert after[|before|] == (before + [r])[|before|];
      }
    }
  }

  lemma MergedMore(before: Option<Table>, b: seq<byte>, t: Table, bs: seq<seq<byte>>, after: Option<Table>)
    requires Decode(OfTable(OrElse(before, EMPTY_TABLE)), b, 0) == Ok(OfTable(t)) && Merged(Some(t), bs, after)
    ensures Merged(before, [b] + bs, after)
  {
    hide Decode, Flat;
    FlatFirst(b, bs);
    if bs != [] {
      MergeLaw(OfTable(OrElse(before, EMPTY_TABLE)), b, Flat(bs), 0);
      DecodeAnywhere(OfTable(t), Flat(bs), |b|, 0);
    }
  }

  lemma FlatFirst(b: seq<byte>, bs: seq<seq<byte>>)
    ensures Flat([b] + bs) == b + Flat(bs)
    ensures bs == [] ==> Flat([b] + bs) == b
  {
    assert ([b] + bs)[1..] == bs;
  }

  /** What one record adds to the reading of those behind it. */
  lemma FirstRecord(r: Record, rs: seq<Record>, num: nat)
    ensures LastNumber([r] + rs, num) ==
            (if LastNumber(rs, num).Some? then LastNumber(rs, num)
             else if r.num == num && r.payload.Number? then Some(r.payload.v) else None)
    ensures LastBytes([r] + rs, num) ==
            (if LastBytes(rs, num).Some? then LastBytes(rs, num)
             else if r.num == num && r.payload.Bytes? then Some(r.payload.b) else None)
    ensures AllBytes([r] + rs, num) ==
            (if r.num == num && r.payload.Bytes? then [r.payload.b] else []) + AllBytes(rs, num)
  {
    assert ([r] + rs)[1..] == rs;
  }

  lemma FirstValue(r: Record, rs: seq<Record>)
    ensures LastValue([r] + rs) ==
            if LastValue(rs).Some? then LastValue(rs)
            else if 4 <= r.num <= 12 && Declared(FieldKind, r.num) == Some(TypeOf(r.payload)) then
              Some(ReadValue(r.num, r.payload))
            else None
  {
    assert ([r] + rs)[1..] == rs;
  }

  /** A scalar of a telemetry message. */
  lemma ReadsMoreScalar(m: Telemetry, r: Record, rs: seq<Record>, n: Telemetry)
    requires Declared(TelemetryKind, r.num) == Some(TypeOf(r.payload)) && r.num != 11 && r.num != 12
    requires ReadsTelemetry(SetTelemetryScalar(m, r.num, r.payload), rs, n)
    ensures ReadsTelemetry(m, [r] + rs, n)
  {
    hide LastNumber, LastBytes, AllBytes, Continued, Merged;
    FirstRecord(r, rs, 1); FirstRecord(r, rs, 3); FirstRecord(r, rs, 6); FirstRecord(r, rs, 8); FirstRecord(r, rs, 9);
    FirstRecord(r, rs, 10); FirstRecord(r, rs, 11); FirstRecord(r, rs, 12); FirstRecord(r, rs, 13);
    assert [] + AllBytes(rs, 11) == AllBytes(rs, 11) && [] + AllBytes(rs, 12) == AllBytes(rs, 12);
  }

  /** A child or a table of a telemetry message leaves the reading of its scalars alone. */
  lemma SameScalars(r: Record, rs: seq<Record>)
    requires r.num == 11 || r.num == 12
    ensures forall num | num in {1, 3, 6} :: LastBytes([r] + rs, num) == LastBytes(rs, num)
    ensures forall num | num in {8, 9, 10, 13} :: LastNumber([r] + rs, num) == LastNumber(rs, num)
    ensures r.payload.Bytes? ==>
              AllBytes([r] + rs, r.num) == [r.payload.b] + AllBytes(rs, r.num)
              && AllBytes([r] + rs, 23 - r.num) == AllBytes(rs, 23 - r.num)
  {
    hide LastNumber, LastBytes, AllBytes;
    FirstRecord(r, rs, 1); FirstRecord(r, rs, 3); FirstRecord(r, rs, 6); FirstRecord(r, rs, 8); FirstRecord(r, rs, 9);
    FirstRecord(r, rs, 10); FirstRecord(r, rs, 11); FirstRecord(r, rs, 12); FirstRecord(r, rs, 13);
    assert [] + AllBytes(rs, 11) == AllBytes(rs, 11) && [] + AllBytes(rs, 12) == AllBytes(rs, 12);
  }

  lemma ReadsMoreTelemetry(m: Telemetry, r: Record, m': Message, rs: seq<Record>, n: Message)
    requires Declared(TelemetryKind, r.num) == Some(TypeOf(r.payload))
    requires Apply(OfTelemetry(m), r.num, r.payload) == Ok(m') && Reads(m', rs, n)
    ensures Reads(OfTelemetry(m), [r] + rs, n)
  {
    hide Decode, LastNumber, LastBytes, AllBytes, Continued, Merged, SetTelemetryScalar;
    if r.num == 11 {
      var child := Decode(OfField(EMPTY_FIELD), r.payload.b, 0).value.field;
      SameScalars(r, rs);
      ContinuedMore(m.dataGpbkv, r.payload.b, child, AllBytes(rs, 11), n.telemetry.dataGpbkv);
    } else if r.num == 12 {
      SameScalars(r, rs);
      MergedMore(m.dataGpb, r.payload.b, m'.telemetry.dataGpb.value, AllBytes(rs, 12), n.telemetry.dataGpb);
    } else {
      hide ReadsTelemetry;
      ReadsMoreScalar(m, r, rs, n.telemetry);
    }
  }

  lemma ReadsMoreFieldScalar(m: Field, r: Record, rs: seq<Record>, n: Field)
    requires Declared(FieldKind, r.num) == Some(TypeOf(r.payload)) && r.num != 15
    requires ReadsField(SetScalar(m, r.num, r.payload), rs, n)
    ensures ReadsField(m, [r] + rs, n)
  {
    hide LastNumber, LastBytes, LastValue, AllBytes, Continued, ReadValue;
    FirstRecord(r, rs, 1); FirstRecord(r, rs, 2); FirstRecord(r, rs, 15);
    FirstValue(r, rs);
    assert [] + AllBytes(rs, 15) == AllBytes(rs, 15);
  }

  lemma ReadsMoreField(m: Field, r: Record, m': Message, rs: seq<Record>, n: Message)
    requires Declared(FieldKind, r.num) == Some(TypeOf(r.payload))
    requires Apply(OfField(m), r.num, r.payload) == Ok(m') && Reads(m', rs, n)
    ensures Reads(OfField(m), [r] + rs, n)
  {
    hide Decode, LastNumber, LastBytes, LastValue, AllBytes, Continued, SetScalar, ReadValue;
    if r.num == 15 {
      FirstRecord(r, rs, 1); FirstRecord(r, rs, 2); FirstRecord(r, rs, 15);
      FirstValue(r, rs);
      var child := Decode(OfField(EMPTY_FIELD), r.payload.b, 0).value.field;
      ContinuedMore(m.fields, r.payload.b, child, AllBytes(rs, 15), n.field.fields);
    } else {
      hide ReadsField;
      ReadsMoreFieldScalar(m, r, rs, n.field);
    }
  }

  lemma ReadsMoreOther(m: Message, r: Record, m': Message, rs: seq<Record>, n: Message)
    requires m.OfTable? || m.OfRow? || m.OfDialout?
    requires Declared(KindOf(m), r.num) == Some(TypeOf(r.payload))
    requires Apply(m, r.num, r.payload) == Ok(m') && Reads(m', rs, n)
    ensures Reads(m, [r] + rs, n)
  {
    hide Decode, LastNumber, LastBytes, AllBytes, ContinuedRows;
    FirstRecord(r, rs, 1); FirstRecord(r, rs, 2); FirstRecord(r, rs, 3); FirstRecord(r, rs, 10); FirstRecord(r, rs, 11);
    if m.OfTable? {
      var row := Decode(OfRow(EMPTY_ROW), r.payload.b, 0).value.row;
      ContinuedRowsMore(m.table.rows, r.payload.b, row, AllBytes(rs, 1), n.table.rows);
    }
  }

  lemma ReadsMore(m: Message, r: Record, m': Message, rs: seq<Record>, n: Message)
    requires Declared(KindOf(m), r.num) == Some(TypeOf(r.payload))
    requires Apply(m, r.num, r.payload) == Ok(m') && Reads(m', rs, n)
    ensures Reads(m, [r] + rs, n)
  {
    hide Apply, Reads, Declared;
    match m
    case OfTelemetry(t) => ReadsMoreTelemetry(t, r, m', rs, n);
    case OfField(f) => ReadsMoreField(f, r, m', rs, n);
    case _ => ReadsMoreOther(m, r, m', rs, n);
  }

  lemma ReadsNothing(m: Message)
    ensures Reads(m, [], m)
  {}

  /** Last one wins, for every message and all bytes that decode into it: each scalar is that of
      the last record for its number and stays as it was without one, each list is continued
      by one element for each record, in order, and the embedded table by all its records. */
  lemma {:induction false} DecodeReads(m: Message, s: seq<byte>, at: nat)
    requires Decode(m, s, at).Ok?
    ensures Reads(m, Found(KindOf(m), s, at), Decode(m, s, at).value)
    decreases |s|
  {
    hide NextItem, Apply, Reads, Declared;
    if s == [] {
      ReadsNothing(m);
    } else {
      var next := NextItem(KindOf(m), s, at).value;
      var m' := ApplyItem(m, next.item).value;
      var rest := s[next.size..];
      DecodeReads(m', rest, at + next.size);
      var later := Found(KindOf(m), rest, at + next.size);
      if next.item.Known? {
        ReadsMore(m, Record(next.item.num, next.item.payload), m', later, Decode(m, s, at).value);
      } else {
        assert [] + later == later;
      }
    }
  }

  // ---- Narrow values -----------------------------------------------------------------------------------

  /** What a varint of any length means to the narrow members of the oneof: the 32-bit loops
      keep the low bits, and a boolean is whether the number is not zero. */
  lemma NarrowValues(s: seq<byte>)
    requires IsVarint(s)
    ensures var p := Number(ReadVarint(s).value.value);
            && ReadValue(6, p) == BoolValue(p.v != 0)
            && ReadValue(7, p) == Uint32Value(Loop32(s, 0, 0))
            && ReadValue(9, p) == Sint32Value(UnZigZag32(Loop32(s, 0, 0)))
  {
    Loop32IsLowBits(s);
    hide ReadVarint, Loop32, UnZigZag32;
  }
}

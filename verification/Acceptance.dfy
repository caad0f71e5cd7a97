/**
  Which bytes the decoder accepts, and which field numbers it knows: the grammar of fields on
  the wire on one side, what the encoder writes on the other.
 */
module Acceptance {
  import opened Wire
  import opened Skipping
  import opened Messages
  import opened Codec
  import opened Encoding
  import opened Totality
  import LastOneWins

  // ---- The grammar of a message --------------------------------------------------------------------

  /** The wire type that a field has. */
  predicate HasType(f: WireField, t: WireType) {
    match t
    case VarintType => f.VarintField?
    case Fixed64Type => f.Fixed64Field?
    case BytesType => f.LengthField?
    case Fixed32Type => f.Fixed32Field?
  }

  /** A field that a message of some kind may contain: any field with an undeclared positive
      number, or one with a declared number, its wire type and, if it holds a message, content
      that decodes. */
  predicate Fits(kind: Kind, f: WireField) {
    WellFormed(f) && IsVarint(f.tag) && TagNumber(f) > 0 &&
    match Declared(kind, TagNumber(f))
    case None => true
    case Some(t) =>
      HasType(f, t)
      && (f.LengthField? && Nested(kind, TagNumber(f)).Some? ==>
            Decode(Empty(Nested(kind, TagNumber(f)).value), f.content, 0).Ok?)
  }

  predicate AllFit(kind: Kind, fs: seq<WireField>) {
    forall i | 0 <= i < |fs| :: Fits(kind, fs[i])
  }

  // ---- Fields are accepted ----------------------------------------------------------------------------

  /** The payload of a field that is not a group. */
  function PayloadOf(f: WireField): Payload
    requires WellFormed(f) && !f.GroupField?
  {
    match f
    case VarintField(_, value) => Number(ReadVarint(value).value.value)
    case Fixed64Field(_, bits) => Fixed64(Fixed64Bits(bits))
    case LengthField(_, _, content) => Bytes(content)
    case Fixed32Field(_, bits) => Fixed32(Fixed32Bits(bits))
  }

  lemma PayloadRead(f: WireField, t: WireType, rest: seq<byte>, at: nat)
    requires WellFormed(f) && HasType(f, t) && |FieldBytes(f)| < TWO_63
    ensures TypeOf(PayloadOf(f)) == t && ReadVarint(f.tag).Ok? && ReadVarint(f.tag).value.value % 8 == Code(t)
    ensures var s := FieldBytes(f) + rest;
            |f.tag| <= |s| && ReadPayload(t, s[|f.tag|..], at) == Ok(Scanned(PayloadOf(f), |FieldBytes(f)| - |f.tag|))
  {
    hide ReadVarint;
    var s := FieldBytes(f) + rest;
    match f
    case VarintField(tag, value) =>
      assert s[|tag|..] == value + rest;
      VarintPrefix(value, rest);
    case Fixed64Field(tag, bits) =>
      assert s[|tag|..] == bits + rest && (bits + rest)[..8] == bits;
    case LengthField(tag, length, content) =>
      assert s[|tag|..] == length + (content + rest);
      VarintPrefix(length, content + rest);
      assert (length + (content + rest))[|length|..|length| + |content|] == content;
    case Fixed32Field(tag, bits) =>
      assert s[|tag|..] == bits + rest && (bits + rest)[..4] == bits;
  }

  /** The decoding loop finds a fitting field, and steps exactly over it. */
  lemma FieldScanned(kind: Kind, f: WireField, rest: seq<byte>, at: nat)
    requires Fits(kind, f) && |FieldBytes(f)| < TWO_63
    ensures var item := if Declared(kind, TagNumber(f)) == None then Unknown else Known(TagNumber(f), PayloadOf(f));
            NextItem(kind, FieldBytes(f) + rest, at) == Ok(Scanned(item, |FieldBytes(f)|))
  {
    hide ReadVarint, Skip, ReadPayload, Declared, FieldBytes, WellFormed, PayloadOf;
    ReadFieldTag(f, rest);
    match Declared(kind, TagNumber(f))
    case None => SkipExact(f, rest);
    case Some(t) => PayloadRead(f, t, rest, at + |f.tag|);
  }

  lemma FitsWellFormed(kind: Kind, f: WireField)
    requires Fits(kind, f)
    ensures WellFormed(f) && IsVarint(f.tag)
    ensures Declared(kind, TagNumber(f)).Some? ==> !f.GroupField?
  {}

  lemma FieldApplies(m: Message, f: WireField)
    requires Fits(KindOf(m), f) && Declared(KindOf(m), TagNumber(f)).Some?
    ensures Declared(KindOf(m), TagNumber(f)) == Some(TypeOf(PayloadOf(f)))
    ensures Apply(m, TagNumber(f), PayloadOf(f)).Ok?
  {
    hide Apply, Decode, ReadVarint, Declared, TagNumber;
    ApplyDecides(m, TagNumber(f), PayloadOf(f));
  }

  lemma FieldNotEmpty(f: WireField)
    requires WellFormed(f)
    ensures FieldBytes(f) != []
  {
    hide ReadVarint;
    ReadFieldTag(f, []);
    assert FieldBytes(f) + [] == FieldBytes(f);
  }

  lemma {:induction false} FieldsDecode(m: Message, fs: seq<WireField>, at: nat)
    requires AllFit(KindOf(m), fs) && |ItemsBytes(fs)| < TWO_63
    ensures Decode(m, ItemsBytes(fs), at).Ok?
    decreases |fs|
  {
    hide NextItem, FieldBytes, Apply, PayloadOf, Fits, TagNumber, Declared;
    if fs == [] {
    } else {
      var f, rest := fs[0], ItemsBytes(fs[1..]);
      assert Fits(KindOf(m), f) && ItemsBytes(fs) == FieldBytes(f) + rest;
      FitsWellFormed(KindOf(m), f);
      FieldScanned(KindOf(m), f, rest, at);
      FieldNotEmpty(f);
      hide ItemsBytes;
      assert (FieldBytes(f) + rest)[|FieldBytes(f)|..] == rest;
      if Declared(KindOf(m), TagNumber(f)).Some? {
        FieldApplies(m, f);
        FieldsDecode(Apply(m, TagNumber(f), PayloadOf(f)).value, fs[1..], at + |FieldBytes(f)|);
      } else {
        FieldsDecode(m, fs[1..], at + |FieldBytes(f)|);
      }
    }
  }

  // ---- What is accepted are fields ----------------------------------------------------------------------

  /** The field behind a payload. */
  lemma PayloadIsField(t: WireType, s: seq<byte>, at: nat) returns (f: WireField)
    requires ReadVarint(s).Ok? && ReadVarint(s).value.value % 8 == Code(t)
    requires ReadPayload(t, s[ReadVarint(s).value.size..], at).Ok?
    ensures WellFormed(f) && HasType(f, t) && f.tag == s[..ReadVarint(s).value.size]
    ensures var p := ReadPayload(t, s[|f.tag|..], at).value;
            FieldBytes(f) == s[..|f.tag| + p.size] && PayloadOf(f) == p.item
  {
    TagIsTag(s);
    hide ReadVarint;
    var size := ReadVarint(s).value.size;
    var tag, body := s[..size], s[size..];
    match t {
      case VarintType =>
        TakeVarint(body);
        var n := ReadVarint(body).value.size;
        f := VarintField(tag, body[..n]);
        assert tag + body[..n] == s[..size + n];
      case Fixed64Type =>
        f := Fixed64Field(tag, body[..8]);
        assert tag + body[..8] == s[..size + 8];
      case BytesType =>
        TakeVarint(body);
        var n, l := ReadVarint(body).value.size, ReadVarint(body).value.value;
        f := LengthField(tag, body[..n], body[n..n + l]);
        Joined(s, size, n, l);
      case Fixed32Type =>
        f := Fixed32Field(tag, body[..4]);
        assert tag + body[..4] == s[..size + 4];
    }
  }

  lemma Joined(s: seq<byte>, i: nat, n: nat, l: nat)
    requires i + n + l <= |s|
    ensures s[..i] + s[i..][..n] + s[i..][n..n + l] == s[..i + (n + l)]
  {
    assert s[i..][..n] == s[i..i + n] && s[i..][n..n + l] == s[i + n..i + n + l];
  }

  lemma ItemIsField(m: Message, s: seq<byte>, at: nat) returns (f: WireField)
    requires |s| < TWO_63 && NextItem(KindOf(m), s, at).Ok?
    requires ApplyItem(m, NextItem(KindOf(m), s, at).value.item).Ok?
    ensures Fits(KindOf(m), f) && FieldBytes(f) == s[..NextItem(KindOf(m), s, at).value.size]
  {
    hide ReadVarint, Skip, ReadPayload, Declared, FieldBytes, WellFormed, Apply, Decode;
    var kind, tag := KindOf(m), ReadVarint(s).value;
    var next := NextItem(kind, s, at).value;
    match Declared(kind, ToInt32(tag.value / 8)) {
      case None =>
        f := SkippedIsField(s);
        ReadFieldTag(f, s[next.size..]);
        assert s == s[..next.size] + s[next.size..];
        FieldTagIsVarint(f);
      case Some(t) =>
        f := PayloadIsField(t, s, at + tag.size);
        ReadFieldTag(f, s[next.size..]);
        assert s == s[..next.size] + s[next.size..];
        FieldTagIsVarint(f);
        ApplyDecides(m, ToInt32(tag.value / 8), next.item.payload);
    }
  }

  lemma FieldTagIsVarint(f: WireField)
    requires WellFormed(f)
    ensures IsVarint(f.tag)
  {}

  lemma {:induction false} DecodedAreFields(m: Message, s: seq<byte>, at: nat) returns (fs: seq<WireField>)
    requires |s| < TWO_63 && Decode(m, s, at).Ok?
    ensures AllFit(KindOf(m), fs) && ItemsBytes(fs) == s
    decreases |s|
  {
    hide NextItem, Apply, FieldBytes, Fits;
    if s == [] {
      fs := [];
    } else {
      var next := NextItem(KindOf(m), s, at).value;
      var f := ItemIsField(m, s, at);
      var rest := DecodedAreFields(ApplyItem(m, next.item).value, s[next.size..], at + next.size);
      fs := [f] + rest;
      assert fs[1..] == rest && s == s[..next.size] + s[next.size..];
    }
  }

  /** The decoder accepts exactly the concatenations of fitting fields. */
  lemma DecodesIff(m: Message, s: seq<byte>, at: nat)
    requires |s| < TWO_63
    ensures Decode(m, s, at).Ok? <==> exists fs :: AllFit(KindOf(m), fs) && ItemsBytes(fs) == s
  {
    hide Decode, AllFit, ItemsBytes;
    if Decode(m, s, at).Ok? {
      var fs := DecodedAreFields(m, s, at);
    }
    if fs :| AllFit(KindOf(m), fs) && ItemsBytes(fs) == s {
      FieldsDecode(m, fs, at);
    }
  }

  // ---- What fields are read as ----------------------------------------------------------------------------

  /** The records of the declared fields among some fields, in order. */
  function DeclaredRecords(kind: Kind, fs: seq<WireField>): seq<Record>
    requires AllFit(kind, fs)
  {
    if fs == [] then []
    else
      assert Fits(kind, fs[0]);
      (if Declared(kind, TagNumber(fs[0])).Some? then [Record(TagNumber(fs[0]), PayloadOf(fs[0]))] else [])
      + DeclaredRecords(kind, fs[1..])
  }

  lemma {:induction false} FoundInFields(kind: Kind, fs: seq<WireField>, at: nat)
    requires AllFit(kind, fs) && |ItemsBytes(fs)| < TWO_63
    ensures LastOneWins.Found(kind, ItemsBytes(fs), at) == DeclaredRecords(kind, fs)
    decreases |fs|
  {
    hide NextItem, FieldBytes, PayloadOf, TagNumber, Declared;
    if fs == [] {
    } else {
      var f, rest := fs[0], ItemsBytes(fs[1..]);
      assert Fits(kind, f) && ItemsBytes(fs) == FieldBytes(f) + rest;
      FitsWellFormed(kind, f);
      FieldScanned(kind, f, rest, at);
      FieldNotEmpty(f);
      hide ItemsBytes, Fits;
      assert (FieldBytes(f) + rest)[|FieldBytes(f)|..] == rest;
      FoundInFields(kind, fs[1..], at + |FieldBytes(f)|);
    }
  }

  /** Fitting fields decode into any message, and are read field by field: the last one wins,
      lists are continued, tables are merged, and undeclared fields are not there. */
  lemma FieldsAreRead(m: Message, fs: seq<WireField>)
    requires AllFit(KindOf(m), fs) && |ItemsBytes(fs)| < TWO_63
    ensures Decode(m, ItemsBytes(fs), 0).Ok?
    ensures LastOneWins.Reads(m, DeclaredRecords(KindOf(m), fs), Decode(m, ItemsBytes(fs), 0).value)
  {
    hide *;
    FieldsDecode(m, fs, 0);
    FoundInFields(KindOf(m), fs, 0);
    LastOneWins.DecodeReads(m, ItemsBytes(fs), 0);
  }

  // ---- The numbers that are declared ---------------------------------------------------------------------

  /** Some record of a message has this number and wire type. */
  predicate Writes(m: Message, num: int, t: WireType) {
    exists k :: 0 <= k < |RecordsOf(m)| && RecordsOf(m)[k].num == num && TypeOf(RecordsOf(m)[k].payload) == t
  }

  lemma DeclaresConcat(kind: Kind, a: seq<Record>, b: seq<Record>)
    requires Declares(kind, a) && Declares(kind, b)
    ensures Declares(kind, a + b)
  {}

  lemma {:induction false} ChildrenDeclared(kind: Kind, num: nat, fs: seq<Field>)
    requires Declared(kind, num) == Some(BytesType)
    ensures Declares(kind, ChildRecords(num, fs))
  {
    hide EncodeAll, FieldRecords;
    if fs == [] {
    } else {
      ChildrenDeclared(kind, num, fs[1..]);
    }
  }

  lemma {:induction false} RowsDeclared(rows: seq<Row>)
    ensures Declares(TableKind, RowListRecords(rows))
  {
    hide EncodeAll, RowRecords;
    if rows == [] {
    } else {
      RowsDeclared(rows[1..]);
    }
  }

  lemma HeadDeclared(t: Telemetry)
    ensures Declares(TelemetryKind, TelemetryHead(t))
  {}

  lemma TelemetryDeclared(t: Telemetry)
    ensures Declares(TelemetryKind, TelemetryRecords(t))
  {
    hide TelemetryHead, ChildRecords, EncodeAll, RowListRecords;
    var a, b := TelemetryHead(t), ChildRecords(11, t.dataGpbkv);
    var c, d := TableRecord(t.dataGpb), NumberRecord(13, t.collectionEndTime);
    HeadDeclared(t);
    ChildrenDeclared(TelemetryKind, 11, t.dataGpbkv);
    DeclaresConcat(TelemetryKind, a, b);
    assert Declares(TelemetryKind, c) && Declares(TelemetryKind, d);
    DeclaresConcat(TelemetryKind, a + b, c);
    DeclaresConcat(TelemetryKind, a + b + c, d);
  }

  lemma FieldDeclared(f: Field)
    ensures Declares(FieldKind, FieldRecords(f))
  {
    hide ChildRecords, EncodeAll, ZigZag32, ZigZag64;
    var scalars := NumberRecord(1, f.timestamp) + BytesRecord(2, f.name) + ValueRecords(f.value);
    ChildrenDeclared(FieldKind, 15, f.fields);
    assert Declares(FieldKind, scalars);
    DeclaresConcat(FieldKind, scalars, ChildRecords(15, f.fields));
  }

  /** A message writes only declared numbers, with their wire types. */
  lemma RecordsDeclared(m: Message)
    ensures Declares(KindOf(m), RecordsOf(m))
  {
    hide EncodeAll, TelemetryRecords, FieldRecords, RowListRecords;
    match m
    case OfTelemetry(t) => TelemetryDeclared(t);
    case OfField(f) => FieldDeclared(f);
    case OfTable(t) => RowsDeclared(t.rows);
    case _ =>
  }

  /** A message that writes one record of a declared number. */
  function Sample(kind: Kind, num: int): Message {
    match kind
    case TelemetryKind => OfTelemetry(
      if num == 1 then EMPTY_TELEMETRY.(nodeId := Some([]))
      else if num == 3 then EMPTY_TELEMETRY.(subscription := Some([]))
      else if num == 6 then EMPTY_TELEMETRY.(encodingPath := [1])
      else if num == 8 then EMPTY_TELEMETRY.(collectionId := 1)
      else if num == 9 then EMPTY_TELEMETRY.(collectionStartTime := 1)
      else if num == 10 then EMPTY_TELEMETRY.(msgTimestamp := 1)
      else if num == 11 then EMPTY_TELEMETRY.(dataGpbkv := [EMPTY_FIELD])
      else if num == 12 then EMPTY_TELEMETRY.(dataGpb := Some(EMPTY_TABLE))
      else EMPTY_TELEMETRY.(collectionEndTime := 1))
    case FieldKind => OfField(
      if num == 1 then EMPTY_FIELD.(timestamp := 1)
      else if num == 2 then EMPTY_FIELD.(name := [1])
      else if num == 4 then EMPTY_FIELD.(value := Some(BytesValue(Some([]))))
      else if num == 5 then EMPTY_FIELD.(value := Some(StringValue([])))
      else if num == 6 then EMPTY_FIELD.(value := Some(BoolValue(false)))
      else if num == 7 then EMPTY_FIELD.(value := Some(Uint32Value(0)))
      else if num == 8 then EMPTY_FIELD.(value := Some(Uint64Value(0)))
      else if num == 9 then EMPTY_FIELD.(value := Some(Sint32Value(0)))
      else if num == 10 then EMPTY_FIELD.(value := Some(Sint64Value(0)))
      else if num == 11 then EMPTY_FIELD.(value := Some(DoubleValue(0)))
      else if num == 12 then EMPTY_FIELD.(value := Some(FloatValue(0)))
      else EMPTY_FIELD.(fields := [EMPTY_FIELD]))
    case TableKind => OfTable(Table([EMPTY_ROW]))
    case RowKind => OfRow(
      if num == 1 then EMPTY_ROW.(timestamp := 1)
      else if num == 10 then EMPTY_ROW.(keys := [1])
      else EMPTY_ROW.(content := [1]))
    case DialoutKind => OfDialout(
      if num == 1 then EMPTY_DIALOUT.(reqId := 1)
      else if num == 2 then EMPTY_DIALOUT.(data := [1])
      else EMPTY_DIALOUT.(errors := [1]))
  }

  lemma OneChild(num: nat)
    ensures |ChildRecords(num, [EMPTY_FIELD])| == 1
    ensures ChildRecords(num, [EMPTY_FIELD])[0].num == num && ChildRecords(num, [EMPTY_FIELD])[0].payload.Bytes?
  {
    hide EncodeAll;
    assert ChildRecords(num, [EMPTY_FIELD][1..]) == [];
  }

  lemma OneRow()
    ensures |RowListRecords([EMPTY_ROW])| == 1
    ensures RowListRecords([EMPTY_ROW])[0].num == 1 && RowListRecords([EMPTY_ROW])[0].payload.Bytes?
  {
    hide EncodeAll;
    assert RowListRecords([EMPTY_ROW][1..]) == [];
  }

  lemma TelemetrySample(num: int, t: WireType)
    requires Declared(TelemetryKind, num) == Some(t)
    ensures var rs := RecordsOf(Sample(TelemetryKind, num));
            |rs| == 1 && rs[0].num == num && TypeOf(rs[0].payload) == t
  {
    OneChild(11);
    assert ChildRecords(11, []) == [];
    hide EncodeAll, RowListRecords, ChildRecords;
  }

  lemma OtherSample(kind: Kind, num: int, t: WireType)
    requires Declared(kind, num) == Some(t) && kind != TelemetryKind
    ensures var rs := RecordsOf(Sample(kind, num));
            |rs| == 1 && rs[0].num == num && TypeOf(rs[0].payload) == t
  {
    OneChild(15);
    OneRow();
    assert ChildRecords(15, []) == [];
    hide EncodeAll, RowListRecords, ChildRecords, ZigZag32, ZigZag64;
  }

  /** The sample writes that record and no other. */
  lemma SampleWrites(kind: Kind, num: int, t: WireType)
    requires Declared(kind, num) == Some(t)
    ensures KindOf(Sample(kind, num)) == kind && Writes(Sample(kind, num), num, t)
  {
    hide RecordsOf, Declared;
    if kind == TelemetryKind {
      TelemetrySample(num, t);
    } else {
      OtherSample(kind, num, t);
    }
  }

  /** A number is declared with a wire type exactly when some message of the kind writes it. */
  lemma DeclaredIffWritten(kind: Kind, num: int, t: WireType)
    ensures Declared(kind, num) == Some(t) <==> exists m :: KindOf(m) == kind && Writes(m, num, t)
  {
    hide Declared, RecordsOf;
    if Declared(kind, num) == Some(t) {
      SampleWrites(kind, num, t);
    }
    if m :| KindOf(m) == kind && Writes(m, num, t) {
      RecordsDeclared(m);
    }
  }

  // ---- The order of what is written ----------------------------------------------------------------------

  predicate Within(rs: seq<Record>, lo: nat, hi: nat) {
    forall i | 0 <= i < |rs| :: lo <= rs[i].num <= hi
  }

  predicate Ordered(rs: seq<Record>) {
    forall i, j | 0 <= i < j < |rs| :: rs[i].num <= rs[j].num
  }

  lemma OrderedConcat(a: seq<Record>, b: seq<Record>, lo: nat, mid: nat, hi: nat)
    requires Ordered(a) && Within(a, lo, mid) && Ordered(b) && Within(b, mid, hi) && lo <= mid <= hi
    ensures Ordered(a + b) && Within(a + b, lo, hi)
  {}

  lemma {:induction false} ChildrenWithin(num: nat, fs: seq<Field>)
    ensures Within(ChildRecords(num, fs), num, num)
  {
    hide EncodeAll, FieldRecords;
    if fs == [] {
    } else {
      ChildrenWithin(num, fs[1..]);
    }
  }

  lemma {:induction false} RowsWithin(rows: seq<Row>)
    ensures Within(RowListRecords(rows), 1, 1)
  {
    hide EncodeAll, RowRecords;
    if rows == [] {
    } else {
      RowsWithin(rows[1..]);
    }
  }

  lemma HeadOrdered(t: Telemetry)
    ensures Ordered(TelemetryHead(t)) && Within(TelemetryHead(t), 1, 10)
  {
    var a, b := OptionalRecord(1, t.nodeId), OptionalRecord(3, t.subscription);
    var c, d := BytesRecord(6, t.encodingPath), NumberRecord(8, t.collectionId);
    var e, f := NumberRecord(9, t.collectionStartTime), NumberRecord(10, t.msgTimestamp);
    assert Within(a, 1, 1) && Within(b, 1, 3) && Within(c, 3, 6) && Within(d, 6, 8) && Within(e, 8, 9) && Within(f, 9, 10);
    hide OptionalRecord, BytesRecord, NumberRecord;
    OrderedConcat(a, b, 1, 1, 3);
    OrderedConcat(a + b, c, 1, 3, 6);
    OrderedConcat(a + b + c, d, 1, 6, 8);
    OrderedConcat(a + b + c + d, e, 1, 8, 9);
    OrderedConcat(a + b + c + d + e, f, 1, 9, 10);
  }

  lemma TelemetryOrdered(t: Telemetry)
    ensures Ordered(TelemetryRecords(t))
  {
    hide TelemetryHead, ChildRecords, EncodeAll, RowListRecords;
    var a, b := TelemetryHead(t), ChildRecords(11, t.dataGpbkv);
    var c, d := TableRecord(t.dataGpb), NumberRecord(13, t.collectionEndTime);
    HeadOrdered(t);
    ChildrenWithin(11, t.dataGpbkv);
    assert Within(c, 11, 12) && Within(d, 12, 13);
    hide TableRecord, NumberRecord;
    OrderedConcat(a, b, 1, 10, 11);
    OrderedConcat(a + b, c, 1, 11, 12);
    OrderedConcat(a + b + c, d, 1, 12, 13);
  }

  lemma FieldOrdered(f: Field)
    ensures Ordered(FieldRecords(f))
  {
    hide ChildRecords, EncodeAll, ZigZag32, ZigZag64;
    var a, b, c, d := NumberRecord(1, f.timestamp), BytesRecord(2, f.name), ValueRecords(f.value), ChildRecords(15, f.fields);
    ChildrenWithin(15, f.fields);
    assert Within(a, 1, 1) && Within(b, 1, 2) && Within(c, 2, 12) && |c| <= 1;
    hide NumberRecord, BytesRecord, ValueRecords;
    OrderedConcat(a, b, 1, 1, 2);
    OrderedConcat(a + b, c, 1, 2, 12);
    OrderedConcat(a + b + c, d, 1, 12, 15);
  }

  /** Every message writes its fields in the order of their numbers. */
  lemma RecordsOrdered(m: Message)
    ensures Ordered(RecordsOf(m))
  {
    hide EncodeAll, TelemetryRecords, FieldRecords, RowListRecords;
    match m
    case OfTelemetry(t) => TelemetryOrdered(t);
    case OfField(f) => FieldOrdered(f);
    case OfTable(t) => RowsWithin(t.rows);
    case _ =>
  }

  /** A oneof that holds nil bytes is written like one that is not set. */
  lemma NilBytesNotWritten(f: Field)
    ensures Encode(OfField(f.(value := Some(BytesValue(None))))) == Encode(OfField(f.(value := None)))
  {}
}

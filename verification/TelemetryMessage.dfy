/**
  The messages above the fields: rows and tables of opaque bytes, and `Telemetry` itself.
 */
module TelemetryMessage {
  import opened Wire
  import opened Messages
  import opened Codec
  import opened Encoding
  import opened Buffers
  import opened FieldMessage

  class TelemetryRowGPB {
    var timestamp: uint64
    var keys: seq<byte>
    var content: seq<byte>

    ghost function Value(): Row
      reads this
    {
      Row(timestamp, keys, content)
    }

    constructor ()
      ensures Value() == EMPTY_ROW
    {
      timestamp, keys, content := 0, [], [];
    }

    method Size() returns (n: nat)
      requires |EncodeAll(RowRecords(Value()))| < TWO_63
      ensures n == |EncodeAll(RowRecords(Value()))|
    {
      RowParts(Value());
      hide EncodeAll, NumberRecord, BytesRecord;
      n := SizeNumber(1, timestamp);
      var l := SizeBytes(10, keys);
      n := n + l;
      l := SizeBytes(11, content);
      n := n + l;
    }

    method MarshalTo(a: array<byte>, at: nat) returns (end: nat)
      requires |EncodeAll(RowRecords(Value()))| < TWO_63
      requires at + |EncodeAll(RowRecords(Value()))| <= a.Length
      modifies a
      ensures end == at + |EncodeAll(RowRecords(Value()))|
      ensures a[..] == Splice(old(a[..]), at, EncodeAll(RowRecords(Value())))
    {
      RowParts(Value());
      hide EncodeAll, NumberRecord, BytesRecord, Splice, RowRecords;
      ghost var was := a[..];
      ghost var x, y := EncodeAll(NumberRecord(1, timestamp)), EncodeAll(BytesRecord(10, keys));
      end := PutNumber(a, at, 0x08, timestamp);
      end := PutBytes(a, end, 0x52, keys);
      SpliceSplice(was, at, x, y);
      end := PutBytes(a, end, 0x5a, content);
      SpliceSplice(was, at, x + y, EncodeAll(BytesRecord(11, content)));
    }

    /** Writes this row as an element of a table. */
    method MarshalNested(a: array<byte>, at: nat) returns (end: nat)
      requires |EncodeAll(RowRecords(Value()))| < TWO_63
      requires at + |EncodeRecord(Record(1, Bytes(EncodeAll(RowRecords(Value())))))| <= a.Length
      modifies a
      ensures end == at + |EncodeRecord(Record(1, Bytes(EncodeAll(RowRecords(Value())))))|
      ensures a[..] == Splice(old(a[..]), at, EncodeRecord(Record(1, Bytes(EncodeAll(RowRecords(Value()))))))
    {
      ghost var bytes := EncodeAll(RowRecords(Value()));
      SpliceNested(a[..], at, 1, bytes);
      hide EncodeRecord, EncodeAll, Splice, Header, RowRecords;
      var size := Size();
      end := PutHeader(a, at, 0x0a, size);
      end := MarshalTo(a, end);
    }

    method Set(num: int, p: Payload)
      requires Declared(RowKind, num) == Some(TypeOf(p))
      modifies this
      ensures Value() == SetRow(old(Value()), num, p)
    {
      match num {
        case 1 => timestamp := p.v;
        case 10 => keys := p.b;
        case _ => content := p.b;
      }
    }

    method Unmarshal(a: array<byte>, lo: nat, hi: nat) returns (err: Option<Error>)
      requires lo <= hi <= a.Length
      modifies this
      ensures err == ErrorOf(Decode(OfRow(old(Value())), a[lo..hi], 0))
      ensures err.None? ==> Decode(OfRow(old(Value())), a[lo..hi], 0) == Ok(OfRow(Value()))
    {
      hide NextItem, SetRow, Declared, Decode;
      var i := lo;
      while i < hi
        invariant lo <= i <= hi
        invariant Decode(OfRow(old(Value())), a[lo..hi], 0) == Decode(OfRow(Value()), a[i..hi], i - lo)
      {
        var next := NextField(RowKind, a, lo, i, hi);
        DecodeStep(OfRow(Value()), a[i..hi], i - lo);
        if next.Err? {
          return Some(next.error);
        }
        var end := i + next.value.size;
        assert a[i..hi][next.value.size..] == a[end..hi];
        if next.value.item.Known? {
          Set(next.value.item.num, next.value.item.payload);
        }
        i := end;
      }
      assert a[i..hi] == [];
      DecodeNothing(OfRow(Value()), i - lo);
      err := None;
    }
  }

  class TelemetryGPBTable {
    var rows: seq<TelemetryRowGPB>

    ghost var model: Table
    ghost var Repr: set<TelemetryRowGPB>

    ghost predicate Valid()
      reads this, Repr
    {
      && |model.rows| == |rows|
      && (forall i | 0 <= i < |rows| :: rows[i] in Repr && rows[i].Value() == model.rows[i])
    }

    constructor ()
      ensures Valid() && model == EMPTY_TABLE && Repr == {}
    {
      rows, model, Repr := [], EMPTY_TABLE, {};
    }

    method Size() returns (n: nat)
      requires Valid() && |EncodeAll(RowListRecords(model.rows))| < TWO_63
      ensures n == |EncodeAll(RowListRecords(model.rows))|
    {
      hide EncodeAll, EncodeRecord, RowRecords;
      n := 0;
      assert model.rows[0..] == model.rows;
      var k := 0;
      while k < |rows|
        invariant 0 <= k <= |rows|
        invariant n + |EncodeAll(RowListRecords(model.rows[k..]))| == |EncodeAll(RowListRecords(model.rows))|
      {
        ghost var rest := model.rows[k..];
        RowsCons(rest);
        assert rest[1..] == model.rows[k + 1..];
        var l := rows[k].Size();
        l := SizeNested(1, l, EncodeAll(RowRecords(rest[0])));
        n := n + l;
        k := k + 1;
      }
      EncodeAllNothing();
    }

    method MarshalTo(a: array<byte>, at: nat) returns (end: nat)
      requires Valid() && |EncodeAll(RowListRecords(model.rows))| < TWO_63
      requires at + |EncodeAll(RowListRecords(model.rows))| <= a.Length
      modifies a
      ensures end == at + |EncodeAll(RowListRecords(model.rows))|
      ensures a[..] == Splice(old(a[..]), at, EncodeAll(RowListRecords(model.rows)))
    {
      hide EncodeAll, EncodeRecord, RowRecords, Splice;
      ghost var done: seq<byte> := [];
      SpliceNothing(a[..], at);
      assert model.rows[0..] == model.rows;
      end := at;
      var k := 0;
      while k < |rows|
        invariant 0 <= k <= |rows| && end == at + |done|
        invariant done + EncodeAll(RowListRecords(model.rows[k..])) == EncodeAll(RowListRecords(model.rows))
        invariant a[..] == Splice(old(a[..]), at, done)
      {
        ghost var rest := model.rows[k..];
        ghost var record := EncodeRecord(Record(1, Bytes(EncodeAll(RowRecords(rest[0])))));
        RowsCons(rest);
        assert rest[1..] == model.rows[k + 1..];
        end := rows[k].MarshalNested(a, end);
        SpliceSplice(old(a[..]), at, done, record);
        done := done + record;
        k := k + 1;
      }
      EncodeAllNothing();
      assert done + [] == done;
    }

    /** Writes this table as the `data_gpb` of a telemetry message. */
    method MarshalNested(a: array<byte>, at: nat) returns (end: nat)
      requires Valid() && |EncodeAll(RowListRecords(model.rows))| < TWO_63
      requires at + |EncodeRecord(Record(12, Bytes(EncodeAll(RowListRecords(model.rows)))))| <= a.Length
      modifies a
      ensures end == at + |EncodeRecord(Record(12, Bytes(EncodeAll(RowListRecords(model.rows)))))|
      ensures a[..] == Splice(old(a[..]), at, EncodeRecord(Record(12, Bytes(EncodeAll(RowListRecords(model.rows))))))
    {
      ghost var bytes := EncodeAll(RowListRecords(model.rows));
      SpliceNested(a[..], at, 12, bytes);
      hide EncodeAll, EncodeRecord, RowListRecords, Splice, Header;
      var size := Size();
      end := PutHeader(a, at, 0x62, size);
      end := MarshalTo(a, end);
    }

    /** Decodes a new row from `a[lo..hi]`. */
    method UnmarshalRow(a: array<byte>, lo: nat, hi: nat) returns (err: Option<Error>)
      requires Valid() && lo <= hi <= a.Length
      modifies this
      ensures Valid() && fresh(Repr - old(Repr))
      ensures err == ErrorOf(Apply(OfTable(old(model)), 1, Bytes(a[lo..hi])))
      ensures err.None? ==> Apply(OfTable(old(model)), 1, Bytes(a[lo..hi])) == Ok(OfTable(model))
    {
      hide Decode, Declared;
      var row := new TelemetryRowGPB();
      rows := rows + [row];
      Repr := Repr + {row};
      err := row.Unmarshal(a, lo, hi);
      model := Table(model.rows + [row.Value()]);
    }

    method Unmarshal(a: array<byte>, lo: nat, hi: nat) returns (err: Option<Error>)
      requires Valid() && lo <= hi <= a.Length
      modifies this
      ensures Valid() && fresh(Repr - old(Repr))
      ensures err == ErrorOf(Decode(OfTable(old(model)), a[lo..hi], 0))
      ensures err.None? ==> Decode(OfTable(old(model)), a[lo..hi], 0) == Ok(OfTable(model))
    {
      hide NextItem, Declared, Decode;
      var i := lo;
      while i < hi
        invariant lo <= i <= hi && Valid() && fresh(Repr - old(Repr))
        invariant Decode(OfTable(old(model)), a[lo..hi], 0) == Decode(OfTable(model), a[i..hi], i - lo)
      {
        var next := NextField(TableKind, a, lo, i, hi);
        DecodeStep(OfTable(model), a[i..hi], i - lo);
        if next.Err? {
          return Some(next.error);
        }
        var end := i + next.value.size;
        assert a[i..hi][next.value.size..] == a[end..hi];
        if next.value.item.Known? {
          var p := next.value.item.payload;
          TablesDeclareRows(next.value.item.num, p);
          err := UnmarshalRow(a, end - |p.b|, end);
          if err.Some? {
            return;
          }
        }
        i := end;
      }
      assert a[i..hi] == [];
      DecodeNothing(OfTable(model), i - lo);
      err := None;
    }
  }

  lemma TablesDeclareRows(num: int, p: Payload)
    requires Declared(TableKind, num) == Some(TypeOf(p))
    ensures num == 1 && p.Bytes?
  {}

  class Telemetry {
    var nodeId: Option<seq<byte>>
    var subscription: Option<seq<byte>>
    var encodingPath: seq<byte>
    var collectionId: uint64
    var collectionStartTime: uint64
    var msgTimestamp: uint64
    var dataGpbkv: seq<TelemetryField>
    var dataGpb: TelemetryGPBTable?
    var collectionEndTime: uint64

    ghost var model: Messages.Telemetry
    ghost var fieldRepr: set<TelemetryField>

    /** The objects below this one. */
    ghost predicate ValidParts()
      reads this, fieldRepr, dataGpb, if dataGpb == null then {} else dataGpb.Repr
    {
      && ValidFields(dataGpbkv, fieldRepr, model.dataGpbkv)
      && (if dataGpb == null then model.dataGpb == None
          else dataGpb.Valid() && model.dataGpb == Some(dataGpb.model))
    }

    ghost predicate Valid()
      reads this, fieldRepr, dataGpb, if dataGpb == null then {} else dataGpb.Repr
    {
      && ValidParts()
      && model == Messages.Telemetry(nodeId, subscription, encodingPath, collectionId, collectionStartTime,
                                     msgTimestamp, model.dataGpbkv, model.dataGpb, collectionEndTime)
    }

    constructor ()
      ensures Valid() && model == EMPTY_TELEMETRY && dataGpb == null
    {
      nodeId, subscription, encodingPath := None, None, [];
      collectionId, collectionStartTime, msgTimestamp, collectionEndTime := 0, 0, 0, 0;
      dataGpbkv, dataGpb := [], null;
      model, fieldRepr := EMPTY_TELEMETRY, {};
    }

    method SizeHead() returns (n: nat)
      requires Valid() && |EncodeAll(TelemetryHead(model))| < TWO_63
      ensures n == |EncodeAll(TelemetryHead(model))|
    {
      HeadParts(model);
      hide EncodeAll, NumberRecord, BytesRecord, OptionalRecord, TelemetryHead;
      n := SizeOptional(1, nodeId);
      var l := SizeOptional(3, subscription);
      n := n + l;
      l := SizeBytes(6, encodingPath);
      n := n + l;
      l := SizeNumber(8, collectionId);
      n := n + l;
      l := SizeNumber(9, collectionStartTime);
      n := n + l;
      l := SizeNumber(10, msgTimestamp);
      n := n + l;
    }

    method Size() returns (n: nat)
      requires Valid() && |Encode(OfTelemetry(model))| < TWO_63
      ensures n == |Encode(OfTelemetry(model))|
    {
      TelemetryParts(model);
      TableParts(model.dataGpb);
      hide Encode, EncodeAll, EncodeRecord, NumberRecord, TelemetryHead, ChildRecords, RowListRecords, TableRecord;
      n := SizeHead();
      var l := SizeFields(11, dataGpbkv, fieldRepr, model.dataGpbkv);
      n := n + l;
      if dataGpb != null {
        l := dataGpb.Size();
        l := SizeNested(12, l, EncodeAll(RowListRecords(model.dataGpb.value.rows)));
        n := n + l;
      }
      l := SizeNumber(13, collectionEndTime);
      n := n + l;
    }

    method MarshalHead(a: array<byte>, at: nat) returns (end: nat)
      requires Valid() && |EncodeAll(TelemetryHead(model))| < TWO_63
      requires at + |EncodeAll(TelemetryHead(model))| <= a.Length
      modifies a
      ensures end == at + |EncodeAll(TelemetryHead(model))|
      ensures a[..] == Splice(old(a[..]), at, EncodeAll(TelemetryHead(model)))
    {
      HeadParts(model);
      hide EncodeAll, NumberRecord, BytesRecord, OptionalRecord, TelemetryHead, Splice;
      ghost var was := a[..];
      ghost var done := EncodeAll(OptionalRecord(1, nodeId));
      end := PutOptional(a, at, 0x0a, nodeId);
      end := PutOptional(a, end, 0x1a, subscription);
      SpliceSplice(was, at, done, EncodeAll(OptionalRecord(3, subscription)));
      done := done + EncodeAll(OptionalRecord(3, subscription));
      end := PutBytes(a, end, 0x32, encodingPath);
      SpliceSplice(was, at, done, EncodeAll(BytesRecord(6, encodingPath)));
      done := done + EncodeAll(BytesRecord(6, encodingPath));
      end := PutNumber(a, end, 0x40, collectionId);
      SpliceSplice(was, at, done, EncodeAll(NumberRecord(8, collectionId)));
      done := done + EncodeAll(NumberRecord(8, collectionId));
      end := PutNumber(a, end, 0x48, collectionStartTime);
      SpliceSplice(was, at, done, EncodeAll(NumberRecord(9, collectionStartTime)));
      done := done + EncodeAll(NumberRecord(9, collectionStartTime));
      end := PutNumber(a, end, 0x50, msgTimestamp);
      SpliceSplice(was, at, done, EncodeAll(NumberRecord(10, msgTimestamp)));
    }

    method MarshalTable(a: array<byte>, at: nat) returns (end: nat)
      requires Valid() && |EncodeAll(TableRecord(model.dataGpb))| < TWO_63
      requires at + |EncodeAll(TableRecord(model.dataGpb))| <= a.Length
      modifies a
      ensures end == at + |EncodeAll(TableRecord(model.dataGpb))|
      ensures a[..] == Splice(old(a[..]), at, EncodeAll(TableRecord(model.dataGpb)))
    {
      TableParts(model.dataGpb);
      end := at;
      SpliceNothing(a[..], at);
      if dataGpb != null {
        hide EncodeAll, EncodeRecord, RowListRecords, Splice;
        end := dataGpb.MarshalNested(a, end);
      }
    }

    method MarshalTo(a: array<byte>, at: nat) returns (end: nat)
      requires Valid() && |Encode(OfTelemetry(model))| < TWO_63
      requires at + |Encode(OfTelemetry(model))| <= a.Length
      modifies a
      ensures end == at + |Encode(OfTelemetry(model))|
      ensures a[..] == Splice(old(a[..]), at, Encode(OfTelemetry(model)))
    {
      TelemetryParts(model);
      hide Encode, EncodeAll, NumberRecord, TelemetryHead, ChildRecords, TableRecord, Splice;
      ghost var was := a[..];
      ghost var done := EncodeAll(TelemetryHead(model));
      end := MarshalHead(a, at);
      end := MarshalFields(a, end, 0x5a, 11, dataGpbkv, fieldRepr, model.dataGpbkv);
      SpliceSplice(was, at, done, EncodeAll(ChildRecords(11, model.dataGpbkv)));
      done := done + EncodeAll(ChildRecords(11, model.dataGpbkv));
      end := MarshalTable(a, end);
      SpliceSplice(was, at, done, EncodeAll(TableRecord(model.dataGpb)));
      done := done + EncodeAll(TableRecord(model.dataGpb));
      end := PutNumber(a, end, 0x68, collectionEndTime);
      SpliceSplice(was, at, done, EncodeAll(NumberRecord(13, collectionEndTime)));
    }

    method Marshal() returns (a: array<byte>)
      requires Valid() && |Encode(OfTelemetry(model))| < TWO_63
      ensures fresh(a) && a[..] == Encode(OfTelemetry(model))
    {
      hide Encode;
      var size := Size();
      a := new byte[size](_ => 0);
      var n := MarshalTo(a, 0);
    }

    /** The cases of the `switch` that overwrite a scalar. */
    method SetScalar(num: int, p: Payload)
      requires Valid() && Declared(TelemetryKind, num) == Some(TypeOf(p)) && num != 11 && num != 12
      modifies this`nodeId, this`subscription, this`encodingPath, this`collectionId,
               this`collectionStartTime, this`msgTimestamp, this`collectionEndTime, this`model
      ensures Valid() && model == SetTelemetryScalar(old(model), num, p)
    {
      hide ValidFields;
      match num {
        case 1 => nodeId := Some(p.b);
        case 3 => subscription := Some(p.b);
        case 6 => encodingPath := p.b;
        case 8 => collectionId := p.v;
        case 9 => collectionStartTime := p.v;
        case 10 => msgTimestamp := p.v;
        case _ => collectionEndTime := p.v;
      }
      model := SetTelemetryScalar(model, num, p);
    }

    /** The `data_gpbkv` case: a new field, decoded from `a[lo..hi]`. */
    method UnmarshalField(a: array<byte>, lo: nat, hi: nat) returns (err: Option<Error>)
      requires Valid() && lo <= hi <= a.Length
      modifies this`dataGpbkv, this`model, this`fieldRepr
      ensures Valid() && fresh(fieldRepr - old(fieldRepr))
      ensures err == ErrorOf(Apply(OfTelemetry(old(model)), 11, Bytes(a[lo..hi])))
      ensures err.None? ==> Apply(OfTelemetry(old(model)), 11, Bytes(a[lo..hi])) == Ok(OfTelemetry(model))
    {
      hide Decode, Apply, ValidFields;
      ApplyGpbkv(model, a[lo..hi]);
      var child := new TelemetryField();
      dataGpbkv := dataGpbkv + [child];
      err := child.Unmarshal(a, lo, hi);
      AppendField(old(dataGpbkv), fieldRepr, model.dataGpbkv, child);
      model := model.(dataGpbkv := model.dataGpbkv + [child.model]);
      fieldRepr := fieldRepr + child.Repr;
    }

    /** The `data_gpb` case: `a[lo..hi]` is merged into the table, which is made if missing. */
    method UnmarshalTable(a: array<byte>, lo: nat, hi: nat) returns (err: Option<Error>)
      requires Valid() && lo <= hi <= a.Length
      modifies this`dataGpb, this`model, dataGpb
      ensures Valid() && dataGpb != null
      ensures if old(dataGpb) == null then fresh(dataGpb) && fresh(dataGpb.Repr)
              else dataGpb == old(dataGpb) && fresh(dataGpb.Repr - old(dataGpb.Repr))
      ensures err == ErrorOf(Apply(OfTelemetry(old(model)), 12, Bytes(a[lo..hi])))
      ensures err.None? ==> Apply(OfTelemetry(old(model)), 12, Bytes(a[lo..hi])) == Ok(OfTelemetry(model))
    {
      hide Decode, Apply, ValidFields;
      ApplyGpb(model, a[lo..hi]);
      if dataGpb == null {
        dataGpb := new TelemetryGPBTable();
      }
      err := dataGpb.Unmarshal(a, lo, hi);
      model := model.(dataGpb := Some(dataGpb.model));
    }

    method Unmarshal(a: array<byte>, lo: nat, hi: nat) returns (err: Option<Error>)
      requires Valid() && lo <= hi <= a.Length
      modifies this, dataGpb
      ensures Valid() && fresh(fieldRepr - old(fieldRepr))
      ensures err == ErrorOf(Decode(OfTelemetry(old(model)), a[lo..hi], 0))
      ensures err.None? ==> Decode(OfTelemetry(old(model)), a[lo..hi], 0) == Ok(OfTelemetry(model))
    {
      hide NextItem, SetTelemetryScalar, Declared, Decode, Apply, ValidFields;
      var i := lo;
      while i < hi
        invariant lo <= i <= hi && Valid() && fresh(fieldRepr - old(fieldRepr))
        invariant dataGpb == old(dataGpb) || (dataGpb != null && fresh(dataGpb))
        invariant Decode(OfTelemetry(old(model)), a[lo..hi], 0) == Decode(OfTelemetry(model), a[i..hi], i - lo)
      {
        var next := NextField(TelemetryKind, a, lo, i, hi);
        DecodeStep(OfTelemetry(model), a[i..hi], i - lo);
        if next.Err? {
          return Some(next.error);
        }
        var end := i + next.value.size;
        assert a[i..hi][next.value.size..] == a[end..hi];
        if next.value.item.Known? {
          var num, p := next.value.item.num, next.value.item.payload;
          TelemetryLists(num, p);
          if num == 11 {
            err := UnmarshalField(a, end - |p.b|, end);
            if err.Some? {
              return;
            }
          } else if num == 12 {
            err := UnmarshalTable(a, end - |p.b|, end);
            if err.Some? {
              return;
            }
          } else {
            ApplyScalar(model, num, p);
            SetScalar(num, p);
          }
        }
        i := end;
      }
      assert a[i..hi] == [];
      DecodeNothing(OfTelemetry(model), i - lo);
      err := None;
    }
  }

  lemma TelemetryLists(num: int, p: Payload)
    requires Declared(TelemetryKind, num) == Some(TypeOf(p))
    ensures num in {11, 12} ==> p.Bytes?
  {}

  lemma ApplyGpbkv(t: Messages.Telemetry, b: seq<byte>)
    ensures var r := Decode(OfField(EMPTY_FIELD), b, 0);
            Apply(OfTelemetry(t), 11, Bytes(b)) ==
              if r.Err? then Err(r.error)
              else Ok(OfTelemetry(t.(dataGpbkv := t.dataGpbkv + [r.value.field])))
  {
    hide Decode;
  }

  lemma ApplyGpb(t: Messages.Telemetry, b: seq<byte>)
    ensures var r := Decode(OfTable(if t.dataGpb.Some? then t.dataGpb.value else EMPTY_TABLE), b, 0);
            Apply(OfTelemetry(t), 12, Bytes(b)) ==
              if r.Err? then Err(r.error) else Ok(OfTelemetry(t.(dataGpb := Some(r.value.table))))
  {
    hide Decode;
  }

  lemma ApplyScalar(t: Messages.Telemetry, num: int, p: Payload)
    requires Declared(TelemetryKind, num) == Some(TypeOf(p)) && num != 11 && num != 12
    ensures Apply(OfTelemetry(t), num, p) == Ok(OfTelemetry(SetTelemetryScalar(t, num, p)))
  {
    hide Decode;
  }

  lemma TableParts(t: Option<Messages.Table>)
    ensures EncodeAll(TableRecord(t))
         == if t.None? then [] else EncodeRecord(Record(12, Bytes(EncodeAll(RowListRecords(t.value.rows)))))
    ensures t.Some? ==> |EncodeAll(RowListRecords(t.value.rows))| < |EncodeAll(TableRecord(t))|
  {
    if t.Some? {
      hide RowListRecords;
      ConsRecord(12, EncodeAll(RowListRecords(t.value.rows)), []);
      EncodeOne(Record(12, Bytes(EncodeAll(RowListRecords(t.value.rows)))));
    }
  }
}

/**
  The recursive message `TelemetryField` as an object: `Size`, `MarshalTo`, `Marshal` and
  `Unmarshal`, proved against the functions of `Encoding` and `Codec`; and the parts of these
  methods that all messages share.
 */
module FieldMessage {
  import opened Wire
  import opened Messages
  import opened Codec
  import opened Encoding
  import opened Buffers

  // ---- Sizes shared by all messages ----------------------------------------------------------------

  method SizeNumber(num: nat, v: uint64) returns (n: nat)
    requires 1 <= num <= 15
    ensures n == |EncodeAll(NumberRecord(num, v))|
  {
    n := 0;
    if v != 0 {
      EncodeOne(Record(num, Number(v)));
      OneByte(8 * num);
      n := Sov(v);
      n := 1 + n;
    }
  }

  method SizeString(num: nat, b: seq<byte>) returns (n: nat)
    requires 1 <= num <= 15 && |b| < TWO_63
    ensures n == |EncodeRecord(Record(num, Bytes(b)))|
  {
    OneByte(8 * num + 2);
    var l := |b|;
    n := Sov(l);
    n := 1 + l + n;
  }

  method SizeBytes(num: nat, b: seq<byte>) returns (n: nat)
    requires 1 <= num <= 15 && |b| < TWO_63
    ensures n == |EncodeAll(BytesRecord(num, b))|
  {
    n := 0;
    if |b| > 0 {
      EncodeOne(Record(num, Bytes(b)));
      n := SizeString(num, b);
    }
  }

  method SizeOptional(num: nat, b: Option<seq<byte>>) returns (n: nat)
    requires 1 <= num <= 15 && (b.Some? ==> |b.value| < TWO_63)
    ensures n == |EncodeAll(OptionalRecord(num, b))|
  {
    n := 0;
    if b.Some? {
      EncodeOne(Record(num, Bytes(b.value)));
      n := SizeString(num, b.value);
    }
  }

  /** The size of a nested message of `l` bytes with its tag and length. */
  method SizeNested(num: nat, l: uint64, ghost b: seq<byte>) returns (n: nat)
    requires 1 <= num <= 15 && |b| == l
    ensures n == |EncodeRecord(Record(num, Bytes(b)))|
  {
    OneByte(8 * num + 2);
    n := Sov(l);
    n := 1 + l + n;
  }

  method SizeValue(v: Value) returns (n: nat)
    requires |EncodeAll(ValueRecord(v))| < TWO_63
    ensures n == |EncodeAll(ValueRecord(v))|
  {
    hide ZigZag32, ZigZag64;
    ghost var rs := ValueRecord(v);
    ValueFits(v);
    if rs != [] {
      EncodeOne(rs[0]);
      OneByte(8 * rs[0].num + Code(TypeOf(rs[0].payload)));
    }
    match v {
      case BytesValue(bytes) => n := SizeOptional(4, bytes);
      case StringValue(text) => n := SizeString(5, text);
      case BoolValue(_) => n := 2;
      case Uint32Value(x) => n := Sov(x); n := 1 + n;
      case Uint64Value(x) => n := Sov(x); n := 1 + n;
      case Sint32Value(x) => ZigZagWidthsAgree(x); n := Soz(x); n := 1 + n;
      case Sint64Value(x) => n := Soz(x); n := 1 + n;
      case DoubleValue(_) => n := 9;
      case FloatValue(_) => n := 5;
    }
  }

  lemma ValueFits(v: Value)
    requires |EncodeAll(ValueRecord(v))| < TWO_63
    ensures v.BytesValue? && v.bytes.Some? ==> |v.bytes.value| < TWO_63
    ensures v.StringValue? ==> |v.text| < TWO_63
    ensures ValueRecord(v) != [] ==> |ValueRecord(v)| == 1 && 4 <= ValueRecord(v)[0].num <= 12
  {
    if ValueRecord(v) != [] {
      EncodeOne(ValueRecord(v)[0]);
    }
  }

  /** The members of the oneof share this contract. */
  method PutValue(a: array<byte>, at: nat, v: Value) returns (end: nat)
    requires |EncodeAll(ValueRecord(v))| < TWO_63 && at + |EncodeAll(ValueRecord(v))| <= a.Length
    modifies a
    ensures end == at + |EncodeAll(ValueRecord(v))|
    ensures a[..] == Splice(old(a[..]), at, EncodeAll(ValueRecord(v)))
  {
    ValueFits(v);
    if ValueRecord(v) != [] {
      EncodeOne(ValueRecord(v)[0]);
    }
    hide Splice, EncodeRecord, EncodeAll;
    if v.BytesValue? {
      end := PutOptional(a, at, 0x22, v.bytes);
    } else if v.StringValue? {
      end := PutString(a, at, 0x2a, v.text);
    } else if v.DoubleValue? {
      end := PutFixed(a, at, 0x59, 11, Fixed64(v.bits64), v.bits64, 8);
    } else if v.FloatValue? {
      end := PutFixed(a, at, 0x65, 12, Fixed32(v.bits32), v.bits32, 4);
    } else {
      end := PutNumericValue(a, at, v);
    }
  }

  method PutNumericValue(a: array<byte>, at: nat, v: Value) returns (end: nat)
    requires v.BoolValue? || v.Uint32Value? || v.Uint64Value? || v.Sint32Value? || v.Sint64Value?
    requires at + |EncodeAll(ValueRecord(v))| <= a.Length
    modifies a
    ensures end == at + |EncodeAll(ValueRecord(v))|
    ensures a[..] == Splice(old(a[..]), at, EncodeAll(ValueRecord(v)))
  {
    hide Splice, EncodeRecord, EncodeAll, ZigZag32, ZigZag64;
    EncodeOne(ValueRecord(v)[0]);
    match v {
      case BoolValue(flag) => end := PutVarint(a, at, 0x30, 6, if flag then 1 else 0);
      case Uint32Value(x) => end := PutVarint(a, at, 0x38, 7, x);
      case Uint64Value(x) => end := PutVarint(a, at, 0x40, 8, x);
      case Sint32Value(x) => end := PutVarint(a, at, 0x48, 9, ZigZag32(x));
      case Sint64Value(x) => end := PutVarint(a, at, 0x50, 10, ZigZag64(x));
    }
  }

  /** A number of the oneof, written even when zero. */
  method PutVarint(a: array<byte>, at: nat, tag: byte, ghost num: nat, v: uint64) returns (end: nat)
    requires tag == 8 * num < 0x80 && at + |EncodeRecord(Record(num, Number(v)))| <= a.Length
    modifies a
    ensures end == at + |EncodeRecord(Record(num, Number(v)))|
    ensures a[..] == Splice(old(a[..]), at, EncodeRecord(Record(num, Number(v))))
  {
    OneByte(tag);
    end := PutHeader(a, at, tag, v);
  }

  method PutFixed(a: array<byte>, at: nat, tag: byte, ghost num: nat, ghost p: Payload, bits: nat, width: nat)
    returns (end: nat)
    requires tag == 8 * num + Code(TypeOf(p)) < 0x80
    requires EncodePayload(p) == LittleEndian(bits, width)
    requires at + |EncodeRecord(Record(num, p))| <= a.Length
    modifies a
    ensures end == at + |EncodeRecord(Record(num, p))|
    ensures a[..] == Splice(old(a[..]), at, EncodeRecord(Record(num, p)))
  {
    OneByte(tag);
    hide Splice, LittleEndian, EncodePayload;
    end := PutTag(a, at, tag);
    end := PutLittleEndian(a, end, bits, width);
    SpliceSplice(old(a[..]), at, EncodeVarint(tag), LittleEndian(bits, width));
  }

  /** What an `Unmarshal` reports: no error exactly when the bytes decode. */
  function ErrorOf<T>(r: Result<T>): Option<Error> {
    match r case Ok(_) => None case Err(e) => Some(e)
  }

  // ---- TelemetryField --------------------------------------------------------------------------------

  class TelemetryField {
    var timestamp: uint64
    var name: seq<byte>
    var valueByType: Option<Value>
    var fields: seq<TelemetryField>

    ghost var model: Field
    ghost var Repr: set<TelemetryField>

    ghost predicate Valid()
      reads this, Repr
      ensures Valid() ==> this in Repr
      decreases Repr, 0
    {
      && this in Repr
      && ValidFields(fields, Repr - {this}, model.fields)
      && model == Field(timestamp, name, valueByType, model.fields)
    }

    constructor ()
      ensures Valid() && model == EMPTY_FIELD && Repr == {this} && fresh(this)
    {
      timestamp, name, valueByType, fields := 0, [], None, [];
      model, Repr := EMPTY_FIELD, {this};
    }

    /** The number of bytes `MarshalTo` writes. */
    method Size() returns (n: nat)
      requires Valid() && |EncodeField(model)| < TWO_63
      ensures n == |EncodeField(model)|
      decreases Repr, 0
    {
      FieldParts(model);
      hide EncodeAll, EncodeRecord, EncodeField, NumberRecord, BytesRecord, ValueRecord;
      n := SizeNumber(1, timestamp);
      var l := SizeBytes(2, name);
      n := n + l;
      if valueByType.Some? {
        l := SizeValue(valueByType.value);
        n := n + l;
      } else {
        EncodeAllNothing();
      }
      l := SizeFields(15, fields, Repr - {this}, model.fields);
      n := n + l;
    }

    /** Writes the encoding at `at`, and nothing outside of it. */
    method MarshalTo(a: array<byte>, at: nat) returns (end: nat)
      requires Valid() && |EncodeField(model)| < TWO_63
      requires at + |EncodeField(model)| <= a.Length
      modifies a
      ensures end == at + |EncodeField(model)|
      ensures a[..] == Splice(old(a[..]), at, EncodeField(model))
      decreases Repr, 1
    {
      FieldParts(model);
      hide EncodeAll, EncodeRecord, EncodeField, NumberRecord, BytesRecord, ValueRecord, Splice;
      ghost var was := a[..];
      ghost var done := EncodeAll(NumberRecord(1, timestamp));
      end := PutNumber(a, at, 0x08, timestamp);
      end := PutBytes(a, end, 0x12, name);
      SpliceSplice(was, at, done, EncodeAll(BytesRecord(2, name)));
      done := done + EncodeAll(BytesRecord(2, name));
      EncodeAllNothing();
      if valueByType.Some? {
        end := PutValue(a, end, valueByType.value);
        SpliceSplice(was, at, done, EncodeAll(ValueRecord(valueByType.value)));
        done := done + EncodeAll(ValueRecord(valueByType.value));
      } else {
        assert done + [] == done;
      }
      end := MarshalFields(a, end, 0x7a, 15, fields, Repr - {this}, model.fields);
      SpliceSplice(was, at, done, EncodeAll(ChildRecords(15, model.fields)));
    }

    /** Writes this field as an element of list `num` of another message. */
    method MarshalNested(a: array<byte>, at: nat, tag: byte, ghost num: nat) returns (end: nat)
      requires Valid() && |EncodeField(model)| < TWO_63
      requires tag == 8 * num + 2 && 1 <= num <= 15
      requires at + |EncodeRecord(Record(num, Bytes(EncodeField(model))))| <= a.Length
      modifies a
      ensures end == at + |EncodeRecord(Record(num, Bytes(EncodeField(model))))|
      ensures a[..] == Splice(old(a[..]), at, EncodeRecord(Record(num, Bytes(EncodeField(model)))))
      decreases Repr, 2
    {
      ghost var bytes := EncodeField(model);
      SpliceNested(a[..], at, num, bytes);
      hide EncodeRecord, EncodeField, Splice, Header;
      var size := Size();
      end := PutHeader(a, at, tag, size);
      end := MarshalTo(a, end);
    }

    method Marshal() returns (a: array<byte>)
      requires Valid() && |EncodeField(model)| < TWO_63
      ensures fresh(a) && a[..] == EncodeField(model)
    {
      var size := Size();
      a := new byte[size](_ => 0);
      var n := MarshalTo(a, 0);
    }

    /** The cases of the `switch` that overwrite a scalar or the oneof. */
    method SetScalar(num: int, p: Payload)
      requires Valid() && Declared(FieldKind, num) == Some(TypeOf(p)) && num != 15
      modifies this`timestamp, this`name, this`valueByType, this`model
      ensures Valid() && model == Codec.SetScalar(old(model), num, p)
    {
      match num {
        case 1 => timestamp := p.v;
        case 2 => name := p.b;
        case _ => valueByType := Some(ReadValue(num, p));
      }
      model := Field(timestamp, name, valueByType, model.fields);
    }

    /** The `fields` case: append a new field and decode `a[lo..hi]` into it. */
    method UnmarshalChild(a: array<byte>, lo: nat, hi: nat) returns (err: Option<Error>)
      requires Valid() && lo <= hi <= a.Length
      modifies this
      ensures Valid() && fresh(Repr - old(Repr))
      ensures err == ErrorOf(Apply(OfField(old(model)), 15, Bytes(a[lo..hi])))
      ensures err.None? ==> Apply(OfField(old(model)), 15, Bytes(a[lo..hi])) == Ok(OfField(model))
      decreases hi - lo, 1
    {
      ApplyChild(model, a[lo..hi]);
      hide Decode, Apply;
      var child := new TelemetryField();
      fields := fields + [child];
      err := child.Unmarshal(a, lo, hi);
      AppendField(old(fields), Repr - {this}, model.fields, child);
      assert Repr - {this} + child.Repr == Repr + child.Repr - {this};
      model := model.(fields := model.fields + [child.model]);
      Repr := Repr + child.Repr;
    }

    /** Decodes `a[lo..hi]` into this field. */
    method Unmarshal(a: array<byte>, lo: nat, hi: nat) returns (err: Option<Error>)
      requires Valid() && lo <= hi <= a.Length
      modifies this
      ensures Valid() && fresh(Repr - old(Repr))
      ensures err == ErrorOf(Decode(OfField(old(model)), a[lo..hi], 0))
      ensures err.None? ==> Decode(OfField(old(model)), a[lo..hi], 0) == Ok(OfField(model))
      decreases hi - lo, 0
    {
      hide NextItem, Codec.SetScalar, Declared, Decode, ReadValue;
      var i := lo;
      while i < hi
        invariant lo <= i <= hi && Valid() && fresh(Repr - old(Repr))
        invariant Decode(OfField(old(model)), a[lo..hi], 0) == Decode(OfField(model), a[i..hi], i - lo)
      {
        var next := NextField(FieldKind, a, lo, i, hi);
        DecodeStep(OfField(model), a[i..hi], i - lo);
        if next.Err? {
          return Some(next.error);
        }
        var end := i + next.value.size;
        assert a[i..hi][next.value.size..] == a[end..hi];
        if next.value.item.Known? {
          var num, p := next.value.item.num, next.value.item.payload;
          if num == 15 {
            FifteenIsBytes(p);
            err := UnmarshalChild(a, end - |p.b|, end);
            if err.Some? {
              return;
            }
          } else {
            SetScalar(num, p);
          }
        }
        i := end;
      }
      assert a[i..hi] == [];
      DecodeNothing(OfField(model), i - lo);
      err := None;
    }
  }

  // ---- Lists of fields, in a field or in a telemetry message -----------------------------------------

  /** The objects `fs` and everything below them lie in `repr` and stand for `models`. */
  ghost predicate ValidFields(fs: seq<TelemetryField>, repr: set<TelemetryField>, models: seq<Field>)
    reads repr
    decreases repr, 1
  {
    && |models| == |fs|
    && (forall i | 0 <= i < |fs| :: fs[i] in repr && fs[i].Repr <= repr && fs[i].Valid() && fs[i].model == models[i])
  }

  lemma AppendField(fs: seq<TelemetryField>, repr: set<TelemetryField>, models: seq<Field>, c: TelemetryField)
    requires ValidFields(fs, repr, models) && c.Valid()
    ensures ValidFields(fs + [c], repr + c.Repr, models + [c.model])
  {}

  method SizeFields(num: nat, fs: seq<TelemetryField>, ghost repr: set<TelemetryField>, ghost models: seq<Field>)
    returns (n: nat)
    requires 1 <= num <= 15 && ValidFields(fs, repr, models) && |EncodeAll(ChildRecords(num, models))| < TWO_63
    ensures n == |EncodeAll(ChildRecords(num, models))|
    decreases repr, 1
  {
    hide EncodeAll, EncodeRecord, EncodeField;
    n := 0;
    assert models[0..] == models;
    var k := 0;
    while k < |fs|
      invariant 0 <= k <= |fs|
      invariant n + |EncodeAll(ChildRecords(num, models[k..]))| == |EncodeAll(ChildRecords(num, models))|
    {
      ghost var rest := models[k..];
      ChildrenCons(num, rest);
      assert rest[1..] == models[k + 1..];
      var l := fs[k].Size();
      l := SizeNested(num, l, EncodeField(rest[0]));
      n := n + l;
      k := k + 1;
    }
    EncodeAllNothing();
  }

  method MarshalFields(a: array<byte>, at: nat, tag: byte, ghost num: nat,
    fs: seq<TelemetryField>, ghost repr: set<TelemetryField>, ghost models: seq<Field>) returns (end: nat)
    requires tag == 8 * num + 2 && 1 <= num <= 15
    requires ValidFields(fs, repr, models) && |EncodeAll(ChildRecords(num, models))| < TWO_63
    requires at + |EncodeAll(ChildRecords(num, models))| <= a.Length
    modifies a
    ensures end == at + |EncodeAll(ChildRecords(num, models))|
    ensures a[..] == Splice(old(a[..]), at, EncodeAll(ChildRecords(num, models)))
    decreases repr, 3
  {
    hide EncodeAll, EncodeRecord, EncodeField, Splice;
    ghost var done: seq<byte> := [];
    SpliceNothing(a[..], at);
    assert models[0..] == models;
    end := at;
    var k := 0;
    while k < |fs|
      invariant 0 <= k <= |fs| && end == at + |done|
      invariant done + EncodeAll(ChildRecords(num, models[k..])) == EncodeAll(ChildRecords(num, models))
      invariant a[..] == Splice(old(a[..]), at, done)
    {
      ghost var rest := models[k..];
      ghost var record := EncodeRecord(Record(num, Bytes(EncodeField(rest[0]))));
      ChildrenCons(num, rest);
      assert rest[1..] == models[k + 1..];
      end := fs[k].MarshalNested(a, end, tag, num);
      SpliceSplice(old(a[..]), at, done, record);
      done := done + record;
      k := k + 1;
    }
    EncodeAllNothing();
    assert done + [] == done;
  }

  lemma ApplyChild(f: Field, b: seq<byte>)
    ensures var r := Decode(OfField(EMPTY_FIELD), b, 0);
            Apply(OfField(f), 15, Bytes(b)) ==
              if r.Err? then Err(r.error) else Ok(OfField(f.(fields := f.fields + [r.value.field])))
  {
    hide Decode;
  }

  lemma EncodeAllNothing()
    ensures EncodeAll([]) == []
  {}

  lemma NestedSize(num: nat, b: seq<byte>)
    ensures |EncodeRecord(Record(num, Bytes(b)))| == |Header(8 * num + 2, |b|)| + |b|
  {
    hide EncodeVarint;
  }

  /** A nested message is its tag, its length and its bytes. */
  lemma SpliceNested(s: seq<byte>, at: nat, num: nat, b: seq<byte>)
    requires at + |EncodeRecord(Record(num, Bytes(b)))| <= |s|
    ensures |EncodeRecord(Record(num, Bytes(b)))| == |Header(8 * num + 2, |b|)| + |b|
    ensures Splice(Splice(s, at, Header(8 * num + 2, |b|)), at + |Header(8 * num + 2, |b|)|, b)
         == Splice(s, at, EncodeRecord(Record(num, Bytes(b))))
  {
    NestedSize(num, b);
    assert EncodeRecord(Record(num, Bytes(b))) == Header(8 * num + 2, |b|) + b by { hide EncodeVarint; }
    hide Header, EncodeRecord, Splice;
    SpliceSplice(s, at, Header(8 * num + 2, |b|), b);
  }

  lemma FifteenIsBytes(p: Payload)
    requires Declared(FieldKind, 15) == Some(TypeOf(p))
    ensures p.Bytes?
  {}

  lemma DecodeStep(m: Message, s: seq<byte>, at: nat)
    requires s != []
    ensures Decode(m, s, at) ==
      match NextItem(KindOf(m), s, at)
      case Err(e) => Err(e)
      case Ok(next) =>
        match ApplyItem(m, next.item)
        case Err(e) => Err(e)
        case Ok(m') => Decode(m', s[next.size..], at + next.size)
  {
    hide NextItem, ApplyItem;
  }

  lemma DecodeNothing(m: Message, at: nat)
    ensures Decode(m, [], at) == Ok(m)
  {}
}

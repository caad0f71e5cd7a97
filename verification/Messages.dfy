/**
  The messages as values, the fields each one declares, and the scanner that finds the next
  field of a message on the wire.
 */
module Messages {
  import opened Wire
  import opened Skipping

  // ---- Messages ----------------------------------------------------------------------------

  /** The oneof of a `TelemetryField`.  A nil byte slice (`None`) is not an empty one.
      Floating-point values are kept as their bit patterns. */
  datatype Value =
    | BytesValue(bytes: Option<seq<byte>>)
    | StringValue(text: seq<byte>)
    | BoolValue(flag: bool)
    | Uint32Value(u32: uint32)
    | Uint64Value(u64: uint64)
    | Sint32Value(s32: int32)
    | Sint64Value(s64: int64)
    | DoubleValue(bits64: uint64)
    | FloatValue(bits32: uint32)

  datatype Field = Field(timestamp: uint64, name: seq<byte>, value: Option<Value>, fields: seq<Field>)

  datatype Row = Row(timestamp: uint64, keys: seq<byte>, content: seq<byte>)

  datatype Table = Table(rows: seq<Row>)

  datatype Telemetry = Telemetry(
    nodeId: Option<seq<byte>>,
    subscription: Option<seq<byte>>,
    encodingPath: seq<byte>,
    collectionId: uint64,
    collectionStartTime: uint64,
    msgTimestamp: uint64,
    dataGpbkv: seq<Field>,
    dataGpb: Option<Table>,
    collectionEndTime: uint64)

  datatype DialoutArgs = DialoutArgs(reqId: int64, data: seq<byte>, errors: seq<byte>)

  const EMPTY_FIELD := Field(0, [], None, [])
  const EMPTY_ROW := Row(0, [], [])
  const EMPTY_TABLE := Table([])
  const EMPTY_TELEMETRY := Telemetry(None, None, [], 0, 0, 0, [], None, 0)
  const EMPTY_DIALOUT := DialoutArgs(0, [], [])

  /** The five generated message types share one decoding loop; this is what it runs on. */
  datatype Message =
    | OfTelemetry(telemetry: Telemetry)
    | OfField(field: Field)
    | OfTable(table: Table)
    | OfRow(row: Row)
    | OfDialout(dialout: DialoutArgs)

  datatype Kind = TelemetryKind | FieldKind | TableKind | RowKind | DialoutKind

  function KindOf(m: Message): Kind {
    match m
    case OfTelemetry(_) => TelemetryKind
    case OfField(_) => FieldKind
    case OfTable(_) => TableKind
    case OfRow(_) => RowKind
    case OfDialout(_) => DialoutKind
  }

  // ---- Declared fields -----------------------------------------------------------------------

  datatype WireType = VarintType | Fixed64Type | BytesType | Fixed32Type

  function Code(t: WireType): (n: nat)
    ensures n < 8
  {
    match t case VarintType => 0 case Fixed64Type => 1 case BytesType => 2 case Fixed32Type => 5
  }

  /** The wire type a message expects for a field number, or `None` for an unknown field. */
  function Declared(kind: Kind, num: int): (t: Option<WireType>)
    ensures t.Some? ==> 1 <= num <= 15
  {
    match kind
    case TelemetryKind =>
      if num in {1, 3, 6, 11, 12} then Some(BytesType)
      else if num in {8, 9, 10, 13} then Some(VarintType)
      else None
    case FieldKind =>
      if num in {2, 4, 5, 15} then Some(BytesType)
      else if num in {1, 6, 7, 8, 9, 10} then Some(VarintType)
      else if num == 11 then Some(Fixed64Type)
      else if num == 12 then Some(Fixed32Type)
      else None
    case TableKind => if num == 1 then Some(BytesType) else None
    case RowKind =>
      if num == 1 then Some(VarintType) else if num in {10, 11} then Some(BytesType) else None
    case DialoutKind =>
      if num == 1 then Some(VarintType) else if num in {2, 3} then Some(BytesType) else None
  }

  datatype Payload =
    | Number(v: uint64)
    | Fixed64(bits64: uint64)
    | Bytes(b: seq<byte>)
    | Fixed32(bits32: uint32)

  function TypeOf(p: Payload): WireType {
    match p
    case Number(_) => VarintType
    case Fixed64(_) => Fixed64Type
    case Bytes(_) => BytesType
    case Fixed32(_) => Fixed32Type
  }

  // ---- Scanning --------------------------------------------------------------------------------

  datatype Scanned<T> = Scanned(item: T, size: nat)

  /** The error of reaching `end`, behind the last byte: an index that no longer fits in an
      `int` has wrapped around, passes the length check and panics in the slice expression. */
  function Overrun(end: nat): Error {
    if end >= TWO_63 then OutOfRange else UnexpectedEOF
  }

  function ReadPayload(t: WireType, s: seq<byte>, at: nat): (r: Result<Scanned<Payload>>)
    ensures r.Ok? ==> 1 <= r.value.size <= |s| && TypeOf(r.value.item) == t
    ensures r.Ok? && t.BytesType? ==> |r.value.item.b| < r.value.size
  {
    match t
    case VarintType =>
      var v :- ReadVarint(s);
      Ok(Scanned(Number(v.value), v.size))
    case Fixed64Type =>
      if |s| < 8 then Err(Overrun(at + 8)) else Ok(Scanned(Fixed64(Fixed64Bits(s[..8])), 8))
    case BytesType =>
      var length :- ReadVarint(s);
      var end := length.size + length.value;
      if length.value >= TWO_63 then Err(InvalidLength)
      else if end > |s| then Err(Overrun(at + end))
      else Ok(Scanned(Bytes(s[length.size..end]), end))
    case Fixed32Type =>
      if |s| < 4 then Err(Overrun(at + 4)) else Ok(Scanned(Fixed32(Fixed32Bits(s[..4])), 4))
  }

  function Fixed64Bits(s: seq<byte>): uint64
    requires |s| == 8
  {
    FromLittleEndianBound(s);
    Pow2Of32();
    FromLittleEndian(s)
  }

  function Fixed32Bits(s: seq<byte>): uint32
    requires |s| == 4
  {
    FromLittleEndianBound(s);
    Pow2Of32();
    FromLittleEndian(s)
  }

  datatype Item = Known(num: int32, payload: Payload) | Unknown

  /** One turn of the decoding loop up to the `switch`: the field at the start of `s`, where
      `s` begins `at` bytes into the slice being decoded. */
  function NextItem(kind: Kind, s: seq<byte>, at: nat): (r: Result<Scanned<Item>>)
    ensures r.Ok? ==> 1 <= r.value.size <= |s|
    ensures r.Ok? && r.value.item.Known? ==>
              Declared(kind, r.value.item.num) == Some(TypeOf(r.value.item.payload)) &&
              (r.value.item.payload.Bytes? ==> |r.value.item.payload.b| < |s|)
  {
    var tag :- ReadVarint(s);
    var num := ToInt32(tag.value / 8);
    var wireType := tag.value % 8;
    if wireType == 4 then Err(EndGroup)
    else if num <= 0 then Err(IllegalTag(num, tag.value))
    else
      match Declared(kind, num)
      case Some(expected) =>
        if wireType != Code(expected) then Err(WrongWireType(wireType, num))
        else
          var p :- ReadPayload(expected, s[tag.size..], at + tag.size);
          Ok(Scanned(Known(num, p.item), tag.size + p.size))
      case None =>
        var n :- Skip(s);
        if n < 0 then Err(InvalidLength)
        else if n > |s| then Err(Overrun(at + n))
        else Ok(Scanned(Unknown, n))
  }

  // ---- Facts about the scanner -------------------------------------------------------------------

  lemma PayloadPrefix(t: WireType, a: seq<byte>, b: seq<byte>, at: nat)
    requires ReadPayload(t, a, at).Ok?
    ensures ReadPayload(t, a + b, at) == ReadPayload(t, a, at)
  {
    hide ReadVarint;
    match t
    case VarintType => VarintPrefix(a, b);
    case Fixed64Type => assert (a + b)[..8] == a[..8];
    case BytesType =>
      VarintPrefix(a, b);
      var length := ReadVarint(a).value;
      assert (a + b)[length.size..length.size + length.value] == a[length.size..length.size + length.value];
    case Fixed32Type => assert (a + b)[..4] == a[..4];
  }

  /** Bytes behind a complete field do not change what the scanner finds. */
  lemma ItemPrefix(kind: Kind, a: seq<byte>, b: seq<byte>, at: nat)
    requires NextItem(kind, a, at).Ok?
    ensures NextItem(kind, a + b, at) == NextItem(kind, a, at)
  {
    hide ReadVarint, Skip, ReadPayload, Declared;
    VarintPrefix(a, b);
    var tag := ReadVarint(a).value;
    var declared := Declared(kind, ToInt32(tag.value / 8));
    if declared.Some? {
      assert (a + b)[tag.size..] == a[tag.size..] + b;
      PayloadPrefix(declared.value, a[tag.size..], b, at + tag.size);
    } else {
      SkipPrefix(a, b);
    }
  }

  /** Where a field starts in its slice decides only which error an overrun reports. */
  lemma ItemAnywhere(kind: Kind, s: seq<byte>, at: nat, at': nat)
    ensures SameOutcome(NextItem(kind, s, at), NextItem(kind, s, at'))
  {
    hide ReadVarint, Skip, Declared;
  }
}

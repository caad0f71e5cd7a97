/**
  The skipper of unknown fields, its result for every input, and an independent grammar of
  the fields it recognises.
 */
module Skipping {
  import opened Wire

  /** How many bytes the field at the start of `s` spans.  The answer is an `int`: a length
      near 2^63 makes it wrap around, and only the caller notices. */
  function Skip(s: seq<byte>): (r: Result<int>)
    ensures r.Ok? ==> r.value < 0 || r.value >= 1
    decreases |s|, 0
  {
    if s == [] then Err(Unreachable) else
    var tag :- ReadVarint(s);
    var wireType := tag.value % 8;
    var body := s[tag.size..];
    if wireType == 0 then
      var v :- ReadVarint(body);
      Ok(tag.size + v.size)
    else if wireType == 1 then Ok(tag.size + 8)
    else if wireType == 2 then
      var length :- ReadVarint(body);
      if length.value >= TWO_63 then Err(InvalidLength)
      else Ok(Wrap64(tag.size + length.size + length.value))
    else if wireType == 3 then
      var inner :- SkipGroup(body, tag.size);
      Ok(tag.size + inner)
    else if wireType == 4 then Ok(tag.size)
    else if wireType == 5 then Ok(tag.size + 4)
    else Err(IllegalWireType(wireType))
  }

  /** The rest of a group, from a boundary `at` bytes into the slice being skipped, to the
      end of its end-group tag.  Field numbers of start and end are not compared. */
  function SkipGroup(s: seq<byte>, at: nat): (r: Result<int>)
    ensures r.Ok? ==> 1 <= r.value <= |s|
    decreases |s|, 1
  {
    var tag :- ReadVarint(s);
    if tag.value % 8 == 4 then Ok(tag.size)
    else
      var next :- Skip(s);
      if next < 0 || at + next >= TWO_63 then Err(OutOfRange)
      else if next > |s| then Err(UnexpectedEOF)
      else
        var inner :- SkipGroup(s[next..], at + next);
        Ok(next + inner)
  }

  // ---- Progress ---------------------------------------------------------------------------

  /** The declared length, added to the index behind it, does not fit in an `int`. */
  predicate LengthWraps(s: seq<byte>) {
    var tag := ReadVarint(s);
    tag.Ok? && tag.value.value % 8 == 2 &&
    var length := ReadVarint(s[tag.value.size..]);
    length.Ok? && length.value.value < TWO_63 <= tag.value.size + length.value.size + length.value.value
  }

  /** A successful skip moves forward, except exactly when the declared length wraps. */
  lemma SkipProgress(s: seq<byte>)
    requires Skip(s).Ok?
    ensures Skip(s).value >= 1 <==> !LengthWraps(s)
  {}

  /** A length-delimited field of 2^63 - 1 bytes: the skipper succeeds with a negative count. */
  lemma SkipCanGoBackwards()
    ensures var s := [0x0a, 0xff, 0xff, 0xff, 0xff, 0xff, 0xff, 0xff, 0xff, 0x7f];
            LengthWraps(s) && Skip(s) == Ok(9 - TWO_63)
  {
    var s: seq<byte> := [0x0a, 0xff, 0xff, 0xff, 0xff, 0xff, 0xff, 0xff, 0xff, 0x7f];
    ReadLargestLength(s[1..]);
    assert ReadFrom(s, 0) == Ok(Read(0x0a, 1));
    hide ReadFrom;
    assert ReadVarint(s) == Ok(Varint(0x0a, 1));
    assert ReadVarint(s[1..]) == Ok(Varint(TWO_63 - 1, 9));
  }

  /** A group that starts with field number 1 and ends with field number 2 is skipped. */
  lemma GroupNumbersMayDiffer()
    ensures Skip([0x0b, 0x14]) == Ok(2)
    ensures ReadVarint([0x0b]) == Ok(Varint(1 * 8 + 3, 1)) && ReadVarint([0x14]) == Ok(Varint(2 * 8 + 4, 1))
  {
    var s: seq<byte> := [0x0b, 0x14];
    assert s[1..] == [0x14];
    assert ReadVarint(s) == Ok(Varint(0x0b, 1)) && ReadVarint(s[1..]) == Ok(Varint(0x14, 1));
    assert SkipGroup(s[1..], 1) == Ok(1);
  }

  lemma ReadLargestLength(t: seq<byte>)
    requires |t| == 9 && t[8] == 0x7f && forall k | 0 <= k < 8 :: t[k] == 0xff
    ensures ReadFrom(t, 0) == Ok(Read(TWO_63 - 1, 9))
  {
    Pow2Of63();
    Pow2Plus7(0);
    assert ReadFrom(t[8..], 8) == Ok(Read(Pow2(7) - 1, 1));
    hide ReadFrom, Pow2;
    OneMoreByte(t, 7, 1);
    OneMoreByte(t, 6, 2);
    OneMoreByte(t, 5, 3);
    OneMoreByte(t, 4, 4);
    OneMoreByte(t, 3, 5);
    OneMoreByte(t, 2, 6);
    OneMoreByte(t, 1, 7);
    OneMoreByte(t, 0, 8);
    assert t[0..] == t;
  }

  lemma OneMoreByte(t: seq<byte>, k: nat, n: nat)
    requires k < 10 && k < |t| && t[k] == 0xff
    requires ReadFrom(t[k + 1..], k + 1) == Ok(Read(Pow2(7 * n) - 1, n))
    ensures ReadFrom(t[k..], k) == Ok(Read(Pow2(7 * (n + 1)) - 1, n + 1))
  {
    assert t[k..][1..] == t[k + 1..];
    Pow2Plus7(7 * n);
  }

  // ---- Prefix stability ---------------------------------------------------------------------

  /** Bytes behind the skipped field do not change how far the skip goes. */
  lemma {:induction false} SkipPrefix(a: seq<byte>, b: seq<byte>)
    requires Skip(a).Ok? && Skip(a).value <= |a|
    ensures Skip(a + b) == Skip(a)
    decreases |a|, 0
  {
    hide ReadVarint;
    VarintPrefix(a, b);
    var tag := ReadVarint(a).value;
    var body := a[tag.size..];
    assert (a + b)[tag.size..] == body + b;
    if tag.value % 8 == 0 || tag.value % 8 == 2 {
      VarintPrefix(body, b);
    } else if tag.value % 8 == 3 {
      SkipGroupPrefix(body, b, tag.size);
    }
  }

  lemma {:induction false} SkipGroupPrefix(a: seq<byte>, b: seq<byte>, at: nat)
    requires SkipGroup(a, at).Ok?
    ensures SkipGroup(a + b, at) == SkipGroup(a, at)
    decreases |a|, 1
  {
    hide ReadVarint, Skip;
    VarintPrefix(a, b);
    if ReadVarint(a).value.value % 8 == 4 {
    } else {
      SkipPrefix(a, b);
      var next := Skip(a).value;
      assert (a + b)[next..] == a[next..] + b;
      SkipGroupPrefix(a[next..], b, at + next);
    }
  }

  // ---- The grammar of fields ------------------------------------------------------------------

  /** A field on the wire.  Tags and lengths are kept as the bytes that spell them, since the
      decoder also accepts spellings that are not the shortest. */
  datatype WireField =
    | VarintField(tag: seq<byte>, value: seq<byte>)
    | Fixed64Field(tag: seq<byte>, bits: seq<byte>)
    | LengthField(tag: seq<byte>, length: seq<byte>, content: seq<byte>)
    | GroupField(tag: seq<byte>, items: seq<WireField>, end: seq<byte>)
    | Fixed32Field(tag: seq<byte>, bits: seq<byte>)

  predicate IsVarint(s: seq<byte>) {
    ReadVarint(s).Ok? && ReadVarint(s).value.size == |s|
  }

  predicate IsTag(s: seq<byte>, wireType: nat) {
    IsVarint(s) && ReadVarint(s).value.value % 8 == wireType
  }

  predicate WellFormed(f: WireField) {
    match f
    case VarintField(tag, value) => IsTag(tag, 0) && IsVarint(value)
    case Fixed64Field(tag, bits) => IsTag(tag, 1) && |bits| == 8
    case LengthField(tag, length, content) =>
      IsTag(tag, 2) && IsVarint(length) && ReadVarint(length).value.value == |content|
    case GroupField(tag, items, end) =>
      IsTag(tag, 3) && IsTag(end, 4) && (forall i | 0 <= i < |items| :: WellFormed(items[i]))
    case Fixed32Field(tag, bits) => IsTag(tag, 5) && |bits| == 4
  }

  function FieldBytes(f: WireField): seq<byte>
    decreases f, 1
  {
    match f
    case VarintField(tag, value) => tag + value
    case Fixed64Field(tag, bits) => tag + bits
    case LengthField(tag, length, content) => tag + length + content
    case GroupField(tag, items, end) => tag + ItemsBytes(items) + end
    case Fixed32Field(tag, bits) => tag + bits
  }

  function ItemsBytes(items: seq<WireField>): seq<byte>
    decreases items, 0
  {
    if items == [] then [] else FieldBytes(items[0]) + ItemsBytes(items[1..])
  }

  lemma ReadTag(tag: seq<byte>, rest: seq<byte>)
    requires IsVarint(tag)
    ensures ReadVarint(tag + rest) == ReadVarint(tag) && (tag + rest)[|tag|..] == rest
  {
    VarintPrefix(tag, rest);
  }

  /** The skipper steps over a well-formed field exactly, however deep its groups nest. */
  lemma {:induction false} SkipExact(f: WireField, rest: seq<byte>)
    requires WellFormed(f) && |FieldBytes(f)| < TWO_63
    ensures Skip(FieldBytes(f) + rest) == Ok(|FieldBytes(f)|)
    decreases f, 1
  {
    hide ReadVarint;
    if f.GroupField? {
      var s, body := FieldBytes(f) + rest, ItemsBytes(f.items) + (f.end + rest);
      assert s == f.tag + body;
      ReadTag(f.tag, body);
      SkipItemsExact(f.items, f.end, rest, |f.tag|);
    } else {
      SkipPlainExact(f, rest);
    }
  }

  lemma SkipPlainExact(f: WireField, rest: seq<byte>)
    requires WellFormed(f) && |FieldBytes(f)| < TWO_63 && !f.GroupField?
    ensures Skip(FieldBytes(f) + rest) == Ok(|FieldBytes(f)|)
  {
    hide ReadVarint;
    var s := FieldBytes(f) + rest;
    var body := s[|f.tag|..];
    assert s == f.tag + body;
    ReadTag(f.tag, body);
    if f.VarintField? {
      assert body == f.value + rest;
      ReadTag(f.value, rest);
    } else if f.LengthField? {
      assert body == f.length + (f.content + rest);
      ReadTag(f.length, f.content + rest);
    }
  }

  lemma ReadFieldTag(f: WireField, rest: seq<byte>)
    requires WellFormed(f)
    ensures ReadVarint(FieldBytes(f) + rest) == ReadVarint(f.tag)
    ensures ReadVarint(f.tag).Ok? && ReadVarint(f.tag).value.value % 8 in {0, 1, 2, 3, 5}
  {
    hide ReadVarint;
    var s := FieldBytes(f) + rest;
    assert s == f.tag + s[|f.tag|..];
    ReadTag(f.tag, s[|f.tag|..]);
  }

  lemma {:induction false} SkipItemsExact(items: seq<WireField>, end: seq<byte>, rest: seq<byte>, at: nat)
    requires forall i | 0 <= i < |items| :: WellFormed(items[i])
    requires IsTag(end, 4) && at + |ItemsBytes(items)| < TWO_63
    ensures SkipGroup(ItemsBytes(items) + (end + rest), at) == Ok(|ItemsBytes(items)| + |end|)
    decreases items, 0
  {
    hide ReadVarint, Skip, FieldBytes, WellFormed;
    var s := ItemsBytes(items) + (end + rest);
    if items == [] {
      assert s == end + rest;
      ReadTag(end, rest);
    } else {
      var first, others := items[0], ItemsBytes(items[1..]) + (end + rest);
      assert s == FieldBytes(first) + others;
      SkipExact(first, others);
      ReadFieldTag(first, others);
      assert s[|FieldBytes(first)|..] == others;
      SkipItemsExact(items[1..], end, rest, at + |FieldBytes(first)|);
    }
  }

  lemma TakeVarint(s: seq<byte>)
    requires ReadVarint(s).Ok?
    ensures ReadVarint(s[..ReadVarint(s).value.size]) == ReadVarint(s)
  {
    ReadFromTake(s, 0);
  }

  lemma TagIsTag(s: seq<byte>)
    requires ReadVarint(s).Ok?
    ensures var tag := ReadVarint(s).value; IsTag(s[..tag.size], tag.value % 8)
  {
    TakeVarint(s);
  }

  /** Conversely, what the skipper steps over is a well-formed field, which this lemma
      constructs. */
  lemma {:induction false} SkippedIsField(s: seq<byte>) returns (f: WireField)
    requires Skip(s).Ok? && 0 <= Skip(s).value <= |s| < TWO_63
    requires ReadVarint(s).value.value % 8 != 4
    ensures WellFormed(f) && FieldBytes(f) == s[..Skip(s).value]
    decreases |s|, 0
  {
    hide ReadVarint, SkipGroup, ItemsBytes;
    var tag := ReadVarint(s).value;
    var spelled, body, n := s[..tag.size], s[tag.size..], Skip(s).value;
    TagIsTag(s);
    if tag.value % 8 == 3 {
      var items, end := SkippedAreItems(body, tag.size);
      f := GroupField(spelled, items, end);
      assert s[..n] == spelled + body[..n - tag.size];
    } else {
      f := SkippedIsPlainField(s);
    }
  }

  lemma SkippedIsPlainField(s: seq<byte>) returns (f: WireField)
    requires Skip(s).Ok? && 0 <= Skip(s).value <= |s| < TWO_63
    requires ReadVarint(s).value.value % 8 !in {3, 4}
    ensures WellFormed(f) && FieldBytes(f) == s[..Skip(s).value]
  {
    hide ReadVarint;
    var tag := ReadVarint(s).value;
    var spelled, body, n := s[..tag.size], s[tag.size..], Skip(s).value;
    TagIsTag(s);
    assert s[..n] == spelled + body[..n - tag.size];
    if tag.value % 8 == 0 {
      TakeVarint(body);
      f := VarintField(spelled, body[..n - tag.size]);
    } else if tag.value % 8 == 1 {
      f := Fixed64Field(spelled, body[..8]);
    } else if tag.value % 8 == 2 {
      TakeVarint(body);
      var length := ReadVarint(body).value.size;
      f := LengthField(spelled, body[..length], body[length..n - tag.size]);
      assert body[..length] + body[length..n - tag.size] == body[..n - tag.size];
    } else {
      f := Fixed32Field(spelled, body[..4]);
    }
  }

  lemma {:induction false} SkippedAreItems(s: seq<byte>, at: nat) returns (items: seq<WireField>, end: seq<byte>)
    requires SkipGroup(s, at).Ok? && |s| < TWO_63
    ensures forall i | 0 <= i < |items| :: WellFormed(items[i])
    ensures IsTag(end, 4) && ItemsBytes(items) + end == s[..SkipGroup(s, at).value]
    decreases |s|, 1
  {
    hide ReadVarint, Skip, FieldBytes, WellFormed;
    var tag := ReadVarint(s).value;
    if tag.value % 8 == 4 {
      TakeVarint(s);
      items, end := [], s[..tag.size];
    } else {
      var first := SkippedIsField(s);
      var next := Skip(s).value;
      var others;
      others, end := SkippedAreItems(s[next..], at + next);
      items := [first] + others;
      assert items[1..] == others;
      assert ItemsBytes(items) + end == FieldBytes(first) + (ItemsBytes(others) + end);
      assert s[..SkipGroup(s, at).value] == s[..next] + s[next..][..SkipGroup(s[next..], at + next).value];
    }
  }

  /** The fields of the grammar are exactly what the skipper accepts within its input. */
  lemma SkipIffField(s: seq<byte>, n: nat)
    requires n <= |s| < TWO_63
    requires ReadVarint(s).Ok? && ReadVarint(s).value.value % 8 != 4
    ensures Skip(s) == Ok(n) <==> exists f :: WellFormed(f) && FieldBytes(f) == s[..n]
  {
    hide ReadVarint, Skip, WellFormed, FieldBytes;
    if Skip(s) == Ok(n) {
      var f := SkippedIsField(s);
    }
    if f :| WellFormed(f) && FieldBytes(f) == s[..n] {
      assert s == FieldBytes(f) + s[n..];
      SkipExact(f, s[n..]);
    }
  }
}

/**
  When decoding panics: exactly when it comes to a field whose declared end does not fit in
  an `int`, and the wrapped index is used.
 */
module Totality {
  import opened Wire
  import opened Skipping
  import opened Messages
  import opened Codec
  import opened Encoding

  // ---- The guard that fails ----------------------------------------------------------------------

  /** Where the field at the start of `s` says that it ends, when its tag and its length can be
      read and its end does not depend on its content. */
  function DeclaredEnd(s: seq<byte>): Option<nat> {
    var tag := ReadVarint(s);
    if tag.Err? then None
    else
      var size, wireType := tag.value.size, tag.value.value % 8;
      if wireType == 1 then Some(size + 8)
      else if wireType == 5 then Some(size + 4)
      else if wireType != 2 then None
      else
        var length := ReadVarint(s[size..]);
        if length.Err? || length.value.value >= TWO_63 then None
        else Some(size + length.value.size + length.value.value)
  }

  /** The declared end of the field at index `at` wraps around. */
  predicate EndWraps(s: seq<byte>, at: nat) {
    DeclaredEnd(s).Some? && at + DeclaredEnd(s).value >= TWO_63
  }

  // ---- The skipper -------------------------------------------------------------------------------

  /** Some field inside the group that `s` starts with wraps around. */
  predicate InsideWraps(s: seq<byte>)
    decreases |s|, 0
  {
    var tag := ReadVarint(s);
    tag.Ok? && tag.value.value % 8 == 3 && GroupWraps(s[tag.value.size..], tag.value.size)
  }

  /** From the boundary `s`, at index `at`, the skipper comes to such a field before the end of
      the group. */
  predicate GroupWraps(s: seq<byte>, at: nat)
    decreases |s|, 1
  {
    var tag := ReadVarint(s);
    tag.Ok? && tag.value.value % 8 != 4 &&
    (|| EndWraps(s, at)
     || InsideWraps(s)
     || (Skip(s).Ok? && 1 <= Skip(s).value <= |s| && GroupWraps(s[Skip(s).value..], at + Skip(s).value)))
  }

  lemma {:induction false} VarintErrors(s: seq<byte>, k: nat)
    requires k <= 10
    ensures ReadFrom(s, k).Err? ==> ReadFrom(s, k).error in {IntOverflow, UnexpectedEOF}
    decreases |s|
  {
    if s == [] || k == 10 {
    } else {
      VarintErrors(s[1..], k + 1);
    }
  }

  lemma VarintNeverPanics(s: seq<byte>)
    ensures ReadVarint(s) != Err(OutOfRange) && ReadVarint(s) != Err(Unreachable)
  {
    VarintErrors(s, 0);
  }

  /** The skipper indexes out of range if and only if a field inside a group wraps around, and
      falls out of its loop if and only if there is nothing to skip. */
  lemma {:induction false} SkipPanicsIff(s: seq<byte>)
    requires |s| < TWO_63
    ensures Skip(s) == Err(OutOfRange) <==> InsideWraps(s)
    ensures Skip(s) == Err(Unreachable) <==> s == []
    decreases |s|, 0
  {
    VarintNeverPanics(s);
    hide ReadVarint;
    var tag := ReadVarint(s);
    if tag.Ok? {
      VarintNeverPanics(s[tag.value.size..]);
      if tag.value.value % 8 == 3 {
        GroupPanicsIff(s[tag.value.size..], tag.value.size);
      }
    }
  }

  /** How far a skip goes, when its field has a declared end. */
  lemma SkipToDeclaredEnd(s: seq<byte>)
    requires |s| < TWO_63
    ensures DeclaredEnd(s).Some? ==> Skip(s) == Ok(Wrap64(DeclaredEnd(s).value))
    ensures DeclaredEnd(s).None? && Skip(s).Ok? ==> 1 <= Skip(s).value <= |s|
  {
    hide ReadVarint, SkipGroup;
  }

  lemma {:induction false} GroupPanicsIff(s: seq<byte>, at: nat)
    requires at + |s| < TWO_63
    ensures SkipGroup(s, at) == Err(OutOfRange) <==> GroupWraps(s, at)
    ensures SkipGroup(s, at) != Err(Unreachable)
    decreases |s|, 1
  {
    VarintNeverPanics(s);
    SkipPanicsIff(s);
    SkipToDeclaredEnd(s);
    hide ReadVarint, Skip, InsideWraps, DeclaredEnd;
    if Skip(s).Ok? && 1 <= Skip(s).value <= |s| && at + Skip(s).value < TWO_63 {
      GroupPanicsIff(s[Skip(s).value..], at + Skip(s).value);
    }
  }

  // ---- One field of a message ------------------------------------------------------------------------

  /** The field at index `at` makes the decoder use a wrapped index: it is declared with the
      wire type it has, or the skipper wraps around inside it, or it is unknown and its count
      does not wrap before the index is added. */
  predicate FieldWraps(kind: Kind, s: seq<byte>, at: nat) {
    var tag := ReadVarint(s);
    tag.Ok? &&
    var num, wireType := ToInt32(tag.value.value / 8), tag.value.value % 8;
    wireType != 4 && num > 0 &&
    match Declared(kind, num)
    case Some(expected) => wireType == Code(expected) && EndWraps(s, at)
    case None => InsideWraps(s) || (EndWraps(s, at) && !EndWraps(s, 0))
  }

  lemma PayloadPanicsIff(t: WireType, s: seq<byte>, tagSize: nat, at: nat)
    requires at + |s| < TWO_63 && ReadVarint(s).Ok?
    requires ReadVarint(s).value.size == tagSize && ReadVarint(s).value.value % 8 == Code(t)
    ensures ReadPayload(t, s[tagSize..], at + tagSize) == Err(OutOfRange) <==> EndWraps(s, at)
    ensures ReadPayload(t, s[tagSize..], at + tagSize) != Err(Unreachable)
  {
    VarintNeverPanics(s[tagSize..]);
    hide ReadVarint;
  }

  /** One turn of a decoding loop panics if and only if its field wraps around. */
  lemma ItemPanicsIff(kind: Kind, s: seq<byte>, at: nat)
    requires at + |s| < TWO_63
    ensures NextItem(kind, s, at) == Err(OutOfRange) <==> FieldWraps(kind, s, at)
    ensures NextItem(kind, s, at) != Err(Unreachable)
  {
    VarintNeverPanics(s);
    hide ReadVarint, Skip, ReadPayload, Declared, EndWraps, InsideWraps;
    if ReadVarint(s).Ok? {
      var tag := ReadVarint(s).value;
      match Declared(kind, ToInt32(tag.value / 8))
      case Some(expected) =>
        if tag.value % 8 == Code(expected) {
          PayloadPanicsIff(expected, s, tag.size, at);
        }
      case None =>
        SkipPanicsIff(s);
        UnknownPanicsIff(s, at);
    }
  }

  lemma UnknownPanicsIff(s: seq<byte>, at: nat)
    requires at + |s| < TWO_63
    ensures Skip(s).Ok? && Skip(s).value >= 0 && Skip(s).value > |s| && at + Skip(s).value >= TWO_63 <==>
            EndWraps(s, at) && !EndWraps(s, 0)
    ensures Skip(s).Ok? ==> !InsideWraps(s)
  {
    SkipToDeclaredEnd(s);
    SkipPanicsIff(s);
    hide ReadVarint, Skip, InsideWraps, DeclaredEnd;
  }

  // ---- Whole messages --------------------------------------------------------------------------------

  /** The type of the message that a declared field is decoded into. */
  function Nested(kind: Kind, num: int): Option<Kind> {
    match kind
    case TelemetryKind => if num == 11 then Some(FieldKind) else if num == 12 then Some(TableKind) else None
    case FieldKind => if num == 15 then Some(FieldKind) else None
    case TableKind => if num == 1 then Some(RowKind) else None
    case _ => None
  }

  /** Going from field to field, and into nested messages, a decoder comes to a field that wraps
      around, and everything before it decodes. */
  predicate Wraps(kind: Kind, s: seq<byte>, at: nat)
    decreases |s|
  {
    s != [] &&
    (|| FieldWraps(kind, s, at)
     || (NextItem(kind, s, at).Ok? &&
         var next := NextItem(kind, s, at).value;
         var rest := Wraps(kind, s[next.size..], at + next.size);
         if next.item.Known? && next.item.payload.Bytes? && Nested(kind, next.item.num).Some? then
           var inner, b := Nested(kind, next.item.num).value, next.item.payload.b;
           Wraps(inner, b, 0) || (Decode(Empty(inner), b, 0).Ok? && rest)
         else rest))
  }

  /** Two outcomes that are both a success, or the same error. */
  predicate SameError<T, U>(a: Result<T>, b: Result<U>) {
    a.Ok? == b.Ok? && (a.Err? ==> a.error == b.error)
  }

  /** What a message holds already has no say in whether bytes decode into it, or in the error. */
  lemma {:induction false} KindDecides(m: Message, m': Message, s: seq<byte>, at: nat)
    requires KindOf(m) == KindOf(m')
    ensures SameError(Decode(m, s, at), Decode(m', s, at))
    decreases |s|, 0
  {
    hide NextItem, Apply;
    if s == [] {
    } else if NextItem(KindOf(m), s, at).Ok? {
      var next := NextItem(KindOf(m), s, at).value;
      if next.item.Known? {
        ApplyDecides(m, next.item.num, next.item.payload);
        ApplyDecides(m', next.item.num, next.item.payload);
      }
      if ApplyItem(m, next.item).Ok? {
        KindDecides(ApplyItem(m, next.item).value, ApplyItem(m', next.item).value, s[next.size..], at + next.size);
      }
    }
  }

  /** A declared field fails exactly as its nested message does in a fresh one. */
  lemma {:induction false} ApplyDecides(m: Message, num: int, p: Payload)
    requires Declared(KindOf(m), num) == Some(TypeOf(p))
    ensures if p.Bytes? && Nested(KindOf(m), num).Some?
            then SameError(Apply(m, num, p), Decode(Empty(Nested(KindOf(m), num).value), p.b, 0))
            else Apply(m, num, p).Ok?
    decreases if p.Bytes? then |p.b| else 0, 1
  {
    hide Decode;
    if m.OfTelemetry? && num == 12 && p.Bytes? {
      var present := if m.telemetry.dataGpb.Some? then m.telemetry.dataGpb.value else EMPTY_TABLE;
      KindDecides(OfTable(present), OfTable(EMPTY_TABLE), p.b, 0);
    }
  }

  /** For every message and all bytes a Go slice can hold: decoding, however nested, panics if
      and only if it comes to a field whose declared end wraps around.  It never calls the skipper on
      nothing. */
  lemma {:induction false} DecodePanicsIff(m: Message, s: seq<byte>, at: nat)
    requires at + |s| < TWO_63
    ensures Decode(m, s, at) == Err(OutOfRange) <==> Wraps(KindOf(m), s, at)
    ensures Decode(m, s, at) != Err(Unreachable)
    decreases |s|
  {
    hide NextItem, Apply, FieldWraps, Nested;
    if s == [] {
    } else {
      ItemPanicsIff(KindOf(m), s, at);
      if NextItem(KindOf(m), s, at).Ok? {
        var next := NextItem(KindOf(m), s, at).value;
        if next.item.Known? {
          ApplyDecides(m, next.item.num, next.item.payload);
          var inner := Nested(KindOf(m), next.item.num);
          if next.item.payload.Bytes? && inner.Some? {
            DecodePanicsIff(Empty(inner.value), next.item.payload.b, 0);
          }
        }
        if ApplyItem(m, next.item).Ok? {
          DecodePanicsIff(ApplyItem(m, next.item).value, s[next.size..], at + next.size);
        }
      }
    }
  }

  // ---- An input --------------------------------------------------------------------------------------

  /** A node name of 2^63 - 1 bytes: the index behind it wraps around and the decoder panics. */
  lemma LargestLengthPanics()
    ensures var s := [0x0a, 0xff, 0xff, 0xff, 0xff, 0xff, 0xff, 0xff, 0xff, 0x7f];
            Wraps(TelemetryKind, s, 0) && Decode(OfTelemetry(EMPTY_TELEMETRY), s, 0) == Err(OutOfRange)
  {
    var s: seq<byte> := [0x0a, 0xff, 0xff, 0xff, 0xff, 0xff, 0xff, 0xff, 0xff, 0x7f];
    ReadLargestLength(s[1..]);
    assert ReadFrom(s, 0) == Ok(Read(0x0a, 1));
    hide ReadFrom;
    assert ReadVarint(s) == Ok(Varint(0x0a, 1));
    assert ReadVarint(s[1..]) == Ok(Varint(TWO_63 - 1, 9));
    hide ReadVarint;
    assert DeclaredEnd(s) == Some(9 + TWO_63);
    hide DeclaredEnd;
    assert FieldWraps(TelemetryKind, s, 0);
    DecodePanicsIff(OfTelemetry(EMPTY_TELEMETRY), s, 0);
  }
}

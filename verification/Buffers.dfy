/**
  The loops of the generated code over byte buffers: writing and sizing varints, reading
  them, skipping, and finding the next field.  A Go slice is an array with two bounds.
 */
module Buffers {
  import opened Wire
  import opened Messages
  import opened Encoding
  import Skipping

  // ---- Writing -------------------------------------------------------------------------------

  /** `s` with the bytes from `at` on overwritten by `bytes`, and nothing else. */
  function Splice(s: seq<byte>, at: nat, bytes: seq<byte>): (r: seq<byte>)
    requires at + |bytes| <= |s|
    ensures |r| == |s|
  {
    s[..at] + bytes + s[at + |bytes|..]
  }

  /** Two writes one behind the other are one write of the concatenation. */
  lemma SpliceSplice(s: seq<byte>, at: nat, x: seq<byte>, y: seq<byte>)
    requires at + |x| + |y| <= |s|
    ensures Splice(Splice(s, at, x), at + |x|, y) == Splice(s, at, x + y)
  {
    var one := Splice(s, at, x);
    assert one[..at + |x|] == s[..at] + x;
    assert one[at + |x| + |y|..] == s[at + |x| + |y|..];
  }

  lemma SpliceNothing(s: seq<byte>, at: nat)
    requires at <= |s|
    ensures Splice(s, at, []) == s
  {}

  /** `dAtA[at] = b` */
  method PutByte(a: array<byte>, at: nat, b: byte)
    requires at < a.Length
    modifies a
    ensures a[..] == Splice(old(a[..]), at, [b])
  {
    a[at] := b;
  }

  lemma OneByte(v: nat)
    requires v < 0x80
    ensures EncodeVarint(v) == [v]
  {}

  lemma ManyBytes(v: nat)
    requires v >= 0x80
    ensures EncodeVarint(v) == [v % 0x80 + 0x80] + EncodeVarint(v / 0x80)
  {}

  method EncodeVarintAt(a: array<byte>, offset: nat, v: uint64) returns (end: nat)
    requires offset + |EncodeVarint(v)| <= a.Length
    modifies a
    ensures end == offset + |EncodeVarint(v)|
    ensures a[..] == Splice(old(a[..]), offset, EncodeVarint(v))
  {
    var i, w := offset, v;
    ghost var done: seq<byte> := [];
    SpliceNothing(a[..], offset);
    hide Splice, EncodeVarint;
    while w >= 0x80
      invariant done + EncodeVarint(w) == EncodeVarint(v)
      invariant i == offset + |done|
      invariant a[..] == Splice(old(a[..]), offset, done)
    {
      ManyBytes(w);
      PutByte(a, i, w % 0x80 + 0x80);
      assert done + EncodeVarint(w) == done + [w % 0x80 + 0x80] + EncodeVarint(w / 0x80);
      SpliceSplice(old(a[..]), offset, done, [w % 0x80 + 0x80]);
      done := done + [w % 0x80 + 0x80];
      w := w / 0x80;
      i := i + 1;
    }
    OneByte(w);
    PutByte(a, i, w);
    SpliceSplice(old(a[..]), offset, done, [w]);
    end := i + 1;
  }

  /** `sovTelemetry`: the size of a varint, counted without writing it. */
  method Sov(x: uint64) returns (n: nat)
    ensures n == |EncodeVarint(x)|
  {
    n := 0;
    var rest := x;
    while true
      invariant n + |EncodeVarint(rest)| == |EncodeVarint(x)|
      decreases rest
    {
      n := n + 1;
      if rest / 0x80 == 0 {
        break;
      }
      rest := rest / 0x80;
    }
  }

  /** `sozTelemetry`, called with the bits of a signed value. */
  method Soz(x: int64) returns (n: nat)
    ensures n == |EncodeVarint(ZigZag64(x))|
  {
    n := Sov(ZigZag64(x));
  }

  method Copy(a: array<byte>, at: nat, b: seq<byte>) returns (end: nat)
    requires at + |b| <= a.Length
    modifies a
    ensures end == at + |b| && a[..] == Splice(old(a[..]), at, b)
  {
    forall k | 0 <= k < |b| {
      a[at + k] := b[k];
    }
    end := at + |b|;
  }

  method PutLittleEndian(a: array<byte>, at: nat, v: nat, width: nat) returns (end: nat)
    requires at + width <= a.Length
    modifies a
    ensures end == at + width && a[..] == Splice(old(a[..]), at, LittleEndian(v, width))
  {
    var i, w := at, v;
    ghost var done: seq<byte> := [];
    SpliceNothing(a[..], at);
    hide Splice;
    while i < at + width
      invariant at <= i <= at + width && i == at + |done|
      invariant done + LittleEndian(w, at + width - i) == LittleEndian(v, width)
      invariant a[..] == Splice(old(a[..]), at, done)
    {
      PutByte(a, i, w % 0x100);
      SpliceSplice(old(a[..]), at, done, [w % 0x100]);
      done := done + [w % 0x100];
      w := w / 0x100;
      i := i + 1;
    }
    end := i;
  }

  /** The tag of a field: one byte for all declared fields. */
  method PutTag(a: array<byte>, at: nat, tag: byte) returns (end: nat)
    requires at < a.Length && tag < 0x80
    modifies a
    ensures end == at + 1 && a[..] == Splice(old(a[..]), at, EncodeVarint(tag))
  {
    PutByte(a, at, tag);
    end := at + 1;
  }

  /** A tag and a number: a number field, or what comes in front of a nested message or a
      byte string. */
  function Header(tag: nat, v: nat): seq<byte> {
    EncodeVarint(tag) + EncodeVarint(v)
  }

  method PutHeader(a: array<byte>, at: nat, tag: byte, length: uint64) returns (end: nat)
    requires tag < 0x80 && at + |Header(tag, length)| <= a.Length
    modifies a
    ensures end == at + |Header(tag, length)|
    ensures a[..] == Splice(old(a[..]), at, Header(tag, length))
  {
    hide Splice, EncodeVarint;
    assert |EncodeVarint(tag)| == 1 by { OneByte(tag); }
    end := PutTag(a, at, tag);
    end := EncodeVarintAt(a, end, length);
    SpliceSplice(old(a[..]), at, EncodeVarint(tag), EncodeVarint(length));
  }

  method PutNumber(a: array<byte>, at: nat, tag: byte, v: uint64) returns (end: nat)
    requires tag < 0x80 && tag % 8 == 0
    requires at + |EncodeAll(NumberRecord(tag / 8, v))| <= a.Length
    modifies a
    ensures end == at + |EncodeAll(NumberRecord(tag / 8, v))|
    ensures a[..] == Splice(old(a[..]), at, EncodeAll(NumberRecord(tag / 8, v)))
  {
    if v != 0 {
      EncodeOne(Record(tag / 8, Number(v)));
      end := PutHeader(a, at, tag, v);
    } else {
      end := at;
    }
  }

  lemma EncodeOne(r: Record)
    ensures EncodeAll([r]) == EncodeRecord(r)
  {
    hide EncodeRecord;
    assert [r][1..] == [];
    assert EncodeAll([r]) == EncodeRecord(r) + [];
  }

  /** A byte string with its tag and length, whether empty or not. */
  method PutString(a: array<byte>, at: nat, tag: byte, b: seq<byte>) returns (end: nat)
    requires tag < 0x80 && tag % 8 == 2 && |b| < TWO_63
    requires at + |EncodeRecord(Record(tag / 8, Bytes(b)))| <= a.Length
    modifies a
    ensures end == at + |EncodeRecord(Record(tag / 8, Bytes(b)))|
    ensures a[..] == Splice(old(a[..]), at, EncodeRecord(Record(tag / 8, Bytes(b))))
  {
    assert EncodeRecord(Record(tag / 8, Bytes(b))) == Header(tag, |b|) + b;
    hide Splice, Header, EncodeRecord;
    end := PutHeader(a, at, tag, |b|);
    end := Copy(a, end, b);
    SpliceSplice(old(a[..]), at, Header(tag, |b|), b);
  }

  method PutBytes(a: array<byte>, at: nat, tag: byte, b: seq<byte>) returns (end: nat)
    requires tag < 0x80 && tag % 8 == 2 && |b| < TWO_63
    requires at + |EncodeAll(BytesRecord(tag / 8, b))| <= a.Length
    modifies a
    ensures end == at + |EncodeAll(BytesRecord(tag / 8, b))|
    ensures a[..] == Splice(old(a[..]), at, EncodeAll(BytesRecord(tag / 8, b)))
  {
    if |b| > 0 {
      EncodeOne(Record(tag / 8, Bytes(b)));
      end := PutString(a, at, tag, b);
    } else {
      end := at;
    }
  }

  method PutOptional(a: array<byte>, at: nat, tag: byte, b: Option<seq<byte>>) returns (end: nat)
    requires tag < 0x80 && tag % 8 == 2 && (b.Some? ==> |b.value| < TWO_63)
    requires at + |EncodeAll(OptionalRecord(tag / 8, b))| <= a.Length
    modifies a
    ensures end == at + |EncodeAll(OptionalRecord(tag / 8, b))|
    ensures a[..] == Splice(old(a[..]), at, EncodeAll(OptionalRecord(tag / 8, b)))
  {
    if b.Some? {
      EncodeOne(Record(tag / 8, Bytes(b.value)));
      end := PutString(a, at, tag, b.value);
    } else {
      end := at;
    }
  }

  // ---- Reading ---------------------------------------------------------------------------------

  /** What the whole varint is, once `n` bytes have given `v` and the rest gives `r`. */
  function Resume(v: nat, weight: nat, n: nat, r: Result<Read>): Result<Read> {
    match r
    case Ok(rest) => Ok(Read(v + weight * rest.raw, n + rest.size))
    case Err(e) => Err(e)
  }

  lemma ReadFromOne(s: seq<byte>, k: nat)
    requires k < 10 && k < |s|
    ensures s[k] < 0x80 ==> ReadFrom(s[k..], k) == Ok(Read(s[k], 1))
    ensures s[k] >= 0x80 ==> ReadFrom(s[k..], k) == Resume(s[k] - 0x80, 0x80, 1, ReadFrom(s[k + 1..], k + 1))
  {
    assert s[k..][1..] == s[k + 1..];
  }

  lemma WeighBound(v: nat, weight: nat, low: nat)
    requires v < weight && low < 0x80
    ensures 0 <= weight * low && v + weight * low < 0x80 * weight
  {
    assert weight * low <= weight * 0x7f;
  }

  lemma ResumeTwice(v: nat, weight: nat, k: nat, low: nat, rest: Result<Read>)
    ensures 0 <= weight * low
    ensures Resume(v, weight, k, Resume(low, 0x80, 1, rest)) == Resume(v + weight * low, 0x80 * weight, k + 1, rest)
  {
    if rest.Ok? {
      var raw := rest.value.raw;
      assert weight * (low + 0x80 * raw) == weight * low + (0x80 * weight) * raw;
    }
  }

  lemma ResumeLast(v: nat, weight: nat, k: nat, low: nat)
    ensures 0 <= weight * low
    ensures Resume(v, weight, k, Ok(Read(low, 1))) == Ok(Read(v + weight * low, k + 1))
  {}

  /** The accumulated number with the low seven bits of `b` added above it. */
  function AddShifted(v: nat, b: byte, shift: nat): int {
    v + Pow2(shift) * (b % 0x80)
  }

  lemma ResumeSum(s: seq<byte>, k: nat, v: nat, shift: nat)
    requires k < 10 && k < |s| && shift == 7 * k && v < Pow2(shift)
    ensures var sum := AddShifted(v, s[k], shift);
            0 <= sum < Pow2(shift + 7)
            && Resume(v, Pow2(shift), k, ReadFrom(s[k..], k))
               == if s[k] < 0x80 then Ok(Read(sum, k + 1))
                  else Resume(sum, Pow2(shift + 7), k + 1, ReadFrom(s[k + 1..], k + 1))
  {
    hide Pow2, ReadFrom, Resume;
    ReadFromOne(s, k);
    Pow2Plus7(shift);
    WeighBound(v, Pow2(shift), s[k] % 0x80);
    if s[k] < 0x80 {
      ResumeLast(v, Pow2(shift), k, s[k]);
    } else {
      ResumeTwice(v, Pow2(shift), k, s[k] - 0x80, ReadFrom(s[k + 1..], k + 1));
    }
  }

  /** `v |= (uint64(b) & 0x7f) << shift`. */
  function OrShifted(v: uint64, b: byte, shift: nat): uint64 {
    Pow2Of32();
    Nonnegative(Pow2(shift), b % 0x80);
    Or(v, Pow2(shift) * (b % 0x80) % TWO_64, 64)
  }

  /** As no bit of `v` lies at `shift` or above, this is the sum, cut off at 64 bits. */
  lemma OrShiftedIsSum(v: uint64, b: byte, shift: nat)
    requires shift <= 64 ==> v < Pow2(shift)
    ensures OrShifted(v, b, shift) == AddShifted(v, b, shift) % TWO_64
  {
    hide Or, Pow2;
    Pow2Of32();
    OrShiftIsSum(v, b % 0x80, shift, 64);
  }

  /** One byte moves the weight up by seven bits; before the tenth byte nothing is cut off. */
  lemma ResumeByte(s: seq<byte>, k: nat, v: uint64, shift: nat)
    requires k < 10 && k < |s| && shift == 7 * k && v < Pow2(shift)
    ensures var r := Resume(v, Pow2(shift), k, ReadFrom(s[k..], k));
            var v' := OrShifted(v, s[k], shift);
            (s[k] < 0x80 ==> r.Ok? && r.value.raw % TWO_64 == v' && r.value.size == k + 1)
            && (k < 9 ==> v' < Pow2(shift + 7))
            && (k < 9 && s[k] >= 0x80 ==> r == Resume(v', Pow2(shift + 7), k + 1, ReadFrom(s[k + 1..], k + 1)))
            && (k == 9 && s[k] >= 0x80 ==> r == Err(IntOverflow))
  {
    hide Pow2, ReadFrom, AddShifted, OrShifted;
    ResumeSum(s, k, v, shift);
    OrShiftedIsSum(v, s[k], shift);
    if k < 9 {
      Pow2Monotone(shift + 7, 63);
      Pow2Of63();
    } else if s[k] >= 0x80 {
      OverflowAtTen(s[k + 1..]);
    }
  }

  /** After `n` bytes the loop has accumulated `v`. */
  predicate Reading(s: seq<byte>, n: nat, v: uint64) {
    && n <= 10 && n <= |s|
    && (n < 10 ==> v < Pow2(7 * n))
    && ReadFrom(s, 0) == if n == 10 then Err(IntOverflow) else Resume(v, Pow2(7 * n), n, ReadFrom(s[n..], n))
  }

  /** One more byte: the end of the varint, or one more turn of the loop. */
  lemma ReadByte(s: seq<byte>, n: nat, v: uint64)
    requires Reading(s, n, v) && n < 10 && n < |s|
    ensures var v' := OrShifted(v, s[n], 7 * n);
            if s[n] < 0x80 then ReadVarint(s) == Ok(Varint(v', n + 1)) else Reading(s, n + 1, v')
  {
    hide Pow2, ReadFrom, Resume, OrShifted;
    ResumeByte(s, n, v, 7 * n);
  }

  /** Where the loop gives up. */
  lemma CannotRead(s: seq<byte>, n: nat, v: uint64)
    requires Reading(s, n, v)
    ensures n == 10 ==> ReadVarint(s) == Err(IntOverflow)
    ensures n < 10 && n == |s| ==> ReadVarint(s) == Err(UnexpectedEOF)
  {
    if n < 10 && n == |s| {
      NothingToRead(s[n..], n, v, Pow2(7 * n));
    }
  }

  /** The loop that accumulates a varint and stops at the first byte without the top bit. */
  method DecodeVarint(a: array<byte>, lo: nat, hi: nat) returns (r: Result<Varint>)
    requires lo <= hi <= a.Length
    ensures r == ReadVarint(a[lo..hi])
  {
    hide *;
    ghost var s := a[lo..hi];
    var i: nat, shift: nat, v: uint64 := lo, 0, 0;
    StartReading(s);
    while true
      invariant lo <= i <= hi && i - lo <= 10 && shift == 7 * (i - lo)
      invariant Reading(s, i - lo, v)
      decreases 70 - shift
    {
      CannotRead(s, i - lo, v);
      if shift >= 64 {
        return Err(IntOverflow);
      }
      if i >= hi {
        return Err(UnexpectedEOF);
      }
      var b := a[i];
      ReadByte(s, i - lo, v);
      v := OrShifted(v, b, shift);
      i := i + 1;
      shift := shift + 7;
      if b < 0x80 {
        return Ok(Varint(v, i - lo));
      }
    }
  }

  lemma StartReading(s: seq<byte>)
    ensures Reading(s, 0, 0)
  {
    assert s[0..] == s;
  }

  lemma NothingToRead(s: seq<byte>, k: nat, v: nat, weight: nat)
    requires s == [] && k < 10
    ensures Resume(v, weight, k, ReadFrom(s, k)) == Err(UnexpectedEOF)
  {}

  lemma OverflowAtTen(s: seq<byte>)
    ensures ReadFrom(s, 10) == Err(IntOverflow)
  {}

  /** `skipTelemetry` on the slice `a[lo..hi]`. */
  method Skip(a: array<byte>, lo: nat, hi: nat) returns (r: Result<int>)
    requires lo <= hi <= a.Length
    ensures r == Skipping.Skip(a[lo..hi])
    decreases hi - lo
  {
    hide ReadVarint;
    if lo == hi {
      return Err(Unreachable);
    }
    ghost var s := a[lo..hi];
    var tag :- DecodeVarint(a, lo, hi);
    var i: nat := tag.size;
    assert a[lo + i..hi] == s[i..];
    match tag.value % 8 {
      case 0 =>
        var v :- DecodeVarint(a, lo + i, hi);
        return Ok(i + v.size);
      case 1 =>
        return Ok(i + 8);
      case 2 =>
        var length :- DecodeVarint(a, lo + i, hi);
        if length.value >= TWO_63 {
          return Err(InvalidLength);
        }
        return Ok(Wrap64(i + length.size + length.value));
      case 3 =>
        r := SkipToEndGroup(a, lo, i, hi);
      case 4 =>
        return Ok(i);
      case 5 =>
        return Ok(i + 4);
      case _ =>
        return Err(IllegalWireType(tag.value % 8));
    }
  }

  /** The answer `i` bytes further on. */
  function Advance(i: nat, r: Result<int>): Result<int> {
    if r.Ok? then Ok(i + r.value) else r
  }

  /** The loop of the group case: skip fields until an end-group tag.  A field that ends
      behind the slice is noticed by the bounds check of the next turn, and an index that has
      wrapped around panics there. */
  method SkipToEndGroup(a: array<byte>, lo: nat, tagSize: nat, hi: nat) returns (r: Result<int>)
    requires lo + tagSize <= hi <= a.Length && tagSize > 0
    ensures r == Advance(tagSize, Skipping.SkipGroup(a[lo..hi][tagSize..], tagSize))
    decreases hi - lo, 0
  {
    hide ReadVarint, Skipping.Skip;
    ghost var s := a[lo..hi];
    var i := tagSize;
    while true
      invariant tagSize <= i <= hi - lo
      invariant Advance(tagSize, Skipping.SkipGroup(s[tagSize..], tagSize)) == Advance(i, Skipping.SkipGroup(s[i..], i))
      decreases hi - lo - i
    {
      var start := i;
      assert a[lo + i..hi] == s[i..];
      var inner := DecodeVarint(a, lo + i, hi);
      if inner.Err? {
        return Err(inner.error);
      }
      i := i + inner.value.size;
      if inner.value.value % 8 == 4 {
        return Ok(i);
      }
      var next := Skip(a, lo + start, hi);
      if next.Err? {
        return next;
      }
      if next.value < 0 || start + next.value >= TWO_63 {
        return Err(OutOfRange);
      }
      i := start + next.value;
      if i > hi - lo {
        return Err(UnexpectedEOF);
      }
      assert s[start..][next.value..] == s[i..];
    }
  }

  /** One turn of an `Unmarshal` loop up to its `switch`: the field at `i` in the slice
      `a[lo..hi]`. */
  method NextField(kind: Kind, a: array<byte>, lo: nat, i: nat, hi: nat) returns (r: Result<Scanned<Item>>)
    requires lo <= i < hi <= a.Length
    ensures r == NextItem(kind, a[i..hi], i - lo)
    ensures r.Ok? ==> i + r.value.size <= hi
    ensures r.Ok? && r.value.item.Known? && r.value.item.payload.Bytes? ==>
              (var end := i + r.value.size;
               |r.value.item.payload.b| < end - i && r.value.item.payload.b == a[end - |r.value.item.payload.b|..end])
  {
    hide ReadVarint, Skipping.Skip, Declared, ReadPayload;
    ghost var s := a[i..hi];
    var tag :- DecodeVarint(a, i, hi);
    var num := ToInt32(tag.value / 8);
    var wireType := tag.value % 8;
    if wireType == 4 {
      return Err(EndGroup);
    }
    if num <= 0 {
      return Err(IllegalTag(num, tag.value));
    }
    var declared := Declared(kind, num);
    if declared.Some? {
      if wireType != Code(declared.value) {
        return Err(WrongWireType(wireType, num));
      }
      var at := i + tag.size;
      assert a[at..hi] == s[tag.size..];
      var p :- DecodePayload(declared.value, a, lo, at, hi);
      return Ok(Scanned(Known(num, p.item), tag.size + p.size));
    } else {
      var n :- Skip(a, i, hi);
      if n < 0 {
        return Err(InvalidLength);
      }
      if n > hi - i {
        return Err(Overrun(i - lo + n));
      }
      return Ok(Scanned(Unknown, n));
    }
  }

  lemma SubSlice(t: seq<byte>, i: nat, hi: nat, x: nat, y: nat)
    requires x <= y && i + y <= hi <= |t|
    ensures t[i..hi][x..y] == t[i + x..i + y]
  {
    assert forall k | 0 <= k < y - x :: t[i..hi][x..y][k] == t[i + x..i + y][k];
  }

  method DecodePayload(t: WireType, a: array<byte>, lo: nat, i: nat, hi: nat) returns (r: Result<Scanned<Payload>>)
    requires lo <= i <= hi <= a.Length
    ensures r == ReadPayload(t, a[i..hi], i - lo)
    ensures r.Ok? ==> i + r.value.size <= hi
    ensures r.Ok? && t.BytesType? ==>
              (var end := i + r.value.size;
               |r.value.item.b| < end - i && r.value.item.b == a[end - |r.value.item.b|..end])
  {
    hide ReadVarint;
    ghost var s := a[i..hi];
    match t {
      case VarintType =>
        var v :- DecodeVarint(a, i, hi);
        return Ok(Scanned(Number(v.value), v.size));
      case Fixed64Type =>
        if i + 8 > hi {
          return Err(Overrun(i + 8 - lo));
        }
        assert a[i..i + 8] == s[..8];
        return Ok(Scanned(Fixed64(Fixed64Bits(a[i..i + 8])), 8));
      case BytesType =>
        var length :- DecodeVarint(a, i, hi);
        if length.value >= TWO_63 {
          return Err(InvalidLength);
        }
        var start := i + length.size;
        var end := start + length.value;
        if end > hi {
          return Err(Overrun(end - lo));
        }
        SubSlice(a[..], i, hi, length.size, length.size + length.value);
        return Ok(Scanned(Bytes(a[start..end]), end - i));
      case Fixed32Type =>
        if i + 4 > hi {
          return Err(Overrun(i + 4 - lo));
        }
        assert a[i..i + 4] == s[..4];
        return Ok(Scanned(Fixed32(Fixed32Bits(a[i..i + 4])), 4));
    }
  }
}

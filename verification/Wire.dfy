/**
  The integers, bytes and outcomes of the wire format, and its two integer encodings:
  base-128 varints and zigzag.  Go's fixed-width arithmetic is written out: a value of a
  `uint64` is a number below 2^64, a shift to the left is a multiplication followed by the
  truncation to the width, and `|=` of bits that are still zero is an addition
  (`OrShiftIsSum`).
 */
module Wire {

  const TWO_32 := 0x1_0000_0000
  const TWO_63 := 0x8000_0000_0000_0000
  const TWO_64 := 0x1_0000_0000_0000_0000

  type byte = n: int | 0 <= n < 0x100
  type uint32 = n: int | 0 <= n < 0x1_0000_0000
  type uint64 = n: int | 0 <= n < 0x1_0000_0000_0000_0000
  type int32 = n: int | -0x8000_0000 <= n < 0x8000_0000
  type int64 = n: int | -0x8000_0000_0000_0000 <= n < 0x8000_0000_0000_0000

  datatype Option<+T> = None | Some(value: T)

  function OrElse<T>(o: Option<T>, default: T): T {
    if o.Some? then o.value else default
  }

  /** Every way in which decoding can end early.  `OutOfRange` is Go's run-time panic on a
      slice or index expression, reached when an index wraps around; `Unreachable` is the panic
      behind the loop of the skipper. */
  datatype Error =
    | IntOverflow
    | UnexpectedEOF
    | InvalidLength
    | EndGroup
    | IllegalTag(fieldNum: int32, wire: uint64)
    | WrongWireType(wireType: nat, fieldNum: int32)
    | IllegalWireType(wireType: nat)
    | OutOfRange
    | Unreachable

  datatype Result<+T> = Ok(value: T) | Err(error: Error)
  {
    predicate IsFailure() { Err? }

    function PropagateFailure<U>(): Result<U>
      requires Err?
    {
      Err(error)
    }

    function Extract(): T
      requires Ok?
    {
      value
    }
  }

  /** Two outcomes that agree except, perhaps, in which error they report. */
  ghost predicate SameOutcome<T(!new)>(a: Result<T>, b: Result<T>) {
    a.Ok? == b.Ok? && (a.Ok? ==> a.value == b.value)
  }

  // ---- Conversions between integer widths -------------------------------------------------

  /** Go's `uint64(x)` of a signed value. */
  function ToUint64(x: int64): uint64 {
    if x < 0 then x + TWO_64 else x
  }

  /** Go's `int64(x)` of an unsigned value. */
  function ToInt64(x: uint64): int64 {
    if x < TWO_63 then x else x - TWO_64
  }

  function ToUint32(x: int32): uint32 {
    if x < 0 then x + TWO_32 else x
  }

  /** Go's `int32(x)` of any unsigned value: the low 32 bits, read as two's complement. */
  function ToInt32(x: nat): int32 {
    var low := x % TWO_32;
    if low < 0x8000_0000 then low else low - TWO_32
  }

  /** An `int` after wrapping around in 64 bits; `x` is the sum of two non-negative `int`s. */
  function Wrap64(x: nat): int {
    if x < TWO_63 then x else x - TWO_64
  }

  // ---- Varints ---------------------------------------------------------------------------

  /** The bytes written for a number: seven bits a byte, low bits first, the top bit of
      every byte but the last one set. */
  function EncodeVarint(v: nat): (s: seq<byte>)
    ensures |s| >= 1
  {
    if v < 0x80 then [v] else [v % 0x80 + 0x80] + EncodeVarint(v / 0x80)
  }

  /** What one run of the decoding loop finds: the number and the bytes it consumed. */
  datatype Read = Read(raw: nat, size: nat)

  /** The loop `for shift := 0; ; shift += 7`, entered after `k` bytes.  The number is kept
      unreduced here; `ReadVarint` truncates it. */
  function ReadFrom(s: seq<byte>, k: nat): (r: Result<Read>)
    requires k <= 10
    ensures r.Ok? ==> 1 <= r.value.size <= 10 - k && r.value.size <= |s|
    decreases |s|
  {
    if k == 10 then Err(IntOverflow)
    else if s == [] then Err(UnexpectedEOF)
    else if s[0] < 0x80 then Ok(Read(s[0], 1))
    else
      var rest :- ReadFrom(s[1..], k + 1);
      Ok(Read(s[0] - 0x80 + 0x80 * rest.raw, 1 + rest.size))
  }

  datatype Varint = Varint(value: uint64, size: nat)

  function ReadVarint(s: seq<byte>): (r: Result<Varint>)
    ensures r.Ok? ==> 1 <= r.value.size <= 10 && r.value.size <= |s|
  {
    var read :- ReadFrom(s, 0);
    Ok(Varint(read.raw % TWO_64, read.size))
  }

  function Pow2(n: nat): (p: nat)
    ensures p >= 1
  {
    if n == 0 then 1 else 2 * Pow2(n - 1)
  }

  lemma Pow2Plus7(n: nat)
    ensures Pow2(n + 7) == 0x80 * Pow2(n)
  {
    assert Pow2(n + 7) == 2 * Pow2(n + 6) == 4 * Pow2(n + 5) == 8 * Pow2(n + 4);
    assert Pow2(n + 4) == 2 * Pow2(n + 3) == 4 * Pow2(n + 2) == 8 * Pow2(n + 1);
  }

  lemma Pow2Of63()
    ensures Pow2(63) == TWO_63 && Pow2(70) == 0x80 * TWO_63
  {
    Pow2Plus7(0); Pow2Plus7(7); Pow2Plus7(14); Pow2Plus7(21); Pow2Plus7(28);
    Pow2Plus7(35); Pow2Plus7(42); Pow2Plus7(49); Pow2Plus7(56); Pow2Plus7(63);
  }

  /** The reader consumes a written number and nothing after it. */
  lemma {:induction false} ReadEncoded(v: nat, rest: seq<byte>, k: nat)
    requires k < 10 && v < Pow2(7 * (10 - k))
    ensures ReadFrom(EncodeVarint(v) + rest, k) == Ok(Read(v, |EncodeVarint(v)|))
    decreases v
  {
    var s := EncodeVarint(v) + rest;
    if v < 0x80 {
    } else {
      assert s[1..] == EncodeVarint(v / 0x80) + rest;
      Pow2Plus7(7 * (9 - k));
      if k == 9 { assert false; }
      ReadEncoded(v / 0x80, rest, k + 1);
    }
  }

  lemma Varint64(v: uint64)
    ensures v < Pow2(70)
  {
    Pow2Of63();
  }

  /** For every 64-bit number and any bytes behind it, the decoder reads the number back and
      stops exactly at the end of its encoding. */
  lemma VarintRoundTrip(v: uint64, rest: seq<byte>)
    ensures ReadVarint(EncodeVarint(v) + rest) == Ok(Varint(v, |EncodeVarint(v)|))
    ensures |EncodeVarint(v)| <= 10
  {
    hide ReadFrom, EncodeVarint, Pow2;
    Varint64(v);
    ReadEncoded(v, rest, 0);
  }

  /** No encoding is a proper prefix of another one. */
  lemma VarintPrefixFree(v: uint64, w: uint64, tail: seq<byte>)
    requires EncodeVarint(v) + tail == EncodeVarint(w)
    ensures v == w && tail == []
  {
    VarintRoundTrip(v, tail);
    VarintRoundTrip(w, []);
    assert EncodeVarint(w) + [] == EncodeVarint(w);
  }

  lemma {:induction false} EncodedSizeBound(v: nat, n: nat)
    requires 1 <= n && v < Pow2(7 * n)
    ensures |EncodeVarint(v)| <= n
    decreases n
  {
    Pow2Plus7(7 * (n - 1));
    if v < 0x80 {
    } else {
      if n == 1 { assert false; }
      EncodedSizeBound(v / 0x80, n - 1);
    }
  }

  lemma {:induction false} RawBound(s: seq<byte>, k: nat)
    requires k <= 10 && ReadFrom(s, k).Ok?
    ensures ReadFrom(s, k).value.raw < Pow2(7 * ReadFrom(s, k).value.size)
    decreases |s|
  {
    if s[0] >= 0x80 {
      RawBound(s[1..], k + 1);
      Pow2Plus7(7 * ReadFrom(s[1..], k + 1).value.size);
    } else {
      Pow2Plus7(0);
    }
  }

  /** What the encoder writes is the shortest byte string the decoder accepts for a number,
      although the decoder also accepts longer ones and drops bits above the 64th. */
  lemma VarintMinimal(s: seq<byte>)
    requires ReadVarint(s).Ok?
    ensures |EncodeVarint(ReadVarint(s).value.value)| <= ReadVarint(s).value.size
  {
    RawBound(s, 0);
    var read := ReadFrom(s, 0).value;
    EncodedSizeBound(read.raw % TWO_64, read.size);
  }

  /** Bytes behind a complete varint do not change what is read. */
  lemma {:induction false} ReadFromPrefix(a: seq<byte>, b: seq<byte>, k: nat)
    requires k <= 10 && ReadFrom(a, k).Ok?
    ensures ReadFrom(a + b, k) == ReadFrom(a, k)
    decreases |a|
  {
    if a[0] < 0x80 {
    } else {
      assert (a + b)[1..] == a[1..] + b;
      ReadFromPrefix(a[1..], b, k + 1);
    }
  }

  lemma VarintPrefix(a: seq<byte>, b: seq<byte>)
    requires ReadVarint(a).Ok?
    ensures ReadVarint(a + b) == ReadVarint(a)
  {
    ReadFromPrefix(a, b, 0);
  }

  /** A varint is its own first `size` bytes: they alone read the same. */
  lemma {:induction false} ReadFromTake(s: seq<byte>, k: nat)
    requires k <= 10 && ReadFrom(s, k).Ok?
    ensures ReadFrom(s[..ReadFrom(s, k).value.size], k) == ReadFrom(s, k)
    decreases |s|
  {
    if s[0] < 0x80 {
    } else {
      var n := ReadFrom(s, k).value.size;
      assert s[..n][1..] == s[1..][..n - 1];
      ReadFromTake(s[1..], k + 1);
    }
  }

  // ---- Bits --------------------------------------------------------------------------------

  /** Go's `a | b` and `a ^ b` on the low `w` bits, bit by bit. */
  function Or(a: nat, b: nat, w: nat): (r: nat)
    ensures r < Pow2(w)
    decreases w
  {
    if w == 0 then 0 else (if a % 2 == 1 || b % 2 == 1 then 1 else 0) + 2 * Or(a / 2, b / 2, w - 1)
  }

  function Xor(a: nat, b: nat, w: nat): (r: nat)
    ensures r < Pow2(w)
    decreases w
  {
    if w == 0 then 0 else (if a % 2 != b % 2 then 1 else 0) + 2 * Xor(a / 2, b / 2, w - 1)
  }

  lemma Pow2Of32()
    ensures Pow2(32) == TWO_32 && Pow2(64) == TWO_64
  {
    Pow2Plus7(0); Pow2Plus7(7); Pow2Plus7(14); Pow2Plus7(21);
    assert Pow2(32) == 2 * Pow2(31) == 4 * Pow2(30) == 8 * Pow2(29) == 16 * Pow2(28);
    Pow2Of63();
    assert Pow2(64) == 2 * Pow2(63);
  }

  /** Exclusive or with all zeros changes nothing, with all ones it is the complement. */
  lemma {:induction false} XorSign(x: nat, w: nat)
    requires x < Pow2(w)
    ensures Xor(x, 0, w) == x && Xor(x, Pow2(w) - 1, w) == Pow2(w) - 1 - x
    decreases w
  {
    if w == 0 {
      assert x == 0;
    } else {
      assert Pow2(w) == 2 * Pow2(w - 1);
      XorSign(x / 2, w - 1);
    }
  }

  lemma {:induction false} OrNothing(x: nat, w: nat)
    requires x < Pow2(w)
    ensures Or(0, x, w) == x && Or(x, 0, w) == x
    decreases w
  {
    if w == 0 {
      assert x == 0;
    } else {
      OrNothing(x / 2, w - 1);
    }
  }

  /** Bits or-ed in above all others are added. */
  lemma {:induction false} OrFresh(v: nat, x: nat, k: nat, w: nat)
    requires k <= w && v < Pow2(k) && 0 <= Pow2(k) * x < Pow2(w)
    ensures Or(v, Pow2(k) * x, w) == v + Pow2(k) * x
    decreases k
  {
    if k == 0 {
      OrNothing(x, w);
    } else {
      var half := Pow2(k - 1) * x;
      assert Pow2(k) * x == 2 * half;
      OrFresh(v / 2, x, k - 1, w - 1);
    }
  }

  lemma {:induction false} Pow2Sum(m: nat, n: nat)
    ensures Pow2(m + n) == Pow2(m) * Pow2(n)
    decreases m
  {
    if m == 0 {
      assert Pow2(0) == 1;
    } else {
      Pow2Sum(m - 1, n);
    }
  }

  lemma MultipleOf(m: nat, q: nat, r: nat)
    requires r < m
    ensures (m * q + r) % m == r
  {
    var n := m * q + r;
    var d, e := n / m, n % m;
    assert m * (q - d) == e - r;
    if q > d {
      Monotone(m, 1, q - d);
    } else if q < d {
      Monotone(m, 1, d - q);
    }
  }

  lemma Monotone(m: nat, a: int, b: int)
    requires a <= b
    ensures m * a <= m * b
  {}

  /** What a shift cuts off at the top of a `w`-bit word. */
  lemma ShiftCuts(x: nat, k: nat, w: nat)
    requires k <= w
    ensures var p, q := Pow2(k), Pow2(w - k);
            Pow2(w) == p * q && 0 <= p * x && p * x % Pow2(w) == p * (x % q)
  {
    hide Pow2;
    var p, q := Pow2(k), Pow2(w - k);
    Pow2Sum(k, w - k);
    CutOff(p, q, x, 0);
  }

  /** A sum whose upper part is cut off at `p * q`. */
  lemma CutOff(p: nat, q: nat, x: nat, v: nat)
    requires v < p && q > 0
    ensures 0 <= p * (x % q) && v + p * (x % q) < p * q
    ensures 0 <= p * x && (v + p * x) % (p * q) == v + p * (x % q)
  {
    var high, low := x / q, x % q;
    assert x == q * high + low;
    assert p * x == p * (q * high) + p * low;
    assert p * (q * high) == p * q * high;
    Monotone(p, 0, low);
    Monotone(p, low + 1, q);
    Monotone(p, 0, x);
    MultipleOf(p * q, high, v + p * low);
  }

  /** `v |= x << k` on `w` bits, when `v` has no bit at `k` or above: the sum, cut off. */
  lemma OrShiftIsSum(v: nat, x: nat, k: nat, w: nat)
    requires v < Pow2(w) && (k <= w ==> v < Pow2(k))
    ensures 0 <= Pow2(k) * x && Or(v, Pow2(k) * x % Pow2(w), w) == (v + Pow2(k) * x) % Pow2(w)
  {
    hide Pow2, Or;
    if k <= w {
      ShiftCuts(x, k, w);
      CutOff(Pow2(k), Pow2(w - k), x, v);
      OrFresh(v, x % Pow2(w - k), k, w);
    } else {
      Pow2Sum(w, k - w);
      var p, q := Pow2(w), Pow2(k - w);
      OrNothing(v, w);
      Monotone(q, 0, x);
      assert p * q * x == p * (q * x);
      MultipleOf(p, q * x, 0);
      MultipleOf(p, q * x, v);
    }
  }

  // ---- 32-bit accumulation ---------------------------------------------------------------------

  function Add32(v: uint32, weight: nat, x: nat): uint32 {
    Nonnegative(weight, x);
    (v + weight * x) % TWO_32
  }

  lemma Nonnegative(x: nat, y: nat)
    ensures 0 <= x * y
  {}

  /** `v |= (uint32(b) & 0x7f) << shift`: every step keeps 32 bits only. */
  function OrShifted32(v: uint32, b: byte, shift: nat): uint32 {
    Pow2Of32();
    Nonnegative(Pow2(shift), b % 0x80);
    Or(v, Pow2(shift) * (b % 0x80) % TWO_32, 32)
  }

  /** The decoding loop of a `uint32` or `int32` variable. */
  function Loop32(s: seq<byte>, k: nat, v: uint32): uint32 {
    if s == [] then v else Loop32(s[1..], k + 1, OrShifted32(v, s[0], 7 * k))
  }

  lemma OrShifted32IsSum(v: uint32, b: byte, shift: nat)
    requires shift <= 32 ==> v < Pow2(shift)
    ensures OrShifted32(v, b, shift) == Add32(v, Pow2(shift), b % 0x80)
    ensures shift + 7 <= 32 ==> OrShifted32(v, b, shift) < Pow2(shift + 7)
  {
    hide Or, Pow2;
    Pow2Of32();
    Pow2Plus7(shift);
    var p, x := Pow2(shift), b % 0x80;
    OrShiftIsSum(v, x, shift, 32);
    if shift + 7 <= 32 {
      Pow2Monotone(shift + 7, 32);
      Monotone(p, x, 0x7f);
    }
  }

  lemma {:induction false} Pow2Monotone(m: nat, n: nat)
    requires m <= n
    ensures Pow2(m) <= Pow2(n)
    decreases n - m
  {
    if m == n {
    } else {
      Pow2Monotone(m, n - 1);
    }
  }

  lemma AddTwice(v: uint32, weight: nat, low: nat, raw: nat)
    ensures Add32(Add32(v, weight, low), 0x80 * weight, raw) == Add32(v, weight, low + 0x80 * raw)
  {
    var x, y := v + weight * low, (0x80 * weight) * raw;
    assert x + y == v + weight * (low + 0x80 * raw);
    assert (x % TWO_32 + y) % TWO_32 == (x + y) % TWO_32;
  }

  lemma {:induction false} Loop32Raw(s: seq<byte>, k: nat, v: uint32)
    requires k <= 10 && ReadFrom(s, k).Ok? && ReadFrom(s, k).value.size == |s|
    requires 7 * k <= 32 ==> v < Pow2(7 * k)
    ensures Loop32(s, k, v) == Add32(v, Pow2(7 * k), ReadFrom(s, k).value.raw)
    decreases |s|
  {
    hide Add32, OrShifted32, Pow2;
    OrShifted32IsSum(v, s[0], 7 * k);
    Pow2Plus7(7 * k);
    if s[0] < 0x80 {
      assert s[1..] == [];
    } else {
      var low := s[0] - 0x80;
      Loop32Raw(s[1..], k + 1, OrShifted32(v, s[0], 7 * k));
      AddTwice(v, Pow2(7 * k), low, ReadFrom(s[1..], k + 1).value.raw);
    }
  }

  /** A 32-bit loop ends with the low 32 bits of what the 64-bit loop reads. */
  lemma Loop32IsLowBits(s: seq<byte>)
    requires ReadVarint(s).Ok? && ReadVarint(s).value.size == |s|
    ensures Loop32(s, 0, 0) == ReadVarint(s).value.value % TWO_32
  {
    assert Pow2(0) == 1;
    Loop32Raw(s, 0, 0);
    LowBits(ReadFrom(s, 0).value.raw);
    hide ReadFrom, Loop32;
  }

  lemma LowBits(x: nat)
    ensures x % TWO_64 % TWO_32 == x % TWO_32
  {
    var q, a, b := x / TWO_64, x % TWO_64 / TWO_32, x % TWO_64 % TWO_32;
    assert x == (q * TWO_32 + a) * TWO_32 + b;
  }

  // ---- Zigzag ----------------------------------------------------------------------------

  /** `(uint32(n) << 1) ^ uint32(n >> 31)`; the shift of a signed number rounds down. */
  function ZigZag32(n: int32): uint32 {
    Pow2Of32();
    Xor(2 * ToUint32(n) % TWO_32, ToUint32(n / 0x8000_0000), 32)
  }

  /** `(uint64(n) << 1) ^ uint64(n >> 63)`. */
  function ZigZag64(n: int64): uint64 {
    Pow2Of32();
    Xor(2 * ToUint64(n) % TWO_64, ToUint64(n / TWO_63), 64)
  }

  /** `int32((uint32(v) >> 1) ^ uint32(((v & 1) << 31) >> 31))`. */
  function UnZigZag32(u: uint32): int32 {
    ToInt32(Xor(u / 2, ToUint32(ToInt32(u % 2 * 0x8000_0000) / 0x8000_0000), 32))
  }

  /** `int64((v >> 1) ^ uint64((int64(v & 1) << 63) >> 63))`. */
  function UnZigZag64(u: uint64): int64 {
    Pow2Of32();
    ToInt64(Xor(u / 2, ToUint64(ToInt64(u % 2 * TWO_63) / TWO_63), 64))
  }

  lemma ZigZag32Meaning(n: int32)
    ensures ZigZag32(n) == if n < 0 then -2 * n - 1 else 2 * n
  {
    hide Xor, Pow2;
    Pow2Of32();
    var doubled := 2 * ToUint32(n) % TWO_32;
    XorSign(doubled, 32);
    if n < 0 {
      MultipleOf(TWO_32, 1, 2 * n + TWO_32);
      assert n / 0x8000_0000 == -1;
    } else {
      assert n / 0x8000_0000 == 0;
    }
  }

  lemma ZigZag64Meaning(n: int64)
    ensures ZigZag64(n) == if n < 0 then -2 * n - 1 else 2 * n
  {
    hide Xor, Pow2;
    Pow2Of32();
    var doubled := 2 * ToUint64(n) % TWO_64;
    XorSign(doubled, 64);
    if n < 0 {
      MultipleOf(TWO_64, 1, 2 * n + TWO_64);
      assert n / TWO_63 == -1;
    } else {
      assert n / TWO_63 == 0;
    }
  }

  /** Both widths of zigzag are `2n` for `n >= 0` and `-2n - 1` for `n < 0`. */
  lemma ZigZagMeaning(n: int64)
    ensures ZigZag64(n) == if n < 0 then -2 * n - 1 else 2 * n
    ensures -0x8000_0000 <= n < 0x8000_0000 ==> ZigZag32(n) == if n < 0 then -2 * n - 1 else 2 * n
  {
    hide ZigZag32, ZigZag64;
    ZigZag64Meaning(n);
    if -0x8000_0000 <= n < 0x8000_0000 {
      ZigZag32Meaning(n);
    }
  }

  /** Decoding halves, and an odd number stands for a negative one. */
  lemma UnZigZagMeaning(u: uint64)
    ensures UnZigZag64(u) == if u % 2 == 1 then -(u / 2) - 1 else u / 2
    ensures u < TWO_32 ==> UnZigZag32(u) == if u % 2 == 1 then -(u / 2) - 1 else u / 2
  {
    hide Xor, Pow2;
    Pow2Of32();
    XorSign(u / 2, 64);
    if u < TWO_32 {
      XorSign(u / 2, 32);
    }
  }

  lemma ZigZag32Inverse(n: int32)
    ensures UnZigZag32(ZigZag32(n)) == n
  {
    hide ZigZag32, ZigZag64, UnZigZag32, UnZigZag64;
    ZigZagMeaning(n);
    UnZigZagMeaning(ZigZag32(n));
  }

  lemma UnZigZag32Inverse(u: uint32)
    ensures ZigZag32(UnZigZag32(u)) == u
  {
    hide ZigZag32, ZigZag64, UnZigZag32, UnZigZag64;
    UnZigZagMeaning(u);
    ZigZagMeaning(UnZigZag32(u));
  }

  lemma ZigZag64Inverse(n: int64)
    ensures UnZigZag64(ZigZag64(n)) == n
  {
    hide ZigZag32, ZigZag64, UnZigZag32, UnZigZag64;
    ZigZagMeaning(n);
    UnZigZagMeaning(ZigZag64(n));
  }

  lemma UnZigZag64Inverse(u: uint64)
    ensures ZigZag64(UnZigZag64(u)) == u
  {
    hide ZigZag32, ZigZag64, UnZigZag32, UnZigZag64;
    UnZigZagMeaning(u);
    ZigZagMeaning(UnZigZag64(u));
  }

  /** `Size` sizes an `sint32` with the 64-bit zigzag of its sign extension, `MarshalTo`
      writes the 32-bit zigzag: the two forms are the same number. */
  lemma ZigZagWidthsAgree(n: int32)
    ensures ZigZag64(n) == ZigZag32(n)
  {
    hide ZigZag32, ZigZag64;
    ZigZagMeaning(n);
  }

  // ---- Little-endian fixed-width numbers ---------------------------------------------------

  function LittleEndian(v: nat, width: nat): (s: seq<byte>)
    ensures |s| == width
  {
    if width == 0 then [] else [v % 0x100] + LittleEndian(v / 0x100, width - 1)
  }

  function FromLittleEndian(s: seq<byte>): nat {
    if s == [] then 0 else s[0] + 0x100 * FromLittleEndian(s[1..])
  }

  lemma {:induction false} LittleEndianRoundTrip(v: nat, width: nat)
    requires v < Pow2(8 * width)
    ensures FromLittleEndian(LittleEndian(v, width)) == v
    decreases width
  {
    if width == 0 {
    } else {
      assert Pow2(8 * width) == 0x100 * Pow2(8 * (width - 1)) by {
        Pow2Plus7(8 * width - 8);
      }
      LittleEndianRoundTrip(v / 0x100, width - 1);
      assert LittleEndian(v, width)[1..] == LittleEndian(v / 0x100, width - 1);
    }
  }

  lemma {:induction false} FromLittleEndianBound(s: seq<byte>)
    ensures FromLittleEndian(s) < Pow2(8 * |s|)
  {
    if s == [] {
    } else {
      FromLittleEndianBound(s[1..]);
      Pow2Plus7(8 * |s| - 8);
    }
  }
}

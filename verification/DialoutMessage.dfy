/**
  `MdtDialoutArgs`, the envelope that carries encoded telemetry.  Its package has its own
  copies of the varint and skip functions, which are those of `Buffers`.
 */
module DialoutMessage {
  import opened Wire
  import opened Messages
  import opened Codec
  import opened Encoding
  import opened Buffers
  import opened FieldMessage

  class MdtDialoutArgs {
    var reqId: int64
    var data: seq<byte>
    var errors: seq<byte>

    ghost function Value(): DialoutArgs
      reads this
    {
      DialoutArgs(reqId, data, errors)
    }

    constructor ()
      ensures Value() == EMPTY_DIALOUT
    {
      reqId, data, errors := 0, [], [];
    }

    method Size() returns (n: nat)
      requires |Encode(OfDialout(Value()))| < TWO_63
      ensures n == |Encode(OfDialout(Value()))|
    {
      DialoutParts(Value());
      hide Encode, EncodeAll, NumberRecord, BytesRecord;
      n := SizeNumber(1, ToUint64(reqId));
      var l := SizeBytes(2, data);
      n := n + l;
      l := SizeBytes(3, errors);
      n := n + l;
    }

    method MarshalTo(a: array<byte>, at: nat) returns (end: nat)
      requires |Encode(OfDialout(Value()))| < TWO_63
      requires at + |Encode(OfDialout(Value()))| <= a.Length
      modifies a
      ensures end == at + |Encode(OfDialout(Value()))|
      ensures a[..] == Splice(old(a[..]), at, Encode(OfDialout(Value())))
    {
      DialoutParts(Value());
      hide Encode, EncodeAll, NumberRecord, BytesRecord, Splice;
      ghost var was := a[..];
      ghost var x, y := EncodeAll(NumberRecord(1, ToUint64(reqId))), EncodeAll(BytesRecord(2, data));
      end := PutNumber(a, at, 0x08, ToUint64(reqId));
      end := PutBytes(a, end, 0x12, data);
      SpliceSplice(was, at, x, y);
      end := PutBytes(a, end, 0x1a, errors);
      SpliceSplice(was, at, x + y, EncodeAll(BytesRecord(3, errors)));
    }

    method Marshal() returns (a: array<byte>)
      requires |Encode(OfDialout(Value()))| < TWO_63
      ensures fresh(a) && a[..] == Encode(OfDialout(Value()))
    {
      hide Encode;
      var size := Size();
      a := new byte[size](_ => 0);
      var n := MarshalTo(a, 0);
    }

    method Set(num: int, p: Payload)
      requires Declared(DialoutKind, num) == Some(TypeOf(p))
      modifies this
      ensures Value() == SetDialout(old(Value()), num, p)
    {
      match num {
        case 1 => reqId := ToInt64(p.v);
        case 2 => data := p.b;
        case _ => errors := p.b;
      }
    }

    method Unmarshal(a: array<byte>, lo: nat, hi: nat) returns (err: Option<Error>)
      requires lo <= hi <= a.Length
      modifies this
      ensures err == ErrorOf(Decode(OfDialout(old(Value())), a[lo..hi], 0))
      ensures err.None? ==> Decode(OfDialout(old(Value())), a[lo..hi], 0) == Ok(OfDialout(Value()))
    {
      hide NextItem, SetDialout, Declared, Decode;
      var i := lo;
      while i < hi
        invariant lo <= i <= hi
        invariant Decode(OfDialout(old(Value())), a[lo..hi], 0) == Decode(OfDialout(Value()), a[i..hi], i - lo)
      {
        var next := NextField(DialoutKind, a, lo, i, hi);
        DecodeStep(OfDialout(Value()), a[i..hi], i - lo);
        if next.Err? {
          return Some(next.error);
        }
        var end := i + next.value.size;
        assert a[i..hi][next.value.size..] == a[end..hi];
        if next.value.item.Known? {
          Set(next.value.item.num, next.value.item.payload);
        }
        i := end;
      }
      assert a[i..hi] == [];
      DecodeNothing(OfDialout(Value()), i - lo);
      err := None;
    }
  }
}

/** The value of a field as the record functions see it. */
module Natives {
  import opened Wire
  import Messages

  /** The dynamic type and value that the oneof of a field is turned into. */
  datatype Native =
    | BytesNative(bytes: Option<seq<byte>>)
    | StringNative(text: seq<byte>)
    | BoolNative(flag: bool)
    | Float64(bits: uint64)
    | Nil

  /** `widen` gives the bits of the float64 that a number of another type is converted to. */
  function ExtractNative(v: Option<Messages.Value>, num: bool, widen: Messages.Value -> uint64): (n: Native)
    ensures num ==> n.Float64? || n.Nil?
    ensures n.BytesNative? ==> v == Some(Messages.BytesValue(n.bytes))
    ensures n.StringNative? ==> v == Some(Messages.StringValue(n.text))
    ensures n.BoolNative? ==> v == Some(Messages.BoolValue(n.flag))
    ensures n.Float64? ==> v.Some? && n.bits == (if v.value.DoubleValue? then v.value.bits64 else widen(v.value))
                           && !v.value.BytesValue? && !v.value.StringValue? && !v.value.BoolValue?
    ensures n.Nil? <==> v.None? || (num && (v.value.BytesValue? || v.value.StringValue? || v.value.BoolValue?))
  {
    match v
    case None => Nil
    case Some(BytesValue(b)) => if num then Nil else BytesNative(b)
    case Some(StringValue(t)) => if num then Nil else StringNative(t)
    case Some(BoolValue(f)) => if num then Nil else BoolNative(f)
    case Some(DoubleValue(bits)) => Float64(bits)
    case Some(x) => Float64(widen(x))
  }
}

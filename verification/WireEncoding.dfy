/** What pb_encode writes: the byte string of a struct, or None where the encoder reports an error. */
module WireEncoding {
  import opened Words
  import opened Schema
  import Varints

  function Tag(tag: nat, wire: nat): (s: seq<byte>)
    ensures |s| > 0
  {
    Varints.Encode(tag * 8 + wire)
  }

  /** pb_encode_string. */
  function Delimited(s: seq<byte>): (r: seq<byte>)
    ensures |r| > |s|
  {
    Varints.Encode(|s|) + s
  }

  /** strnlen: the characters before the first NUL, at most max of them. A string cell holds the
      characters last stored; its array continues with a NUL. */
  function StrLen(s: seq<byte>, max: nat): (n: nat)
    ensures n <= |s| && n <= max
  {
    if s == [] || max == 0 || s[0] == 0 then 0 else 1 + StrLen(s[1..], max - 1)
  }

  predicate FitsSigned(n: int, size: nat) {
    size in {1, 2, 4, 8} && -Half(size) <= n < Half(size)
  }

  predicate FitsUnsigned(n: int, size: nat) {
    size in {1, 2, 4, 8} && 0 <= n < 2 * Half(size)
  }

  function Concat(a: Option<seq<byte>>, b: Option<seq<byte>>): (r: Option<seq<byte>>) {
    if a.Some? && b.Some? then Some(a.value + b.value) else None
  }

  /** The pb_enc_* encoder of the field's type. A value the C type cannot hold has no encoding. */
  function EncodeValue(f: Field, v: Value): (r: Option<seq<byte>>)
    ensures r.Some? ==> |r.value| > 0
    decreases f, 0
  {
    match f.ltype
    case Varint => if v.Num? && FitsSigned(v.n, f.dataSize) then Some(Varints.Encode(Unsigned64(v.n))) else None
    case UVarint => if v.Num? && FitsUnsigned(v.n, f.dataSize) then Some(Varints.Encode(v.n)) else None
    case SVarint => if v.Num? && FitsSigned(v.n, f.dataSize) then Some(Varints.Encode(Varints.ZigZag(v.n))) else None
    case Fixed32 => if v.Num? && 0 <= v.n < TWO_32 then Some(LittleEndian(v.n, 4)) else None
    case Fixed64 => if v.Num? && 0 <= v.n < TWO_64 then Some(LittleEndian(v.n, 8)) else None
    case Bytes => if v.Blob? && |v.b| + BYTES_OFFSET <= f.dataSize then Some(Delimited(v.b)) else None
    case String => if v.Blob? then Some(Delimited(v.b[..StrLen(v.b, f.dataSize)])) else None
    case FixedLengthBytes => if v.Blob? && |v.b| == f.dataSize then Some(Delimited(v.b)) else None
    case Submessage =>
      if !v.Msg? then None
      else match EncodeStruct(f.sub, v.m) case None => None case Some(s) => Some(Delimited(s))
  }

  /** The items of a packed array, one after the other. */
  function EncodePacked(f: Field, items: seq<Value>): (r: Option<seq<byte>>)
    decreases f, 1, |items|
  {
    if items == [] then Some([]) else Concat(EncodeValue(f, items[0]), EncodePacked(f, items[1..]))
  }

  function EncodeTagged(f: Field, v: Value): (r: Option<seq<byte>>)
    ensures r.Some? ==> |r.value| > 0
    decreases f, 1
  {
    Concat(Some(Tag(f.tag, f.ltype.Wire())), EncodeValue(f, v))
  }

  /** The items of an array that cannot be packed, each with its tag. */
  function EncodeEach(f: Field, items: seq<Value>): (r: Option<seq<byte>>)
    decreases f, 2, |items|
  {
    if items == [] then Some([]) else Concat(EncodeTagged(f, items[0]), EncodeEach(f, items[1..]))
  }

  /** encode_array. */
  function EncodeArray(f: Field, items: seq<Value>): (r: Option<seq<byte>>)
    decreases f, 3
  {
    if items == [] then Some([])
    else if |items| > f.arraySize then None
    else if f.ltype.Packable() then
      match EncodePacked(f, items)
      case None => None
      case Some(s) => Some(Tag(f.tag, WT_STRING) + Delimited(s))
    else EncodeEach(f, items)
  }

  /** pb_check_proto3_default_value. */
  predicate IsDefault(f: Field, m: Struct)
    decreases f, 1
  {
    f.member in m &&
    match f.htype
    case Required => false
    case Repeated => var s := m[f.member]; s.Many? && s.items == []
    case Oneof => var s := m[f.member]; s.Pick? && s.which == 0
    case Optional =>
      if f.HasFlag() then var s := m[f.member]; s.Opt? && !s.has
      else var s := m[f.member]; s.One? && IsDefaultValue(f, s.v)
  }

  /** The part of pb_check_proto3_default_value for singular fields, by type. */
  predicate IsDefaultValue(f: Field, v: Value)
    decreases f, 0
  {
    match f.ltype
    case Bytes => v.Blob? && v.b == []
    case String => v.Blob? && (v.b == [] || v.b[0] == 0)
    case FixedLengthBytes => f.dataSize == 0
    case Submessage => v.Msg? && AllDefault(f.sub, v.m)
    case _ => v.Num? && v.n == 0
  }

  predicate AllDefault(d: seq<Field>, m: Struct)
    decreases d
  {
    d == [] || (IsDefault(d[0], m) && AllDefault(d[1..], m))
  }

  /** encode_basic_field, for the member of m the field describes. */
  function EncodeField(f: Field, m: Struct): (r: Option<seq<byte>>)
    decreases f, 4
  {
    if f.member !in m then None
    else
      match (f.htype, m[f.member])
      case (Required, One(v)) => EncodeTagged(f, v)
      case (Optional, One(v)) =>
        if f.HasFlag() then None else if IsDefault(f, m) then Some([]) else EncodeTagged(f, v)
      case (Optional, Opt(has, v)) =>
        if !f.HasFlag() then None else if has then EncodeTagged(f, v) else Some([])
      case (Repeated, Many(items)) => EncodeArray(f, items)
      case (Oneof, Pick(which, v)) => if which == f.tag then EncodeTagged(f, v) else Some([])
      case _ => None
  }

  /** pb_encode: the fields in descriptor order. */
  function EncodeStruct(d: seq<Field>, m: Struct): (r: Option<seq<byte>>)
    decreases d
  {
    if d == [] then Some([]) else Concat(EncodeField(d[0], m), EncodeStruct(d[1..], m))
  }
}

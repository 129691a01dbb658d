/** What pb_decode reads: the struct a byte string decodes to and the bytes left unread. */
module WireDecoding {
  import opened Words
  import opened Schema
  import Varints

  // ----- Tags, skipping, length prefixes -----

  datatype TagResult = BadTag | ZeroTag(rest: seq<byte>) | Tagged(tag: nat, wire: nat, rest: seq<byte>)

  /** pb_decode_tag on a non-empty stream; a zero ends the message. */
  function ParseTag(s: seq<byte>): (r: TagResult)
    ensures !r.BadTag? ==> |r.rest| < |s|
    ensures r.Tagged? ==> r.wire < 8
  {
    match Varints.Decode32(s)
    case Err => BadTag
    case Ok(temp, rest) => if temp == 0 then ZeroTag(rest) else Tagged(temp / 8, temp % 8, rest)
  }

  /** pb_read of n bytes. */
  function Take(s: seq<byte>, n: nat): (r: Parse<seq<byte>>)
    ensures r.Ok? <==> n <= |s|
    ensures r.Ok? ==> r.value + r.rest == s && |r.value| == n
  {
    if |s| < n then Err else Ok(s[..n], s[n..])
  }

  /** A length and that many bytes: pb_make_string_substream followed by pb_close_string_substream. */
  function TakeDelimited(s: seq<byte>): (r: Parse<seq<byte>>)
    ensures r.Ok? ==> |r.rest| < |s| && |r.value| < |s|
  {
    match Varints.Decode32(s)
    case Err => Err
    case Ok(n, rest) => Take(rest, n)
  }

  /** pb_skip_field. */
  function Skip(wire: nat, s: seq<byte>): (r: Parse<()>)
    ensures r.Ok? ==> |r.rest| <= |s|
  {
    if wire == WT_VARINT then Varints.Skip(s)
    else if wire == WT_64BIT then Drop(Take(s, 8))
    else if wire == WT_STRING then Drop(TakeDelimited(s))
    else if wire == WT_32BIT then Drop(Take(s, 4))
    else Err
  }

  function Drop<T>(p: Parse<T>): (r: Parse<()>) {
    match p case Err => Err case Ok(_, rest) => Ok((), rest)
  }

  // ----- Integers -----

  /** pb_dec_varint: fields narrower than 64 bits first take the value as an int32. */
  function ToSigned(f: Field, u: nat): (n: Option<int>) {
    if !f.IntegerSize() then None
    else
      var wide := Signed(u, if f.dataSize == 8 then 8 else 4);
      Clamped(Signed(Unsigned64(wide), f.dataSize), wide)
  }

  /** pb_dec_uvarint. */
  function ToUnsigned(f: Field, u: nat): (n: Option<int>) {
    if !f.IntegerSize() then None else Clamped(u % (2 * Half(f.dataSize)), u)
  }

  /** pb_dec_svarint. */
  function ToZigZag(f: Field, u: nat): (n: Option<int>)
    requires u < TWO_64
  {
    if !f.IntegerSize() then None
    else var n := Varints.UnZigZag(u); Clamped(Signed(Unsigned64(n), f.dataSize), n)
  }

  /** "integer too large" unless the cast to the field's size kept the value. */
  function Clamped(cast: int, value: int): (n: Option<int>) {
    if cast == value then Some(cast) else None
  }

  function Integer(n: Option<int>, rest: seq<byte>): (r: Parse<Value>) {
    match n case None => Err case Some(n) => Ok(Num(n), rest)
  }

  // ----- Fields -----

  /** Index of the first entry with the tag, if any: what pb_field_iter_find reports. */
  function Find(d: seq<Field>, tag: nat): (i: Option<nat>)
    ensures i.Some? ==> i.value < |d| && d[i.value].tag == tag
    ensures i.None? <==> forall f | f in d :: f.tag != tag
  {
    if d == [] then None
    else if d[0].tag == tag then Some(0)
    else
      assert forall f | f in d :: f == d[0] || f in d[1..];
      match Find(d[1..], tag) case None => None case Some(i) => Some(i + 1)
  }

  /** With distinct tags, the entry with a tag is the one found. */
  lemma {:induction false} FindAt(e: seq<Field>, i: nat)
    requires Distinct(e) && i < |e|
    ensures Find(e, e[i].tag) == Some(i)
  {
    if i > 0 {
      assert Apart(e[0], e[i]);
      Tail(e);
      FindAt(e[1..], i - 1);
    }
  }

  /** Number of REQUIRED entries among the first i: the iterator's required_field_index there. */
  function RequiredBefore(d: seq<Field>, i: nat): (n: nat)
    requires i <= |d|
    ensures n <= i
  {
    if i == 0 then 0 else RequiredBefore(d, i - 1) + if d[i - 1].htype.Required? then 1 else 0
  }

  lemma {:induction false} RequiredGrows(d: seq<Field>, i: nat, n: nat)
    requires i < n <= |d|
    ensures RequiredBefore(d, i) + (if d[i].htype.Required? then 1 else 0) <= RequiredBefore(d, n)
  {
    if i + 1 < n {
      RequiredGrows(d, i, n - 1);
    }
  }

  /** The fields_seen bits, as a set of required-field indices below PB_MAX_REQUIRED_FIELDS. */
  function MarkSeen(d: seq<Field>, i: nat, seen: set<nat>): (r: set<nat>)
    requires i < |d|
  {
    var k := RequiredBefore(d, i);
    if d[i].htype.Required? && k < PB_MAX_REQUIRED_FIELDS then seen + {k} else seen
  }

  predicate RequiredSeen(d: seq<Field>, seen: set<nat>) {
    forall k | 0 <= k < RequiredBefore(d, |d|) && k < PB_MAX_REQUIRED_FIELDS :: k in seen
  }

  /** The state of pb_decode_noinit's loop when it stops: at the end of the stream, or at a zero tag. */
  datatype Progress = Progress(m: Struct, seen: set<nat>, zeroTag: bool)

  /** The pb_dec_* decoder of the field's type, storing over `prev`. */
  function ParseValue(f: Field, s: seq<byte>, prev: Value): (r: Parse<Value>)
    ensures r.Ok? && f.ltype.Packable() ==> |r.rest| < |s|
    ensures r.Ok? ==> |r.rest| <= |s|
    decreases |s|, 0
  {
    match f.ltype
    case Varint => (match Varints.Decode(s) case Err => Err case Ok(u, rest) => Integer(ToSigned(f, u), rest))
    case UVarint => (match Varints.Decode(s) case Err => Err case Ok(u, rest) => Integer(ToUnsigned(f, u), rest))
    case SVarint => (match Varints.Decode(s) case Err => Err case Ok(u, rest) => Integer(ToZigZag(f, u), rest))
    case Fixed32 => (match Take(s, 4) case Err => Err case Ok(b, rest) => Ok(Num(FromLittleEndian(b)), rest))
    case Fixed64 => (match Take(s, 8) case Err => Err case Ok(b, rest) => Ok(Num(FromLittleEndian(b)), rest))
    case Bytes => ParseBytes(f, s)
    case String => ParseString(f, s)
    case FixedLengthBytes => ParseFixedLength(f, s)
    case Submessage =>
      match TakeDelimited(s)
      case Err => Err
      case Ok(body, rest) =>
        // New array entries are initialised here; other submessages already were.
        var start := if f.htype.Repeated? then Msg(Default(f.sub)) else prev;
        if !start.Msg? then Err
        else match DecodeNoInit(f.sub, body, start.m) case Err => Err case Ok(m, _) => Ok(Msg(m), rest)
  }

  function ParseBytes(f: Field, s: seq<byte>): (r: Parse<Value>)
    ensures r.Ok? ==> |r.rest| < |s|
  {
    match Varints.Decode32(s)
    case Err => Err
    case Ok(n, rest) =>
      if n > PB_SIZE_MAX || n + BYTES_OFFSET > f.dataSize then Err
      else match Take(rest, n) case Err => Err case Ok(b, rest) => Ok(Blob(b), rest)
  }

  /** The room for the terminator is computed in 32 bits: a length of 2^32 - 1 wraps and is refused. */
  function ParseString(f: Field, s: seq<byte>): (r: Parse<Value>)
    ensures r.Ok? ==> |r.rest| < |s|
  {
    match Varints.Decode32(s)
    case Err => Err
    case Ok(n, rest) =>
      var alloc := (n + 1) % TWO_32;
      if alloc < n || alloc > f.dataSize then Err
      else match Take(rest, n) case Err => Err case Ok(b, rest) => Ok(Blob(b), rest)
  }

  /** An empty payload stands for all zeros. */
  function ParseFixedLength(f: Field, s: seq<byte>): (r: Parse<Value>)
    ensures r.Ok? ==> |r.rest| < |s|
  {
    match Varints.Decode32(s)
    case Err => Err
    case Ok(n, rest) =>
      if n > PB_SIZE_MAX then Err
      else if n == 0 then Ok(Blob(Zeros(f.dataSize)), rest)
      else if n != f.dataSize then Err
      else match Take(rest, n) case Err => Err case Ok(b, rest) => Ok(Blob(b), rest)
  }

  /** The packed-array loop of decode_static_field: the whole payload must be used up. */
  function ParsePacked(f: Field, s: seq<byte>, items: seq<Value>): (r: Option<seq<Value>>)
    requires f.ltype.Packable()
    decreases |s|, 1
  {
    if s == [] then Some(items)
    else if |items| >= f.arraySize then None
    else
      match ParseValue(f, s, Vacant)
      case Err => None
      case Ok(v, rest) => ParsePacked(f, rest, items + [v])
  }

  /** decode_static_field. The payload is read by the field's type, whatever the wire type says. */
  function ParseSlot(f: Field, wire: nat, s: seq<byte>, slot: Slot): (r: Parse<Slot>)
    ensures r.Ok? ==> |r.rest| <= |s|
    decreases |s|, 2
  {
    match (f.htype, slot)
    case (Required, One(prev)) => (match ParseValue(f, s, prev) case Err => Err case Ok(v, rest) => Ok(One(v), rest))
    case (Optional, One(prev)) =>
      if f.HasFlag() then Err
      else (match ParseValue(f, s, prev) case Err => Err case Ok(v, rest) => Ok(One(v), rest))
    case (Optional, Opt(_, prev)) =>
      if !f.HasFlag() then Err
      else (match ParseValue(f, s, prev) case Err => Err case Ok(v, rest) => Ok(Opt(true, v), rest))
    case (Repeated, Many(items)) =>
      if wire == WT_STRING && f.ltype.Packable() then
        match TakeDelimited(s)
        case Err => Err
        case Ok(body, rest) =>
          (match ParsePacked(f, body, items) case None => Err case Some(items) => Ok(Many(items), rest))
      else if |items| >= f.arraySize then Err
      else (match ParseValue(f, s, Vacant) case Err => Err case Ok(v, rest) => Ok(Many(items + [v]), rest))
    case (Oneof, Pick(_, _)) =>
      // A submessage member is cleared and set to its defaults; other types overwrite the union.
      (match ParseValue(f, s, DefaultValue(f)) case Err => Err case Ok(v, rest) => Ok(Pick(f.tag, v), rest))
    case _ => Err
  }

  function ParseMember(f: Field, wire: nat, s: seq<byte>, m: Struct): (r: Parse<Struct>)
    ensures r.Ok? ==> |r.rest| <= |s|
    decreases |s|, 3
  {
    if f.member !in m then Err
    else match ParseSlot(f, wire, s, m[f.member]) case Err => Err case Ok(slot, rest) => Ok(m[f.member := slot], rest)
  }

  /** The while loop of pb_decode_noinit. */
  function DecodeLoop(d: seq<Field>, s: seq<byte>, m: Struct, seen: set<nat>): (r: Parse<Progress>)
    decreases |s|, 4
  {
    if s == [] then Ok(Progress(m, seen, false), [])
    else
      match ParseTag(s)
      case BadTag => Err
      case ZeroTag(rest) => Ok(Progress(m, seen, true), rest)
      case Tagged(tag, wire, rest) =>
        match Find(d, tag)
        case None =>
          // In an empty message type the iterator stands on the terminator, which has tag 0 and no size.
          if d == [] && tag == 0 then Err
          else (match Skip(wire, rest) case Err => Err case Ok(_, rest) => DecodeLoop(d, rest, m, seen))
        case Some(i) =>
          match ParseMember(d[i], wire, rest, m)
          case Err => Err
          case Ok(m, rest) => DecodeLoop(d, rest, m, MarkSeen(d, i, seen))
  }

  /** pb_decode_noinit: decode over what m holds. */
  function DecodeNoInit(d: seq<Field>, s: seq<byte>, m: Struct): (r: Parse<Struct>)
    decreases |s|, 5
  {
    match DecodeLoop(d, s, m, {})
    case Err => Err
    case Ok(p, rest) => if RequiredSeen(d, p.seen) then Ok(p.m, rest) else Err
  }

  /** pb_decode. */
  function Decode(d: seq<Field>, s: seq<byte>): (r: Parse<Struct>) {
    DecodeNoInit(d, s, Default(d))
  }
}

/** Decoding what was encoded: with the same descriptor, and with one that lacks some of the fields. */
module RoundTrip {
  import opened Words
  import opened Schema
  import opened WireEncoding
  import opened WireDecoding
  import opened WellFormedValues
  import Varints

  // ----- Descriptors with fields removed, and values with them removed -----

  /** g is f, possibly with fields removed from its submessage type. */
  ghost predicate Refines(g: Field, f: Field)
    decreases g, 0
  {
    && g.tag == f.tag && g.ltype == f.ltype && g.htype == f.htype && g.member == f.member
    && g.HasFlag() == f.HasFlag() && g.arraySize == f.arraySize
    && if g.ltype.Submessage? then Narrower(g.sub, f.sub) else g.dataSize == f.dataSize && g.initial == f.initial
  }

  /** Every field of e is a field of d. */
  ghost predicate Narrower(e: seq<Field>, d: seq<Field>)
    decreases e, 1
  {
    forall g | g in e :: exists f :: f in d && Refines(g, f)
  }

  function ProjectValue(g: Field, v: Value): (r: Value)
    decreases g, 0
  {
    if g.ltype.Submessage? && v.Msg? then Msg(Project(g.sub, v.m)) else v
  }

  function ProjectItems(g: Field, items: seq<Value>): (r: seq<Value>)
    ensures |r| == |items|
    decreases g, 1, |items|
  {
    if items == [] then [] else [ProjectValue(g, items[0])] + ProjectItems(g, items[1..])
  }

  /** The slot as field g sees it: absent content is the default, and a union set to another member is unset. */
  function ProjectSlot(g: Field, s: Slot): (r: Slot)
    decreases g, 2
  {
    match s
    case One(v) => One(ProjectValue(g, v))
    case Opt(has, v) => Opt(has, if has then ProjectValue(g, v) else DefaultValue(g))
    case Many(items) => Many(ProjectItems(g, items))
    case Pick(which, v) => if which == g.tag then Pick(which, ProjectValue(g, v)) else Pick(0, Vacant)
  }

  /** Does g decide what member k holds in s? In a union, only the chosen field does. */
  predicate Holds(g: Field, k: nat, s: Slot) {
    g.member == k && (s.Pick? ==> s.which == g.tag)
  }

  function ProjectMember(e: seq<Field>, k: nat, s: Slot): (r: Slot)
    decreases e, 0
  {
    if e == [] then Pick(0, Vacant)
    else if Holds(e[0], k, s) then ProjectSlot(e[0], s)
    else ProjectMember(e[1..], k, s)
  }

  /** The value m restricted to the fields of e. */
  function Project(e: seq<Field>, m: Struct): (r: Struct)
    decreases e, 1
  {
    map k | k in Members(e) && k in m :: ProjectMember(e, k, m[k])
  }

  lemma {:induction false} ProjectMemberAt(e: seq<Field>, k: nat, s: Slot, g: Field)
    requires Distinct(e) && g in e && Holds(g, k, s) && (g.htype.Oneof? <==> s.Pick?)
    ensures ProjectMember(e, k, s) == ProjectSlot(g, s)
    decreases e
  {
    Tail(e);
    if Holds(e[0], k, s) {
      assert e[0] == g || Apart(e[0], g);
    } else {
      ProjectMemberAt(e[1..], k, s, g);
    }
  }

  lemma {:induction false} ProjectMemberUnset(e: seq<Field>, k: nat, s: Slot)
    requires forall g | g in e :: !Holds(g, k, s)
    ensures ProjectMember(e, k, s) == Pick(0, Vacant)
    decreases e
  {
    if e != [] {
      assert e[0] in e && forall g | g in e[1..] :: g in e;
      ProjectMemberUnset(e[1..], k, s);
    }
  }

  // ----- Payloads -----

  lemma {:induction false} StrLenWhole(s: seq<byte>, max: nat)
    requires |s| < max && 0 !in s
    ensures StrLen(s, max) == |s|
  {
    if s != [] {
      StrLenWhole(s[1..], max - 1);
    }
  }

  lemma DelimitedTaken(b: seq<byte>, t: seq<byte>)
    requires |b| < TWO_32
    ensures Varints.Decode32(Delimited(b) + t) == Ok(|b|, b + t)
    ensures Take(b + t, |b|) == Ok(b, t)
    ensures TakeDelimited(Delimited(b) + t) == Ok(b, t)
  {
    assert Delimited(b) + t == Varints.Encode(|b|) + (b + t);
    Varints.Decode32InvertsEncode(|b|, b + t);
    assert (b + t)[..|b|] == b && (b + t)[|b|..] == t;
  }

  lemma FixedTaken(n: nat, width: nat, t: seq<byte>)
    requires n < Pow256(width)
    ensures Take(LittleEndian(n, width) + t, width) == Ok(LittleEndian(n, width), t)
    ensures FromLittleEndian(LittleEndian(n, width)) == n
  {
    LittleEndianInverse(n, width);
    var b := LittleEndian(n, width);
    assert (b + t)[..width] == b && (b + t)[width..] == t;
  }

  lemma SignedKeeps(n: int, size: nat)
    requires FitsSigned(n, size)
    ensures Signed(Unsigned64(n), size) == n
  {
    if n < 0 {
      if size == 1 {
        assert (n + TWO_64) % 0x100 == n + 0x100;
      } else if size == 2 {
        assert (n + TWO_64) % 0x1_0000 == n + 0x1_0000;
      } else if size == 4 {
        assert (n + TWO_64) % TWO_32 == n + TWO_32;
      }
    }
  }

  /** The casts and clamp checks of the integer decoders accept every value of the field's size. */
  lemma CastsKeep(f: Field, n: int)
    ensures FitsSigned(n, f.dataSize) ==> ToSigned(f, Unsigned64(n)) == Some(n)
    ensures FitsSigned(n, f.dataSize) ==> ToZigZag(f, Varints.ZigZag(n)) == Some(n)
    ensures FitsUnsigned(n, f.dataSize) ==> ToUnsigned(f, n) == Some(n)
  {
    if FitsSigned(n, f.dataSize) {
      SignedKeeps(n, if f.dataSize == 8 then 8 else 4);
      SignedKeeps(n, f.dataSize);
    }
  }

  /** Every decoder of a numeric type inverts its encoder. */
  lemma NumberRoundTrip(g: Field, f: Field, v: Value, t: seq<byte>, prev: Value)
    requires f.ltype.Packable() && g.ltype == f.ltype && g.dataSize == f.dataSize && ValidValue(f, v)
    ensures EncodeValue(f, v).Some?
    ensures ParseValue(g, EncodeValue(f, v).value + t, prev) == Ok(v, t)
  {
    match f.ltype
    case Varint =>
      Varints.DecodeInvertsEncode(Unsigned64(v.n), t);
      CastsKeep(g, v.n);
    case UVarint =>
      Varints.DecodeInvertsEncode(v.n, t);
      CastsKeep(g, v.n);
    case SVarint =>
      Varints.SignedInvertsEncode(v.n, t);
      CastsKeep(g, v.n);
    case Fixed32 =>
      Pow256Words();
      FixedTaken(v.n, 4, t);
    case Fixed64 =>
      Pow256Words();
      FixedTaken(v.n, 8, t);
  }

  lemma Pow256Words()
    ensures Pow256(4) == TWO_32 && Pow256(8) == TWO_64
  {
  }

  lemma BytesRoundTrip(g: Field, b: seq<byte>, t: seq<byte>)
    requires |b| + BYTES_OFFSET <= g.dataSize <= PB_SIZE_MAX
    ensures ParseBytes(g, Delimited(b) + t) == Ok(Blob(b), t)
  {
    DelimitedTaken(b, t);
  }

  lemma StringRoundTrip(g: Field, b: seq<byte>, t: seq<byte>)
    requires |b| < g.dataSize <= PB_SIZE_MAX
    ensures ParseString(g, Delimited(b) + t) == Ok(Blob(b), t)
  {
    DelimitedTaken(b, t);
  }

  lemma FixedLengthRoundTrip(g: Field, b: seq<byte>, t: seq<byte>)
    requires |b| == g.dataSize <= PB_SIZE_MAX
    ensures ParseFixedLength(g, Delimited(b) + t) == Ok(Blob(b), t)
  {
    DelimitedTaken(b, t);
    if b == [] {
      assert b + t == t;
    }
  }

  /** So does every decoder of a byte-string type. */
  lemma BlobRoundTrip(g: Field, f: Field, v: Value, t: seq<byte>, prev: Value)
    requires f.ltype in {Bytes, String, FixedLengthBytes} && f.dataSize <= PB_SIZE_MAX
    requires g.ltype == f.ltype && g.dataSize == f.dataSize && ValidValue(f, v)
    ensures EncodeValue(f, v).Some?
    ensures ParseValue(g, EncodeValue(f, v).value + t, prev) == Ok(v, t)
  {
    match f.ltype
    case Bytes => BytesRoundTrip(g, v.b, t);
    case FixedLengthBytes => FixedLengthRoundTrip(g, v.b, t);
    case String =>
      StrLenWhole(v.b, f.dataSize);
      assert v.b[..|v.b|] == v.b;
      StringRoundTrip(g, v.b, t);
  }

  /** pb_skip_field consumes exactly the payload the encoder of any type writes. */
  lemma SkipPayload(f: Field, v: Value, t: seq<byte>)
    requires ValidValue(f, v) && f.dataSize <= PB_SIZE_MAX
    ensures EncodeValue(f, v).Some?
    ensures Skip(f.ltype.Wire(), EncodeValue(f, v).value + t) == Ok((), t)
  {
    match f.ltype
    case Varint => Varints.SkipInvertsEncode(Unsigned64(v.n), t);
    case UVarint => Varints.SkipInvertsEncode(v.n, t);
    case SVarint => Varints.SkipInvertsEncode(Varints.ZigZag(v.n), t);
    case Fixed32 =>
      var b := LittleEndian(v.n, 4);
      assert (b + t)[4..] == t;
    case Fixed64 =>
      var b := LittleEndian(v.n, 8);
      assert (b + t)[8..] == t;
    case Bytes | FixedLengthBytes => DelimitedTaken(v.b, t);
    case String => DelimitedTaken(v.b[..StrLen(v.b, f.dataSize)], t);
    case Submessage => DelimitedTaken(EncodeStruct(f.sub, v.m).value, t);
  }
}

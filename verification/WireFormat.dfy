/** What the encoder writes, read by the wire format alone. */
module WireFormat {
  import opened Words
  import opened Schema
  import opened WireEncoding
  import opened WireDecoding
  import opened WellFormedValues
  import opened RoundTrip
  import Varints

  // ----- The wire format, without any descriptor (Protocol Buffers Encoding, "Message Structure") -----

  datatype Payload = AsVarint(n: nat) | AsI64(n: nat) | AsLen(s: seq<byte>) | AsI32(n: nat)

  datatype Entry = Entry(number: nat, payload: Payload)

  /** Four bytes, the low one first. */
  function Number32(s: seq<byte>): (n: nat)
    requires |s| == 4
  {
    s[0] as int + 0x100 * s[1] as int + 0x1_0000 * s[2] as int + 0x100_0000 * s[3] as int
  }

  function Number64(s: seq<byte>): (n: nat)
    requires |s| == 8
  {
    Number32(s[..4]) + 0x1_0000_0000 * Number32(s[4..])
  }

  function ReadPayload(wire: nat, s: seq<byte>): (r: Parse<Payload>)
    ensures r.Ok? ==> |r.rest| < |s|
  {
    if wire == 0 then (match Varints.Decode(s) case Err => Err case Ok(n, rest) => Ok(AsVarint(n), rest))
    else if wire == 1 then if |s| < 8 then Err else Ok(AsI64(Number64(s[..8])), s[8..])
    else if wire == 2 then
      match Varints.Decode(s)
      case Err => Err
      case Ok(n, rest) => if n > |rest| then Err else Ok(AsLen(rest[..n]), rest[n..])
    else if wire == 5 then if |s| < 4 then Err else Ok(AsI32(Number32(s[..4])), s[4..])
    else Err
  }

  function ReadEntry(s: seq<byte>): (r: Parse<Entry>)
    ensures r.Ok? ==> |r.rest| < |s|
  {
    match Varints.Decode(s)
    case Err => Err
    case Ok(key, rest) =>
      match ReadPayload(key % 8, rest) case Err => Err case Ok(p, rest) => Ok(Entry(key / 8, p), rest)
  }

  /** A message: one entry after the other, up to the end. */
  function ReadEntries(s: seq<byte>): (r: Option<seq<Entry>>)
    decreases |s|
  {
    if s == [] then Some([])
    else
      match ReadEntry(s)
      case Err => None
      case Ok(e, rest) => match ReadEntries(rest) case None => None case Some(es) => Some([e] + es)
  }

  /** A packed array: one payload after the other. */
  function ReadPacked(wire: nat, s: seq<byte>): (r: Option<seq<Payload>>)
    decreases |s|
  {
    if s == [] then Some([])
    else
      match ReadPayload(wire, s)
      case Err => None
      case Ok(p, rest) => match ReadPacked(wire, rest) case None => None case Some(ps) => Some([p] + ps)
  }

  // ----- What a value means -----

  /** A number as a 64-bit word: a negative int32 is sign-extended to 64 bits, whatever the width of the field. */
  function Meaning(f: Field, v: Value): (p: Payload)
    requires ValidValue(f, v)
  {
    match f.ltype
    case Varint => AsVarint(if v.n < 0 then v.n + 0x1_0000_0000_0000_0000 else v.n)
    case UVarint => AsVarint(v.n)
    case SVarint => AsVarint(if v.n < 0 then -2 * v.n - 1 else 2 * v.n)
    case Fixed32 => AsI32(v.n)
    case Fixed64 => AsI64(v.n)
    case Submessage => AsLen(EncodeStruct(f.sub, v.m).value)
    case _ => AsLen(v.b)
  }

  function WireOf(p: Payload): (wire: nat) {
    match p case AsVarint(_) => 0 case AsI64(_) => 1 case AsLen(_) => 2 case AsI32(_) => 5
  }

  /** The values that a proto3 field does not send. */
  predicate IsZero(f: Field, v: Value)
    requires ValidValue(f, v)
  {
    match f.ltype
    case Submessage => EncodeStruct(f.sub, v.m) == Some([])
    case Bytes | String | FixedLengthBytes => v.b == []
    case _ => v.n == 0
  }

  function EachEntry(f: Field, items: seq<Value>): (es: seq<Entry>)
    requires forall v | v in items :: ValidValue(f, v)
  {
    if items == [] then [] else [Entry(f.tag, Meaning(f, items[0]))] + EachEntry(f, items[1..])
  }

  /** What a field sends: nothing for an absent or zero value, one entry for a value or a packed array, and one for
      each item of any other array. */
  function FieldEntries(f: Field, s: Slot): (es: seq<Entry>)
    requires ValidSlot(f, s)
  {
    match s
    case One(v) => if f.htype.Optional? && IsZero(f, v) then [] else [Entry(f.tag, Meaning(f, v))]
    case Opt(has, v) => if has then [Entry(f.tag, Meaning(f, v))] else []
    case Pick(which, v) => if which == f.tag then [Entry(f.tag, Meaning(f, v))] else []
    case Many(items) =>
      if items == [] then []
      else if f.ltype.Packable() then ItemsEncode(f, items); [Entry(f.tag, AsLen(EncodePacked(f, items).value))]
      else EachEntry(f, items)
  }

  /** What a struct sends: its fields in the order of the descriptor. */
  function Entries(d: seq<Field>, m: Struct): (es: seq<Entry>)
    requires EachValid(d, m)
  {
    if d == [] then [] else FieldEntries(d[0], m[d[0].member]) + Entries(d[1..], m)
  }

  // ----- Reading what was written -----

  /** The four low bytes of a number. */
  lemma FourDigits(n: nat)
    ensures n % 0x100 + 0x100 * (n / 0x100 % 0x100) + 0x1_0000 * (n / 0x100 / 0x100 % 0x100)
            + 0x100_0000 * (n / 0x100 / 0x100 / 0x100 % 0x100) == n % 0x1_0000_0000
    ensures n / 0x100 / 0x100 / 0x100 / 0x100 == n / 0x1_0000_0000
  {
  }

  lemma Number32Reads(n: nat)
    requires n < 0x1_0000_0000
    ensures Number32(LittleEndian(n, 4)) == n
  {
    FourBytes(n, 0);
    FourDigits(n);
  }

  lemma Number64Reads(n: nat)
    requires n < 0x1_0000_0000_0000_0000
    ensures Number64(LittleEndian(n, 8)) == n
  {
    var s, high := LittleEndian(n, 8), n / 0x1_0000_0000;
    FourBytes(n, 4);
    FourDigits(n);
    assert s[4..] == LittleEndian(high, 4);
    Number32Reads(high);
  }

  lemma BytesRead(b: seq<byte>, t: seq<byte>)
    requires |b| < TWO_64
    ensures ReadPayload(2, Delimited(b) + t) == Ok(AsLen(b), t)
  {
    assert Delimited(b) + t == Varints.Encode(|b|) + (b + t);
    Varints.DecodeInvertsEncode(|b|, b + t);
    assert (b + t)[..|b|] == b && (b + t)[|b|..] == t;
  }

  lemma NumberRead(f: Field, v: Value, t: seq<byte>)
    requires ValidValue(f, v) && f.ltype.Packable()
    ensures EncodeValue(f, v).Some? && f.ltype.Wire() == WireOf(Meaning(f, v))
    ensures ReadPayload(WireOf(Meaning(f, v)), EncodeValue(f, v).value + t) == Ok(Meaning(f, v), t)
  {
    match f.ltype
    case Varint => Varints.DecodeInvertsEncode(if v.n < 0 then v.n + TWO_64 else v.n, t);
    case UVarint => Varints.DecodeInvertsEncode(v.n, t);
    case SVarint => Varints.DecodeInvertsEncode(if v.n < 0 then -2 * v.n - 1 else 2 * v.n, t);
    case Fixed32 =>
      Number32Reads(v.n);
      FixedSplits(LittleEndian(v.n, 4), t);
    case Fixed64 =>
      Number64Reads(v.n);
      FixedSplits(LittleEndian(v.n, 8), t);
  }

  lemma FixedSplits(s: seq<byte>, t: seq<byte>)
    ensures (s + t)[..|s|] == s && (s + t)[|s|..] == t
  {
  }

  /** Every value is written with its meaning, under its wire type, whatever follows. */
  lemma ValueRead(f: Field, v: Value, t: seq<byte>)
    requires EntryOk(f) && ValidValue(f, v)
    ensures EncodeValue(f, v).Some? && f.ltype.Wire() == WireOf(Meaning(f, v))
    ensures ReadPayload(WireOf(Meaning(f, v)), EncodeValue(f, v).value + t) == Ok(Meaning(f, v), t)
  {
    match f.ltype
    case Bytes | FixedLengthBytes => BytesRead(v.b, t);
    case String =>
      StrLenWhole(v.b, f.dataSize);
      assert v.b[..|v.b|] == v.b;
      BytesRead(v.b, t);
    case Submessage => BytesRead(EncodeStruct(f.sub, v.m).value, t);
    case _ => NumberRead(f, v, t);
  }

  lemma KeySplits(tag: nat, wire: nat)
    requires wire < 8
    ensures (tag * 8 + wire) / 8 == tag && (tag * 8 + wire) % 8 == wire
  {
  }

  /** A tag is the field number and the wire type. */
  lemma TagRead(tag: nat, p: Payload, s: seq<byte>, t: seq<byte>)
    requires tag <= MAX_TAG && ReadPayload(WireOf(p), s + t) == Ok(p, t)
    ensures ReadEntry(Tag(tag, WireOf(p)) + s + t) == Ok(Entry(tag, p), t)
  {
    KeySplits(tag, WireOf(p));
    KeyRead(tag * 8 + WireOf(p), tag, p, s + t, t);
    Regroup(Tag(tag, WireOf(p)), s, t);
  }

  lemma KeyRead(key: nat, tag: nat, p: Payload, s: seq<byte>, t: seq<byte>)
    requires key < TWO_64 && key / 8 == tag && key % 8 == WireOf(p) && ReadPayload(WireOf(p), s) == Ok(p, t)
    ensures ReadEntry(Varints.Encode(key) + s) == Ok(Entry(tag, p), t)
  {
    Varints.DecodeInvertsEncode(key, s);
  }

  lemma OneMore(s: seq<byte>, e: Entry, t: seq<byte>, es: seq<Entry>)
    requires ReadEntry(s + t) == Ok(e, t) && ReadEntries(t) == Some(es)
    ensures ReadEntries(s + t) == Some([e] + es)
  {
  }

  lemma TaggedRead(f: Field, v: Value, t: seq<byte>, es: seq<Entry>)
    requires EntryOk(f) && ValidValue(f, v) && ReadEntries(t) == Some(es)
    ensures EncodeTagged(f, v).Some?
    ensures ReadEntries(EncodeTagged(f, v).value + t) == Some([Entry(f.tag, Meaning(f, v))] + es)
  {
    ValueRead(f, v, t);
    var p, s := Meaning(f, v), EncodeValue(f, v).value;
    TagRead(f.tag, p, s, t);
    OneMore(Tag(f.tag, WireOf(p)) + s, Entry(f.tag, p), t, es);
    assert EncodeTagged(f, v) == Some(Tag(f.tag, WireOf(p)) + s);
  }

  lemma Regroup<T>(a: seq<T>, b: seq<T>, c: seq<T>)
    ensures a + b + c == a + (b + c)
  {
  }

  lemma {:induction false} EachRead(f: Field, items: seq<Value>, t: seq<byte>, es: seq<Entry>)
    requires EntryOk(f) && (forall v | v in items :: ValidValue(f, v)) && ReadEntries(t) == Some(es)
    ensures EncodeEach(f, items).Some?
    ensures ReadEntries(EncodeEach(f, items).value + t) == Some(EachEntry(f, items) + es)
    decreases |items|
  {
    if items == [] {
      assert [] + t == t && [] + es == es;
    } else {
      var rest := items[1..];
      EachRead(f, rest, t, es);
      var e := Entry(f.tag, Meaning(f, items[0]));
      TaggedRead(f, items[0], EncodeEach(f, rest).value + t, EachEntry(f, rest) + es);
      Regroup(EncodeTagged(f, items[0]).value, EncodeEach(f, rest).value, t);
      Regroup([e], EachEntry(f, rest), es);
    }
  }

  function Meanings(f: Field, items: seq<Value>): (ps: seq<Payload>)
    requires forall v | v in items :: ValidValue(f, v)
    ensures |ps| == |items| && forall i | 0 <= i < |items| :: ps[i] == Meaning(f, items[i])
  {
    seq(|items|, i requires 0 <= i < |items| => assert items[i] in items; Meaning(f, items[i]))
  }

  /** A packed array is its items, one after the other. */
  lemma {:induction false} PackedRead(f: Field, items: seq<Value>)
    requires EntryOk(f) && f.ltype.Packable() && forall v | v in items :: ValidValue(f, v)
    ensures EncodePacked(f, items).Some?
    ensures ReadPacked(f.ltype.Wire(), EncodePacked(f, items).value) == Some(Meanings(f, items))
    decreases |items|
  {
    if items != [] {
      var rest := items[1..];
      PackedRead(f, rest);
      NumberRead(f, items[0], EncodePacked(f, rest).value);
      assert Meanings(f, items) == [Meaning(f, items[0])] + Meanings(f, rest);
    }
  }

  lemma ZeroIsDefault(f: Field, v: Value)
    requires EntryOk(f) && ValidValue(f, v)
    ensures IsDefaultValue(f, v) <==> IsZero(f, v)
  {
    if f.ltype.Submessage? {
      SubmessageDefaultIffEmpty(f, v);
    }
  }

  lemma FieldRead(f: Field, m: Struct, t: seq<byte>, es: seq<Entry>)
    requires EntryOk(f) && f.member in m && ValidSlot(f, m[f.member]) && ReadEntries(t) == Some(es)
    ensures EncodeField(f, m).Some?
    ensures ReadEntries(EncodeField(f, m).value + t) == Some(FieldEntries(f, m[f.member]) + es)
  {
    assert [] + t == t && [] + es == es;
    match m[f.member]
    case One(v) => ZeroIsDefault(f, v); TaggedRead(f, v, t, es);
    case Opt(has, v) => if has { TaggedRead(f, v, t, es); }
    case Pick(which, v) => if which == f.tag { TaggedRead(f, v, t, es); }
    case Many(items) =>
      if items != [] {
        if f.ltype.Packable() {
          ItemsEncode(f, items);
          var s := EncodePacked(f, items).value;
          BytesRead(s, t);
          TagRead(f.tag, AsLen(s), Delimited(s), t);
          OneMore(Tag(f.tag, 2) + Delimited(s), Entry(f.tag, AsLen(s)), t, es);
        } else {
          EachRead(f, items, t, es);
        }
      }
  }

  /** Read without any descriptor, an encoded message is exactly what its struct means, field by field. */
  lemma {:induction false} EncodingRead(d: seq<Field>, m: Struct)
    requires WellFormed(d) && EachValid(d, m)
    ensures EncodeStruct(d, m).Some?
    ensures ReadEntries(EncodeStruct(d, m).value) == Some(Entries(d, m))
    decreases |d|
  {
    if d != [] {
      Tail(d);
      assert d[0] in d;
      EncodingRead(d[1..], m);
      FieldRead(d[0], m, EncodeStruct(d[1..], m).value, Entries(d[1..], m));
    }
  }

  // ----- Integers of different widths -----

  /** The word that an integer field sends does not depend on the width of the field, ... */
  lemma SignedMeaning(f: Field, n: int, t: seq<byte>)
    requires f.ltype.Varint? && FitsSigned(n, f.dataSize)
    ensures EncodeValue(f, Num(n)).Some?
    ensures Varints.Decode(EncodeValue(f, Num(n)).value + t) == Ok(if n < 0 then n + 0x1_0000_0000_0000_0000 else n, t)
  {
    NumberRead(f, Num(n), t);
  }

  /** ... so that a 64-bit field of the same type reads the same number. */
  lemma Widens(f: Field, g: Field, v: Value, t: seq<byte>, prev: Value)
    requires f.ltype.Varint? || f.ltype.UVarint? || f.ltype.SVarint?
    requires g.ltype == f.ltype && g.dataSize == 8 && ValidValue(f, v)
    ensures EncodeValue(f, v).Some? && ParseValue(g, EncodeValue(f, v).value + t, prev) == Ok(v, t)
  {
    NumberRoundTrip(g, g, v, t, prev);
    assert EncodeValue(g, v) == EncodeValue(f, v);
  }

  // ----- What is refused -----

  /** What does not fit its array in the struct has no encoding. */
  lemma OversizeRefused(f: Field, b: seq<byte>, items: seq<Value>)
    ensures f.ltype.Bytes? ==> (EncodeValue(f, Blob(b)).Some? <==> |b| + 4 <= f.dataSize)
    ensures f.ltype.FixedLengthBytes? ==> (EncodeValue(f, Blob(b)).Some? <==> |b| == f.dataSize)
    ensures |items| > f.arraySize ==> EncodeArray(f, items) == None
  {
  }

  lemma {:induction false} StrLenExactly(s: seq<byte>, max: nat)
    ensures var n := StrLen(s, max); 0 !in s[..n] && (n == max || n == |s| || s[n] == 0)
    decreases max
  {
    if s != [] && max > 0 && s[0] != 0 {
      StrLenExactly(s[1..], max - 1);
      assert s[..StrLen(s, max)] == [s[0]] + s[1..][..StrLen(s[1..], max - 1)];
    }
  }

  /** Of a string that is not terminated the whole array is sent, and of any other what comes before the terminator. */
  lemma StringRead(f: Field, b: seq<byte>, t: seq<byte>) returns (n: nat)
    requires f.ltype.String? && f.dataSize <= PB_SIZE_MAX
    ensures n <= |b| && n <= f.dataSize && 0 !in b[..n] && (n == f.dataSize || n == |b| || b[n] == 0)
    ensures EncodeValue(f, Blob(b)).Some?
    ensures ReadPayload(2, EncodeValue(f, Blob(b)).value + t) == Ok(AsLen(b[..n]), t)
  {
    n := StrLen(b, f.dataSize);
    StrLenExactly(b, f.dataSize);
    BytesRead(b[..n], t);
  }

  // ----- Examples -----

  lemma SmallVarints()
    ensures Varints.Encode(3) == [0x03] && Varints.Encode(150) == [0x96, 0x01] && Varints.Encode(270) == [0x8E, 0x02]
    ensures Varints.Encode(86942) == [0x9E, 0xA7, 0x05]
  {
    assert Varints.Encode(86942) == [0x9E] + Varints.Encode(679) && Varints.Encode(679) == [0xA7] + Varints.Encode(5);
  }

  /** Bytes that the encoding's documentation gives: 150 in field 1, and the packed array 3, 270, 86942 in field 4. */
  lemma KnownBytes(f: Field, g: Field)
    requires f.tag == 1 && f.ltype.Varint? && f.dataSize == 4
    requires g.tag == 4 && g.ltype.Varint? && g.dataSize == 4 && g.arraySize >= 3
    ensures EncodeTagged(f, Num(150)) == Some([0x08, 0x96, 0x01])
    ensures EncodeArray(g, [Num(3), Num(270), Num(86942)]) == Some([0x22, 0x06, 0x03, 0x8E, 0x02, 0x9E, 0xA7, 0x05])
  {
    SmallVarints();
    assert EncodeValue(f, Num(150)) == Some([0x96, 0x01]) && Tag(1, f.ltype.Wire()) == [0x08];
    assert [0x08] + [0x96, 0x01] == [0x08, 0x96, 0x01];
    var items := [Num(3), Num(270), Num(86942)];
    assert items[1..] == [Num(270), Num(86942)] && [Num(270), Num(86942)][1..] == [Num(86942)];
    assert [0x9E, 0xA7, 0x05] + [] == [0x9E, 0xA7, 0x05];
    assert [0x8E, 0x02] + [0x9E, 0xA7, 0x05] == [0x8E, 0x02, 0x9E, 0xA7, 0x05];
    PackedOne(g, [Num(86942)], [0x9E, 0xA7, 0x05], []);
    PackedOne(g, [Num(270), Num(86942)], [0x8E, 0x02], [0x9E, 0xA7, 0x05]);
    PackedOne(g, items, [0x03], [0x8E, 0x02, 0x9E, 0xA7, 0x05]);
    var s: seq<byte> := [0x03, 0x8E, 0x02, 0x9E, 0xA7, 0x05];
    assert [0x03] + [0x8E, 0x02, 0x9E, 0xA7, 0x05] == s;
    assert Tag(4, WT_STRING) == [0x22] && Delimited(s) == [0x06] + s;
    assert [0x22] + ([0x06] + s) == [0x22, 0x06, 0x03, 0x8E, 0x02, 0x9E, 0xA7, 0x05];
  }

  lemma PackedOne(g: Field, items: seq<Value>, s: seq<byte>, rest: seq<byte>)
    requires items != [] && EncodeValue(g, items[0]) == Some(s) && EncodePacked(g, items[1..]) == Some(rest)
    ensures EncodePacked(g, items) == Some(s + rest)
  {
  }
}

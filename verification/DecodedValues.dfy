/** What a successful decode can come to, for any input. */
module DecodedValues {
  import opened Words
  import opened Schema
  import opened WireEncoding
  import opened WireDecoding
  import opened Compatibility
  import opened FieldIterator
  import opened Merging
  import RoundTrip
  import Varints

  // ----- Numbers -----

  lemma HalfIsPower(size: nat)
    requires size in {1, 2, 4, 8}
    ensures Half(size) == Pow2(8 * size - 1)
  {
    assert Pow2(7) == 0x80;
    assert Pow2(15) == 0x8000;
    Pow2Word();
    Pow2Of64();
  }

  /** The number that a field of signed integers reads from a 64-bit word: the low word as an int32, but the whole word
      in a 64-bit field. */
  predicate ReadAs(f: Field, u: nat, n: int) {
    if f.dataSize == 8 then (n == u || n == u - 0x1_0000_0000_0000_0000) && -TWO_63 <= n < TWO_63
    else (n - u) % 0x1_0000_0000 == 0 && -0x8000_0000 <= n < 0x8000_0000
  }

  /** It is stored if the field's width holds it, and refused otherwise. */
  lemma SignedDecodes(f: Field, s: seq<byte>, prev: Value, n: int)
    requires f.ltype.Varint? && f.IntegerSize() && Varints.Decode(s).Ok? && ReadAs(f, Varints.Decode(s).value, n)
    ensures ParseValue(f, s, prev) == if FitsSigned(n, f.dataSize) then Ok(Num(n), Varints.Decode(s).rest) else Err
  {
    var u := Varints.Decode(s).value;
    WideIs(u, if f.dataSize == 8 then 8 else 4, n);
    CastKeepsExactly(n, f.dataSize);
  }

  lemma WideIs(u: nat, size: nat, n: int)
    requires u < TWO_64 && (size == 4 || size == 8)
    requires if size == 8 then (n == u || n == u - 0x1_0000_0000_0000_0000) && -TWO_63 <= n < TWO_63
             else (n - u) % 0x1_0000_0000 == 0 && -0x8000_0000 <= n < 0x8000_0000
    ensures Signed(u, size) == n
  {
  }

  /** A cast to the field's width keeps exactly the numbers of that width. */
  lemma CastKeepsExactly(n: int, size: nat)
    requires -TWO_63 <= n < TWO_63 && size in {1, 2, 4, 8}
    ensures Signed(Unsigned64(n), size) == n <==> FitsSigned(n, size)
  {
    if FitsSigned(n, size) {
      RoundTrip.SignedKeeps(n, size);
    }
  }

  lemma UnsignedDecodes(f: Field, s: seq<byte>, prev: Value)
    requires f.ltype.UVarint? && f.IntegerSize() && Varints.Decode(s).Ok?
    ensures var u := Varints.Decode(s).value;
            ParseValue(f, s, prev) == if FitsUnsigned(u, f.dataSize) then Ok(Num(u), Varints.Decode(s).rest) else Err
  {
  }

  lemma ZigZagDecodes(f: Field, s: seq<byte>, prev: Value, n: int)
    requires f.ltype.SVarint? && f.IntegerSize() && Varints.Decode(s).Ok? && -TWO_63 <= n < TWO_63
    requires Varints.Decode(s).value == if n < 0 then -2 * n - 1 else 2 * n
    ensures ParseValue(f, s, prev) == if FitsSigned(n, f.dataSize) then Ok(Num(n), Varints.Decode(s).rest) else Err
  {
    CastKeepsExactly(n, f.dataSize);
  }

  // ----- Byte strings -----

  /** What a byte string may be: it fits its array, with the length field of a bytes array or the terminator of a
      string. */
  predicate BytesFit(f: Field, b: seq<byte>) {
    match f.ltype
    case Bytes => |b| + 4 <= f.dataSize
    case String => |b| + 1 <= f.dataSize
    case _ => |b| == f.dataSize
  }

  lemma TakesDelimited(s: seq<byte>)
    ensures match Varints.Decode32(s)
            case Err => TakeDelimited(s) == Err
            case Ok(n, rest) =>
              TakeDelimited(s) == Take(rest, n) && (TakeDelimited(s).Ok? ==> |TakeDelimited(s).value| == n)
  {
  }

  /** A byte string is decoded exactly when it is all there and fits. An empty one of fixed length stands for zeros. */
  lemma BlobsDecode(f: Field, s: seq<byte>, prev: Value)
    requires f.ltype.Bytes? || f.ltype.String? || f.ltype.FixedLengthBytes?
    requires f.dataSize <= PB_SIZE_MAX
    ensures var d := TakeDelimited(s);
            ParseValue(f, s, prev) ==
              if d.Err? then Err
              else if f.ltype.FixedLengthBytes? && d.value == [] then Ok(Blob(Zeros(f.dataSize)), d.rest)
              else if BytesFit(f, d.value) then Ok(Blob(d.value), d.rest) else Err
  {
    TakesDelimited(s);
    match f.ltype
    case Bytes => assert ParseValue(f, s, prev) == ParseBytes(f, s);
    case String => assert ParseValue(f, s, prev) == ParseString(f, s);
    case FixedLengthBytes => assert ParseValue(f, s, prev) == ParseFixedLength(f, s);
  }

  // ----- Everything decoded fits -----

  /** The value is one that the field's C type can hold, at every depth. */
  ghost predicate Holdable(f: Field, v: Value)
    decreases f, 0
  {
    match f.ltype
    case Varint | SVarint => v.Num? && FitsSigned(v.n, f.dataSize)
    case UVarint => v.Num? && FitsUnsigned(v.n, f.dataSize)
    case Fixed32 => v.Num? && 0 <= v.n < TWO_32
    case Fixed64 => v.Num? && 0 <= v.n < TWO_64
    case Submessage => v.Msg? && StructHoldable(f.sub, v.m)
    case _ => v.Blob? && BytesFit(f, v.b)
  }

  /** A member that was not decoded is still at its default. */
  ghost predicate SlotHoldable(f: Field, s: Slot)
    decreases f, 1
  {
    match f.htype
    case Required => s.One? && (Holdable(f, s.v) || s.v == DefaultValue(f))
    case Optional =>
      if f.HasFlag() then s.Opt? && (Holdable(f, s.v) || (!s.has && s.v == DefaultValue(f)))
      else s.One? && (Holdable(f, s.v) || s.v == DefaultValue(f))
    case Repeated => s.Many? && |s.items| <= f.arraySize && forall v | v in s.items :: Holdable(f, v)
    case Oneof => s.Pick? && (s.which == f.tag ==> Holdable(f, s.v))
  }

  ghost predicate StructHoldable(d: seq<Field>, m: Struct)
    decreases d, 2
  {
    forall f | f in d :: f.member in m && SlotHoldable(f, m[f.member])
  }

  lemma {:induction false} DefaultHoldable(d: seq<Field>)
    requires Descriptor(d)
    ensures StructHoldable(d, Default(d))
  {
    forall f | f in d
      ensures f.member in Default(d) && SlotHoldable(f, Default(d)[f.member])
    {
      DefaultAt(d, map[], f);
    }
  }

  /** A value that a decoder may start from. */
  ghost predicate Startable(f: Field, v: Value) {
    f.ltype.Submessage? ==> Holdable(f, v) || v == DefaultValue(f)
  }

  lemma DefaultSubmessage(f: Field)
    requires f.ltype.Submessage? && Descriptor(f.sub)
    ensures Holdable(f, DefaultValue(f))
  {
    DefaultHoldable(f.sub);
  }

  lemma NumberFits(f: Field, s: seq<byte>, prev: Value)
    requires f.ltype.Packable() && ParseValue(f, s, prev).Ok?
    ensures Holdable(f, ParseValue(f, s, prev).value)
  {
    match f.ltype
    case Fixed32 => LittleEndianBound(s[..4]);
    case Fixed64 => LittleEndianBound(s[..8]);
    case _ =>
  }

  lemma {:induction false} ValueFits(f: Field, s: seq<byte>, prev: Value)
    requires EntryOk(f) && (f.htype.Repeated? || Startable(f, prev)) && ParseValue(f, s, prev).Ok?
    ensures Holdable(f, ParseValue(f, s, prev).value)
    decreases |s|, 0
  {
    if f.ltype.Packable() {
      NumberFits(f, s, prev);
    } else if f.ltype.Submessage? {
      WellFormedIsDescriptor(f.sub);
      DefaultSubmessage(f);
      var start := if f.htype.Repeated? then DefaultValue(f) else prev;
      MessageFits(f.sub, TakeDelimited(s).value, start.m);
    } else {
      BlobsDecode(f, s, prev);
    }
  }

  lemma {:induction false} PackedFits(f: Field, s: seq<byte>, items: seq<Value>)
    requires f.ltype.Packable() && ParsePacked(f, s, items).Some?
    requires |items| <= f.arraySize && forall v | v in items :: Holdable(f, v)
    ensures var r := ParsePacked(f, s, items).value; |r| <= f.arraySize && forall v | v in r :: Holdable(f, v)
    decreases |s|
  {
    if s != [] {
      NumberFits(f, s, Vacant);
      var p := ParseValue(f, s, Vacant);
      PackedFits(f, p.rest, items + [p.value]);
    }
  }

  lemma {:induction false} SlotFits(f: Field, wire: nat, s: seq<byte>, slot: Slot)
    requires EntryOk(f) && SlotHoldable(f, slot) && ParseSlot(f, wire, s, slot).Ok?
    ensures SlotHoldable(f, ParseSlot(f, wire, s, slot).value)
    decreases |s|, 1
  {
    match (f.htype, slot)
    case (Required, One(prev)) => ValueFits(f, s, prev);
    case (Optional, One(prev)) => ValueFits(f, s, prev);
    case (Optional, Opt(_, prev)) => ValueFits(f, s, prev);
    case (Repeated, Many(items)) =>
      if wire == WT_STRING && f.ltype.Packable() {
        PackedFits(f, TakeDelimited(s).value, items);
      } else {
        ValueFits(f, s, Vacant);
      }
    case (Oneof, Pick(_, _)) => ValueFits(f, s, DefaultValue(f));
    case _ =>
  }

  lemma {:induction false} MemberFits(d: seq<Field>, i: nat, wire: nat, s: seq<byte>, m: Struct)
    requires WellFormed(d) && i < |d| && StructHoldable(d, m) && ParseMember(d[i], wire, s, m).Ok?
    ensures StructHoldable(d, ParseMember(d[i], wire, s, m).value)
    decreases |s|, 2
  {
    var f, r := d[i], ParseMember(d[i], wire, s, m).value;
    assert EntryOk(f);
    SlotFits(f, wire, s, m[f.member]);
    forall j | 0 <= j < |d|
      ensures d[j].member in r && SlotHoldable(d[j], r[d[j].member])
    {
      assert d[j] in d;
      if d[j].member == f.member {
        OthersHold(d, i, j, r[f.member]);
      }
    }
  }

  /** The union that one field was decoded into holds nothing of another's. */
  lemma OthersHold(d: seq<Field>, i: nat, j: nat, s: Slot)
    requires Distinct(d) && i < |d| && j < |d| && d[j].member == d[i].member && SlotHoldable(d[i], s)
    requires d[i].htype.Oneof? ==> s.which == d[i].tag
    ensures SlotHoldable(d[j], s)
  {
    if i < j {
      assert Apart(d[i], d[j]);
    } else if j < i {
      assert Apart(d[j], d[i]);
    }
  }

  lemma {:induction false} LoopFits(d: seq<Field>, s: seq<byte>, m: Struct, seen: set<nat>)
    requires WellFormed(d) && StructHoldable(d, m) && DecodeLoop(d, s, m, seen).Ok?
    ensures StructHoldable(d, DecodeLoop(d, s, m, seen).value.m)
    decreases |s|, 3
  {
    if s != [] {
      match ParseTag(s)
      case ZeroTag(_) =>
      case Tagged(tag, wire, rest) =>
        match Find(d, tag)
        case None => LoopFits(d, Skip(wire, rest).rest, m, seen);
        case Some(i) =>
          MemberFits(d, i, wire, rest, m);
          var r := ParseMember(d[i], wire, rest, m);
          LoopFits(d, r.rest, r.value, MarkSeen(d, i, seen));
    }
  }

  lemma {:induction false} MessageFits(d: seq<Field>, s: seq<byte>, m: Struct)
    requires WellFormed(d) && StructHoldable(d, m) && DecodeNoInit(d, s, m).Ok?
    ensures StructHoldable(d, DecodeNoInit(d, s, m).value)
    decreases |s|, 4
  {
    LoopFits(d, s, m, {});
  }

  /** Whatever the input: if it is accepted, every value fits its field, at every depth. No string or bytes are longer
      than their array, no number is beyond its type, and no array is fuller than its size. */
  lemma DecodedFits(d: seq<Field>, s: seq<byte>)
    requires WellFormed(d) && Decode(d, s).Ok?
    ensures StructHoldable(d, Decode(d, s).value)
  {
    WellFormedIsDescriptor(d);
    DefaultHoldable(d);
    MessageFits(d, s, Default(d));
  }

  // ----- Required fields -----

  /** The tags of the records of s, up to a zero tag, as a walk without decoding finds them. */
  function TagsOf(d: seq<Field>, s: seq<byte>): (tags: set<nat>)
    decreases |s|
  {
    if s == [] || !ParseTag(s).Tagged? then {}
    else
      var Tagged(tag, wire, rest) := ParseTag(s);
      var i := Find(d, tag);
      match Skip(if i.Some? then PayloadWire(d[i.value], wire) else wire, rest)
      case Err => {}
      case Ok(_, rest) => {tag} + TagsOf(d, rest)
  }

  /** Entry i is a required field that the decoder keeps track of: one of the first 64 of them. */
  predicate Tracked(d: seq<Field>, i: nat)
    requires i < |d|
  {
    d[i].htype.Required? && RequiredBefore(d, i) < 64
  }

  /** The tracked fields that are marked are those that were before, and those with a record. */
  lemma {:induction false} MarkedExactly(d: seq<Field>, s: seq<byte>, m: Struct, seen: set<nat>, i: nat)
    requires Distinct(d) && i < |d| && Tracked(d, i) && DecodeLoop(d, s, m, seen).Ok?
    ensures RequiredBefore(d, i) in DecodeLoop(d, s, m, seen).value.seen <==>
      RequiredBefore(d, i) in seen || d[i].tag in TagsOf(d, s)
    decreases |s|
  {
    if s != [] {
      match ParseTag(s)
      case ZeroTag(_) =>
      case Tagged(tag, wire, rest) =>
        match Find(d, tag)
        case None => MarkedExactly(d, Skip(wire, rest).rest, m, seen, i);
        case Some(j) =>
          MemberReadsPayload(d[j], wire, rest, m);
          var r := ParseMember(d[j], wire, rest, m);
          MarksItsOwn(d, i, j, seen);
          MarkedExactly(d, r.rest, r.value, MarkSeen(d, j, seen), i);
    }
  }

  lemma MarksItsOwn(d: seq<Field>, i: nat, j: nat, seen: set<nat>)
    requires Distinct(d) && i < |d| && j < |d| && Tracked(d, i)
    ensures RequiredBefore(d, i) in MarkSeen(d, j, seen) <==> RequiredBefore(d, i) in seen || d[i].tag == d[j].tag
  {
    if i < j {
      assert Apart(d[i], d[j]);
      RequiredGrows(d, i, j);
    } else if j < i {
      assert Apart(d[j], d[i]);
      RequiredGrows(d, j, i);
    }
  }

  /** Input that is otherwise in order is refused exactly when a tracked required field has no record. */
  lemma RequiredExactly(d: seq<Field>, s: seq<byte>, m: Struct)
    requires Distinct(d) && DecodeLoop(d, s, m, {}).Ok?
    ensures DecodeNoInit(d, s, m).Ok? <==> forall i | 0 <= i < |d| && Tracked(d, i) :: d[i].tag in TagsOf(d, s)
  {
    var seen := DecodeLoop(d, s, m, {}).value.seen;
    forall i | 0 <= i < |d| && Tracked(d, i)
      ensures RequiredBefore(d, i) in seen <==> d[i].tag in TagsOf(d, s)
    {
      MarkedExactly(d, s, m, {}, i);
    }
    if RequiredSeen(d, seen) {
      forall i | 0 <= i < |d| && Tracked(d, i)
        ensures d[i].tag in TagsOf(d, s)
      {
        RequiredGrows(d, i, |d|);
      }
    } else {
      var k :| 0 <= k < RequiredBefore(d, |d|) && k < PB_MAX_REQUIRED_FIELDS && k !in seen;
      var i := RequiredAt(d, |d|, k);
      assert Tracked(d, i);
    }
  }

  /** An unknown field with a wire type that the format does not have is refused. */
  lemma UnknownWireRefused(d: seq<Field>, s: seq<byte>, m: Struct, seen: set<nat>)
    requires s != [] && ParseTag(s).Tagged? && Find(d, ParseTag(s).tag).None? && ParseTag(s).wire !in {0, 1, 2, 5}
    ensures DecodeLoop(d, s, m, seen) == Err
  {
  }

  /** Outside of packed arrays the wire type of a known field does not matter: its payload is read by its own type. */
  lemma WireIgnored(f: Field, wire: nat, other: nat, s: seq<byte>, m: Struct)
    requires f.htype.Repeated? && f.ltype.Packable() ==> wire != 2 && other != 2
    ensures ParseMember(f, wire, s, m) == ParseMember(f, other, s, m)
  {
  }

  // ----- Tags -----

  /** A tag is a varint of 32 bits. Only the number zero, and not field number zero, ends the message. */
  lemma TagsExactly(s: seq<byte>)
    ensures match Varints.Decode32(s)
            case Err => ParseTag(s) == BadTag
            case Ok(key, rest) =>
              && (ParseTag(s).ZeroTag? <==> key == 0) && (ParseTag(s).Tagged? <==> key != 0)
              && ParseTag(s).rest == rest
              && (key != 0 ==> ParseTag(s).tag * 8 + ParseTag(s).wire == key && ParseTag(s).wire < 8)
  {
  }

  /** Field number zero with another wire type is an unknown field, except in a message type without fields, where it
      is an error. */
  lemma FieldZeroSkipped(d: seq<Field>, s: seq<byte>, m: Struct, seen: set<nat>)
    requires PositiveTags(d) && s != [] && ParseTag(s).Tagged? && ParseTag(s).tag == 0
    ensures DecodeLoop(d, s, m, seen) ==
      if d == [] || Skip(ParseTag(s).wire, ParseTag(s).rest).Err? then Err
      else DecodeLoop(d, Skip(ParseTag(s).wire, ParseTag(s).rest).rest, m, seen)
  {
  }
}

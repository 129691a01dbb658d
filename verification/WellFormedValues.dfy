/** Well-formed struct contents, and which of them encode to nothing. */
module WellFormedValues {
  import opened Words
  import opened Schema
  import opened WireEncoding

  // ----- Well-formed values -----

  /** A value its C type can hold: numbers in range, strings terminated inside their array, bytes
      within theirs, and submessage bodies whose length fits the 32-bit length prefix. */
  ghost predicate ValidValue(f: Field, v: Value)
    decreases f, 0
  {
    match f.ltype
    case Varint | SVarint => v.Num? && FitsSigned(v.n, f.dataSize)
    case UVarint => v.Num? && FitsUnsigned(v.n, f.dataSize)
    case Fixed32 => v.Num? && 0 <= v.n < TWO_32
    case Fixed64 => v.Num? && 0 <= v.n < TWO_64
    case Bytes => v.Blob? && |v.b| + BYTES_OFFSET <= f.dataSize
    case String => v.Blob? && |v.b| < f.dataSize && 0 !in v.b
    case FixedLengthBytes => v.Blob? && |v.b| == f.dataSize
    case Submessage =>
      && v.Msg? && Valid(f.sub, v.m)
      && EncodeStruct(f.sub, v.m).Some? && |EncodeStruct(f.sub, v.m).value| < TWO_32
  }

  /** Counts within array_size; the content of an absent optional field is not constrained. */
  ghost predicate ValidSlot(f: Field, s: Slot)
    decreases f, 1
  {
    match f.htype
    case Required => s.One? && ValidValue(f, s.v)
    case Optional =>
      if f.HasFlag() then s.Opt? && (s.has ==> ValidValue(f, s.v)) else s.One? && ValidValue(f, s.v)
    case Repeated =>
      && s.Many? && |s.items| <= f.arraySize && (forall v | v in s.items :: ValidValue(f, v))
      && (f.ltype.Packable() ==> PackedSize(f, s.items) < TWO_32)
    case Oneof => s.Pick? && (s.which == f.tag ==> ValidValue(f, s.v))
  }

  function PackedSize(f: Field, items: seq<Value>): (n: nat) {
    match EncodePacked(f, items) case None => 0 case Some(s) => |s|
  }

  /** which_ is zero or the tag of one of the union's members. */
  ghost predicate WhichOk(d: seq<Field>, m: Struct) {
    forall f | f in d && f.htype.Oneof? && f.member in m && m[f.member].Pick? ::
      var w := m[f.member].which;
      w == 0 || exists g :: g in d && g.member == f.member && g.tag == w
  }

  ghost predicate Valid(d: seq<Field>, m: Struct)
    decreases d, 2
  {
    && Members(d) <= m.Keys
    && WhichOk(d, m)
    && EachValid(d, m)
  }

  ghost predicate EachValid(d: seq<Field>, m: Struct)
    decreases d, 1
  {
    forall f | f in d :: f.member in m && ValidSlot(f, m[f.member])
  }

  // ----- Well-formed values encode -----

  lemma {:induction false} ValidValueEncodes(f: Field, v: Value)
    requires ValidValue(f, v)
    ensures EncodeValue(f, v).Some?
  {
  }

  lemma {:induction false} ItemsEncode(f: Field, items: seq<Value>)
    requires forall v | v in items :: ValidValue(f, v)
    ensures EncodePacked(f, items).Some? && EncodeEach(f, items).Some?
  {
    if items != [] {
      ValidValueEncodes(f, items[0]);
      ItemsEncode(f, items[1..]);
    }
  }

  lemma {:induction false} ValidFieldEncodes(f: Field, m: Struct)
    requires f.member in m && ValidSlot(f, m[f.member])
    ensures EncodeField(f, m).Some?
  {
    match m[f.member]
    case One(v) => ValidValueEncodes(f, v);
    case Opt(has, v) => if has { ValidValueEncodes(f, v); }
    case Many(items) => ItemsEncode(f, items);
    case Pick(which, v) => if which == f.tag { ValidValueEncodes(f, v); }
  }

  /** The encoder reports no error on a well-formed value. */
  lemma {:induction false} ValidEncodes(d: seq<Field>, m: Struct)
    requires EachValid(d, m)
    ensures EncodeStruct(d, m).Some?
    decreases d
  {
    if d != [] {
      ValidFieldEncodes(d[0], m);
      ValidEncodes(d[1..], m);
    }
  }

  // ----- Default exactly when empty -----

  lemma EmptyConcat(a: Option<seq<byte>>, b: Option<seq<byte>>)
    ensures Concat(a, b) == Some([]) <==> a == Some([]) && b == Some([])
  {
    if a.Some? && b.Some? {
      assert |a.value + b.value| == |a.value| + |b.value|;
    }
  }

  lemma {:induction false} EmptyStruct(d: seq<Field>, m: Struct)
    ensures EncodeStruct(d, m) == Some([]) <==> forall f | f in d :: EncodeField(f, m) == Some([])
    decreases d
  {
    if d != [] {
      EmptyStruct(d[1..], m);
      EmptyConcat(EncodeField(d[0], m), EncodeStruct(d[1..], m));
      assert d[0] in d && forall f :: f in d <==> f == d[0] || f in d[1..];
    }
  }

  lemma {:induction false} AllDefaultEach(d: seq<Field>, m: Struct)
    ensures AllDefault(d, m) <==> forall f | f in d :: IsDefault(f, m)
    decreases d
  {
    if d != [] {
      AllDefaultEach(d[1..], m);
      assert d[0] in d && forall f :: f in d <==> f == d[0] || f in d[1..];
    }
  }

  /** A field other than a union member writes nothing exactly when it is judged default. */
  lemma {:induction false} FieldDefaultIffEmpty(f: Field, m: Struct)
    requires EntryOk(f) && f.member in m && ValidSlot(f, m[f.member]) && !f.htype.Oneof?
    ensures IsDefault(f, m) <==> EncodeField(f, m) == Some([])
  {
    ValidFieldEncodes(f, m);
    match m[f.member]
    case One(v) => ValidValueEncodes(f, v);
    case Opt(has, v) =>
    case Many(items) => ArrayNotEmpty(f, items);
    case Pick(_, _) =>
  }

  lemma ArrayNotEmpty(f: Field, items: seq<Value>)
    requires EncodeArray(f, items).Some?
    ensures EncodeArray(f, items) == Some([]) <==> items == []
  {
  }

  /** pb_check_proto3_default_value holds of every field of a struct exactly when the struct's own
      encoding is zero bytes. */
  lemma AllDefaultIffEmpty(d: seq<Field>, m: Struct)
    requires WellFormed(d) && Valid(d, m)
    ensures AllDefault(d, m) <==> EncodeStruct(d, m) == Some([])
  {
    EmptyStruct(d, m);
    AllDefaultEach(d, m);
    forall f | f in d && !f.htype.Oneof?
      ensures IsDefault(f, m) <==> EncodeField(f, m) == Some([])
    {
      FieldDefaultIffEmpty(f, m);
    }
    forall f | f in d && f.htype.Oneof? && IsDefault(f, m)
      ensures EncodeField(f, m) == Some([])
    {
      assert EntryOk(f);
    }
    if EncodeStruct(d, m) == Some([]) {
      forall f | f in d && f.htype.Oneof?
        ensures IsDefault(f, m)
      {
        UnionDefault(d, m, f);
      }
    }
  }

  lemma UnionDefault(d: seq<Field>, m: Struct, f: Field)
    requires WellFormed(d) && Valid(d, m) && f in d && f.htype.Oneof?
    requires forall g | g in d :: EncodeField(g, m) == Some([])
    ensures IsDefault(f, m)
  {
    assert ValidSlot(f, m[f.member]);
    var w := m[f.member].which;
    if w != 0 {
      var g :| g in d && g.member == f.member && g.tag == w;
      SharedMember(d, f, g);
    }
  }

  lemma SharedMember(d: seq<Field>, f: Field, g: Field)
    requires Distinct(d) && f in d && g in d && f.member == g.member && f.htype.Oneof?
    ensures g.htype.Oneof?
  {
    var i :| 0 <= i < |d| && d[i] == f;
    var j :| 0 <= j < |d| && d[j] == g;
    if i < j {
      assert Apart(d[i], d[j]);
    } else if j < i {
      assert Apart(d[j], d[i]);
    }
  }

  /** A proto3 singular submessage is judged default exactly when its own encoding is zero bytes. */
  lemma SubmessageDefaultIffEmpty(f: Field, v: Value)
    requires EntryOk(f) && f.ltype.Submessage? && ValidValue(f, v)
    ensures IsDefaultValue(f, v) <==> EncodeStruct(f.sub, v.m) == Some([])
  {
    AllDefaultIffEmpty(f.sub, v.m);
  }
}

/** pb_encode: the descriptor-driven encoder, step by step on an output stream. */
module Encoder {
  import opened Words
  import opened Schema
  import opened WireEncoding
  import opened FieldIterator
  import opened OutputStream
  import opened RoundTrip
  import opened WellFormedValues
  import Varints

  // ----- Varints, tags and fixed-width integers -----

  /** The groups of v, each with its continuation bit. */
  function Continued(v: nat): (s: seq<byte>)
    ensures v > 0 ==> |s| > 0
    decreases v
  {
    if v == 0 then [] else [v % 128 + 128] + Continued(v / 128)
  }

  /** Clearing the last continuation bit gives the varint. */
  lemma {:induction false} ClearLast(v: nat)
    requires v > 0
    ensures var s := Continued(v);
            s[|s| - 1] >= 128 && Varints.Encode(v) == s[|s| - 1 := s[|s| - 1] % 128]
  {
    if v >= 128 {
      ClearLast(v / 128);
    } else {
      assert Continued(v / 128) == [];
    }
  }

  /** The buffer-filling loop of pb_encode_varint. */
  method FillGroups(value: nat) returns (data: seq<byte>)
    requires 0x7F < value < TWO_64
    ensures data == Varints.Encode(value)
  {
    GroupCount(value);
    var buffer := new byte[10](_ => 0);
    var i := WriteGroups(value, buffer);
    var last := buffer[i - 1] % 128;
    ghost var groups := buffer[..i];
    buffer[i - 1] := last;
    assert buffer[..i] == groups[i - 1 := last];
    return buffer[..i];
  }

  method WriteGroups(value: nat, buffer: array<byte>) returns (i: nat)
    requires |Continued(value)| <= buffer.Length
    modifies buffer
    ensures i == |Continued(value)| && buffer[..i] == Continued(value)
  {
    ghost var s := Continued(value);
    var rest := value;
    i := 0;
    while rest > 0
      invariant i <= |s| && Continued(rest) == s[i..] && buffer[..i] == s[..i]
      decreases rest
    {
      GroupAt(s, i, rest);
      buffer[i] := rest % 128 + 128;
      rest := rest / 128;
      i := i + 1;
    }
  }

  lemma GroupAt(s: seq<byte>, i: nat, rest: nat)
    requires rest > 0 && i <= |s| && Continued(rest) == s[i..]
    ensures i < |s| && s[i] == rest % 128 + 128 && Continued(rest / 128) == s[i + 1..] && rest / 128 < rest
  {
    assert s[i..][0] == s[i] && s[i..][1..] == s[i + 1..];
  }

  lemma GroupCount(value: nat)
    requires 0x7F < value < TWO_64
    ensures var s := Continued(value); 0 < |s| <= 10 && Varints.Encode(value) == s[|s| - 1 := s[|s| - 1] % 128]
  {
    ClearLast(value);
    Varints.DecodeInvertsEncode(value, []);
  }

  method EncodeVarint(stream: OStream, value: nat) returns (ok: bool)
    requires stream.Valid() && value < TWO_64
    modifies stream, stream.buf
    ensures stream.Emitted(Some(Varints.Encode(value)), ok)
  {
    if value <= 0x7F {
      ok := stream.Write([value]);
    } else {
      var data := FillGroups(value);
      ok := stream.Write(data);
    }
  }

  method EncodeTag(stream: OStream, wire: nat, tag: nat) returns (ok: bool)
    requires stream.Valid() && tag < TWO_32 && wire < 8
    modifies stream, stream.buf
    ensures stream.Emitted(Some(Tag(tag, wire)), ok)
  {
    ok := EncodeVarint(stream, tag * 8 + wire);
  }

  method EncodeFixed32(stream: OStream, val: nat) returns (ok: bool)
    requires stream.Valid() && val < TWO_32
    modifies stream, stream.buf
    ensures stream.Emitted(Some(LittleEndian(val, 4)), ok)
  {
    var b := new byte[4](_ => 0);
    b[0], b[1], b[2], b[3] := val % 256, val / 256 % 256, val / 256 / 256 % 256, val / 256 / 256 / 256 % 256;
    FourBytes(val, 0);
    assert b[..] == LittleEndian(val, 4);
    ok := stream.Write(b[..]);
  }

  method EncodeFixed64(stream: OStream, val: nat) returns (ok: bool)
    requires stream.Valid() && val < TWO_64
    modifies stream, stream.buf
    ensures stream.Emitted(Some(LittleEndian(val, 8)), ok)
  {
    var b := new byte[8](_ => 0);
    var high := val / 256 / 256 / 256 / 256;
    b[0], b[1], b[2], b[3] := val % 256, val / 256 % 256, val / 256 / 256 % 256, val / 256 / 256 / 256 % 256;
    b[4], b[5], b[6], b[7] := high % 256, high / 256 % 256, high / 256 / 256 % 256, high / 256 / 256 / 256 % 256;
    FourBytes(val, 4);
    FourBytes(high, 0);
    assert b[..] == LittleEndian(val, 8);
    ok := stream.Write(b[..]);
  }

  /** pb_encode_string */
  method EncodeString(stream: OStream, data: seq<byte>) returns (ok: bool)
    requires stream.Valid() && |data| < TWO_64
    modifies stream, stream.buf
    ensures stream.Emitted(Some(Delimited(data)), ok)
  {
    ok := EncodeVarint(stream, |data|);
    if ok {
      ok := stream.Write(data);
    }
  }

  /** The strlen loop of pb_enc_string. */
  method Length(s: seq<byte>, max: nat) returns (size: nat)
    ensures size == StrLen(s, max)
  {
    size := 0;
    while size < max && size < |s| && s[size] != 0
      invariant size <= |s| && size <= max
      invariant StrLen(s, max) == size + StrLen(s[size..], max - size)
    {
      assert s[size..][1..] == s[size + 1..];
      size := size + 1;
    }
  }

  // ----- pb_enc_*: one value -----

  /** pb_enc_varint and the like, by the size of the field's integer. word is the integer's cell, widened. */
  method ReadSigned(f: Field, word: nat) returns (ok: bool, value: int)
    ensures ok <==> f.IntegerSize()
    ensures ok ==> value == Signed(word, f.dataSize)
  {
    ok, value := true, 0;
    if f.dataSize == 1 {
      value := Signed(word, 1);
    } else if f.dataSize == 2 {
      value := Signed(word, 2);
    } else if f.dataSize == 4 {
      value := Signed(word, 4);
    } else if f.dataSize == 8 {
      value := Signed(word, 8);
    } else {
      ok := false;
    }
  }

  method ReadUnsigned(f: Field, word: nat) returns (ok: bool, value: nat)
    ensures ok <==> f.IntegerSize()
    ensures ok ==> value == word % (2 * Half(f.dataSize))
  {
    ok, value := true, 0;
    if f.dataSize == 1 {
      value := word % 0x100;
    } else if f.dataSize == 2 {
      value := word % 0x1_0000;
    } else if f.dataSize == 4 {
      value := word % TWO_32;
    } else if f.dataSize == 8 {
      value := word % TWO_64;
    } else {
      ok := false;
    }
  }

  /** A signed cell reads as n exactly when n is a value of its type. */
  lemma SignedCell(n: int, size: nat)
    requires size in {1, 2, 4, 8}
    ensures Signed(n % TWO_64, size) == n <==> FitsSigned(n, size)
  {
    if FitsSigned(n, size) {
      SignedKeeps(n, size);
      assert n % TWO_64 == Unsigned64(n);
    }
  }

  lemma UnsignedCell(n: int, size: nat)
    requires size in {1, 2, 4, 8}
    ensures n % TWO_64 % (2 * Half(size)) == n <==> FitsUnsigned(n, size)
  {
  }

  /** The numeric encoders. A number that the cell cannot hold is no value of the field, and is refused. */
  method EncNumber(stream: OStream, f: Field, v: Value) returns (ok: bool)
    requires stream.Valid() && f.ltype.Packable()
    modifies stream, stream.buf
    ensures stream.Emitted(EncodeValue(f, v), ok)
  {
    if !v.Num? {
      return false;
    }
    match f.ltype
    case Varint | SVarint => ok := EncSigned(stream, f, v.n);
    case UVarint => ok := EncUnsigned(stream, f, v.n);
    case Fixed32 =>
      if v.n < 0 || v.n >= TWO_32 {
        return false;
      }
      ok := EncodeFixed32(stream, v.n);
    case Fixed64 =>
      if v.n < 0 || v.n >= TWO_64 {
        return false;
      }
      ok := EncodeFixed64(stream, v.n);
  }

  method EncSigned(stream: OStream, f: Field, n: int) returns (ok: bool)
    requires stream.Valid() && (f.ltype.Varint? || f.ltype.SVarint?)
    modifies stream, stream.buf
    ensures stream.Emitted(EncodeValue(f, Num(n)), ok)
  {
    var value;
    ok, value := ReadSigned(f, n % TWO_64);
    if !ok {
      return;
    }
    SignedCell(n, f.dataSize);
    if value != n {
      return false;
    }
    ok := EncodeVarint(stream, if f.ltype.Varint? then Unsigned64(value) else Varints.ZigZag(value));
  }

  method EncUnsigned(stream: OStream, f: Field, n: int) returns (ok: bool)
    requires stream.Valid() && f.ltype.UVarint?
    modifies stream, stream.buf
    ensures stream.Emitted(EncodeValue(f, Num(n)), ok)
  {
    var value;
    ok, value := ReadUnsigned(f, n % TWO_64);
    if !ok {
      return;
    }
    UnsignedCell(n, f.dataSize);
    if value != n {
      return false;
    }
    ok := EncodeVarint(stream, value);
  }

  method EncBlob(stream: OStream, f: Field, v: Value) returns (ok: bool)
    requires stream.Valid() && f.ltype in {Bytes, String, FixedLengthBytes} && f.dataSize <= PB_SIZE_MAX
    modifies stream, stream.buf
    ensures stream.Emitted(EncodeValue(f, v), ok)
  {
    if !v.Blob? {
      return false;
    }
    match f.ltype
    case Bytes =>
      if |v.b| + BYTES_OFFSET > f.dataSize {
        return false;
      }
      ok := EncodeString(stream, v.b);
    case String =>
      var size := Length(v.b, f.dataSize);
      ok := EncodeString(stream, v.b[..size]);
    case FixedLengthBytes =>
      if |v.b| != f.dataSize {
        return false;
      }
      ok := EncodeString(stream, v.b);
  }

  /** What C guarantees of a struct: fixed-width items fill their words, and the sizes of submessages
      and packed arrays, at any depth, fit a size_t. */
  ghost predicate SizesFit(d: seq<Field>, m: Struct)
    decreases d, 3
  {
    forall f | f in d && f.member in m :: SlotFits(f, m[f.member])
  }

  ghost predicate SlotFits(f: Field, s: Slot)
    decreases f, 2
  {
    match s
    case One(v) => ValueFits(f, v)
    case Opt(has, v) => has ==> ValueFits(f, v)
    case Many(items) =>
      && (forall v | v in items :: ValueFits(f, v))
      && (f.ltype.Fixed32? || f.ltype.Fixed64? ==> forall v | v in items :: EncodeValue(f, v).Some?)
      && (f.ltype.Packable() && EncodePacked(f, items).Some? ==> |EncodePacked(f, items).value| < TWO_64)
    case Pick(which, v) => which == f.tag ==> ValueFits(f, v)
  }

  ghost predicate ValueFits(f: Field, v: Value)
    decreases f, 1
  {
    f.ltype.Submessage? && v.Msg? ==>
      && SizesFit(f.sub, v.m)
      && (EncodeStruct(f.sub, v.m).Some? ==> |EncodeStruct(f.sub, v.m).value| < TWO_64)
  }

  /** What the C types of a descriptor guarantee: tags and sizes fit their fields. */
  ghost predicate Encodable(d: seq<Field>)
    decreases d
  {
    forall f | f in d ::
      f.tag <= MAX_TAG && f.tag > 0 && f.dataSize <= PB_SIZE_MAX && (f.ltype.Submessage? ==> Encodable(f.sub))
  }

  /** pb_encode_submessage: size the submessage, write the length, then encode it again for real. */
  method EncSubmessage(stream: OStream, f: Field, v: Value) returns (ok: bool)
    requires stream.Valid() && f.ltype.Submessage? && Encodable(f.sub) && ValueFits(f, v)
    modifies stream, stream.buf
    ensures stream.Emitted(EncodeValue(f, v), ok)
    decreases f, 0
  {
    if !v.Msg? {
      return false;
    }
    var sizing := new OStream.Sizing();
    ok := PbEncode(sizing, f.sub, v.m);
    if !ok {
      return false;
    }
    var size := sizing.bytesWritten;
    ok := EncodeVarint(stream, size);
    if !ok {
      return false;
    }
    if !stream.writing {
      stream.Count(size);
      return true;
    }
    if stream.bytesWritten + size > stream.maxSize {
      return false;
    }
    ok := WriteBody(stream, f, v.m, size);
  }

  /** The writing half of pb_encode_submessage; "submsg size changed" never happens. */
  method WriteBody(stream: OStream, f: Field, m: Struct, size: nat) returns (ok: bool)
    requires stream.Valid() && stream.writing && Encodable(f.sub) && SizesFit(f.sub, m)
    requires EncodeStruct(f.sub, m).Some? && |EncodeStruct(f.sub, m).value| == size
    requires stream.bytesWritten + size <= stream.maxSize
    modifies stream, stream.buf
    ensures ok && stream.Emitted(EncodeStruct(f.sub, m), true)
    decreases f.sub, 10
  {
    var sub := new OStream.FromBuffer(stream.buf, stream.state, size);
    var status := PbEncode(sub, f.sub, m);
    stream.bytesWritten := stream.bytesWritten + sub.bytesWritten;
    stream.state := sub.state;
    stream.content := stream.content + sub.content;
    if sub.bytesWritten != size {
      return false;
    }
    return status;
  }

  method EncValue(stream: OStream, f: Field, v: Value) returns (ok: bool)
    requires stream.Valid() && f.dataSize <= PB_SIZE_MAX && ValueFits(f, v)
    requires f.ltype.Submessage? ==> Encodable(f.sub)
    modifies stream, stream.buf
    ensures stream.Emitted(EncodeValue(f, v), ok)
    decreases f, 1
  {
    match f.ltype
    case Submessage => ok := EncSubmessage(stream, f, v);
    case Bytes | String | FixedLengthBytes => ok := EncBlob(stream, f, v);
    case _ => ok := EncNumber(stream, f, v);
  }

  /** pb_encode_tag_for_field, then the value. */
  method EncTagged(stream: OStream, f: Field, v: Value) returns (ok: bool)
    requires stream.Valid() && f.tag <= MAX_TAG && f.dataSize <= PB_SIZE_MAX && ValueFits(f, v)
    requires f.ltype.Submessage? ==> Encodable(f.sub)
    modifies stream, stream.buf
    ensures stream.Emitted(EncodeTagged(f, v), ok)
    decreases f, 2
  {
    ok := EncodeTag(stream, f.ltype.Wire(), f.tag);
    if ok {
      ok := EncValue(stream, f, v);
    }
  }

  // ----- encode_array -----

  /** The item loop of a packed array, run once to size it and once to write it. */
  method EncItems(stream: OStream, f: Field, items: seq<Value>) returns (ok: bool)
    requires stream.Valid() && f.ltype.Packable()
    modifies stream, stream.buf
    ensures stream.Emitted(EncodePacked(f, items), ok)
  {
    ghost var done: seq<byte> := [];
    ConcatNil(EncodePacked(f, items));
    assert items[0..] == items;
    for i := 0 to |items|
      invariant stream.Emitted(Some(done), true)
      invariant EncodePacked(f, items) == Concat(Some(done), EncodePacked(f, items[i..]))
    {
      assert items[i..][1..] == items[i + 1..];
      ok := EncNumber(stream, f, items[i]);
      if !ok {
        return;
      }
      ConcatAssoc(done, EncodeValue(f, items[i]), EncodePacked(f, items[i + 1..]));
      done := done + EncodeValue(f, items[i]).value;
    }
    ok := true;
  }

  lemma ConcatAssoc(a: seq<byte>, b: Option<seq<byte>>, c: Option<seq<byte>>)
    ensures Concat(Some(a), Concat(b, c)) == Concat(Concat(Some(a), b), c)
  {
    if b.Some? && c.Some? {
      assert a + (b.value + c.value) == (a + b.value) + c.value;
    }
  }

  lemma ConcatNil(s: Option<seq<byte>>)
    ensures Concat(Some([]), s) == s
  {
    if s.Some? {
      assert [] + s.value == s.value;
    }
  }

  lemma {:induction false} FixedSize(f: Field, items: seq<Value>)
    requires f.ltype.Fixed32? || f.ltype.Fixed64?
    requires forall v | v in items :: EncodeValue(f, v).Some?
    ensures EncodePacked(f, items).Some?
    ensures |EncodePacked(f, items).value| == (if f.ltype.Fixed32? then 4 else 8) * |items|
  {
    if items != [] {
      FixedSize(f, items[1..]);
    }
  }

  /** The size of a packed array: computed for fixed-width items, counted by a sizing stream for varints. */
  method SizePacked(f: Field, items: seq<Value>) returns (ok: bool, size: nat)
    requires f.ltype.Packable() && SlotFits(f, Many(items))
    ensures ok <==> EncodePacked(f, items).Some?
    ensures ok ==> size == |EncodePacked(f, items).value|
  {
    if f.ltype.Fixed32? || f.ltype.Fixed64? {
      FixedSize(f, items);
      return true, if f.ltype.Fixed32? then 4 * |items| else 8 * |items|;
    }
    var sizing := new OStream.Sizing();
    ok := EncItems(sizing, f, items);
    return ok, sizing.bytesWritten;
  }

  /** The loop over an array that is not packed: a tag before every item. */
  method EncEach(stream: OStream, f: Field, items: seq<Value>) returns (ok: bool)
    requires stream.Valid() && f.tag <= MAX_TAG && f.dataSize <= PB_SIZE_MAX && forall v | v in items :: ValueFits(f, v)
    requires f.ltype.Submessage? ==> Encodable(f.sub)
    modifies stream, stream.buf
    ensures stream.Emitted(EncodeEach(f, items), ok)
    decreases f, 3
  {
    ghost var done: seq<byte> := [];
    ConcatNil(EncodeEach(f, items));
    assert items[0..] == items;
    for i := 0 to |items|
      invariant stream.Emitted(Some(done), true)
      invariant EncodeEach(f, items) == Concat(Some(done), EncodeEach(f, items[i..]))
    {
      assert items[i..][1..] == items[i + 1..];
      ok := EncTagged(stream, f, items[i]);
      if !ok {
        return;
      }
      ConcatAssoc(done, EncodeTagged(f, items[i]), EncodeEach(f, items[i + 1..]));
      done := done + EncodeTagged(f, items[i]).value;
    }
    ok := true;
  }

  method EncArray(stream: OStream, f: Field, items: seq<Value>) returns (ok: bool)
    requires stream.Valid() && f.tag <= MAX_TAG && f.dataSize <= PB_SIZE_MAX && SlotFits(f, Many(items))
    requires f.ltype.Submessage? ==> Encodable(f.sub)
    modifies stream, stream.buf
    ensures stream.Emitted(EncodeArray(f, items), ok)
    decreases f, 4
  {
    if |items| == 0 {
      return true;
    }
    if |items| > f.arraySize {
      return false;
    }
    if f.ltype.Packable() {
      ok := EncPacked(stream, f, items);
    } else {
      ok := EncEach(stream, f, items);
    }
  }

  /** The packed branch: tag, size, and the items unless the stream only counts. */
  method EncPacked(stream: OStream, f: Field, items: seq<Value>) returns (ok: bool)
    requires stream.Valid() && f.tag <= MAX_TAG && f.ltype.Packable() && SlotFits(f, Many(items))
    requires 0 < |items| <= f.arraySize
    modifies stream, stream.buf
    ensures stream.Emitted(EncodeArray(f, items), ok)
  {
    ok := EncodeTag(stream, WT_STRING, f.tag);
    if !ok {
      return;
    }
    var size;
    ok, size := SizePacked(f, items);
    if !ok {
      return;
    }
    ok := EncSized(stream, f, items, size);
  }

  /** The size and the items, after the tag. */
  method EncSized(stream: OStream, f: Field, items: seq<Value>, size: nat) returns (ok: bool)
    requires stream.Valid() && f.ltype.Packable() && size < TWO_64
    requires EncodePacked(f, items).Some? && size == |EncodePacked(f, items).value|
    modifies stream, stream.buf
    ensures stream.Emitted(Some(Delimited(EncodePacked(f, items).value)), ok)
  {
    ok := EncodeVarint(stream, size);
    if !ok {
      return;
    }
    if !stream.writing {
      stream.Count(size);
      return true;
    }
    ok := EncItems(stream, f, items);
  }

  // ----- pb_check_proto3_default_value -----

  method CheckDefault(f: Field, m: Struct) returns (isDefault: bool)
    requires f.member in m && f.tag > 0 && (f.ltype.Submessage? ==> Encodable(f.sub))
    ensures isDefault <==> IsDefault(f, m)
    decreases f, 5
  {
    if f.htype.Required? {
      return false;
    } else if f.htype.Repeated? {
      return m[f.member].Many? && |m[f.member].items| == 0;
    } else if f.htype.Oneof? {
      return m[f.member].Pick? && m[f.member].which == 0;
    } else if f.HasFlag() {
      return m[f.member].Opt? && !m[f.member].has;
    }
    if !m[f.member].One? {
      return false;
    }
    var v := m[f.member].v;
    match f.ltype
    case Bytes => isDefault := v.Blob? && |v.b| == 0;
    case String => isDefault := v.Blob? && (|v.b| == 0 || v.b[0] == 0);
    case FixedLengthBytes => isDefault := f.dataSize == 0;
    case Submessage =>
      if !v.Msg? {
        return false;
      }
      isDefault := CheckAllDefault(f.sub, v.m);
    case _ =>
      if !v.Num? {
        return false;
      }
      isDefault := CheckZero(f.dataSize, v.n);
  }

  /** The byte-by-byte comparison of a number's cell with zero. */
  method CheckZero(dataSize: nat, n: int) returns (zero: bool)
    ensures zero <==> n == 0
  {
    if n + Pow256(dataSize) <= 0 || n >= Pow256(dataSize) {
      // not a value of a cell of this size
      return false;
    }
    var cell := if n < 0 then n + Pow256(dataSize) else n;
    var p := LittleEndian(cell, dataSize);
    ZeroCell(cell, dataSize);
    for i := 0 to dataSize
      invariant AllZero(p) <==> AllZero(p[i..])
    {
      assert p[i..][1..] == p[i + 1..];
      if p[i] != 0 {
        return false;
      }
    }
    return true;
  }

  predicate AllZero(s: seq<byte>) {
    s == [] || (s[0] == 0 && AllZero(s[1..]))
  }

  /** The bytes of a number are all zero exactly when it is. */
  lemma {:induction false} ZeroCell(n: nat, width: nat)
    requires n < Pow256(width)
    ensures AllZero(LittleEndian(n, width)) <==> n == 0
  {
    if width > 0 {
      ZeroCell(n / 256, width - 1);
      assert LittleEndian(n, width)[1..] == LittleEndian(n / 256, width - 1);
    }
  }

  /** The loop over the fields of a submessage. */
  method CheckAllDefault(d: seq<Field>, m: Struct) returns (isDefault: bool)
    requires Encodable(d)
    ensures isDefault <==> AllDefault(d, m)
    decreases d, 6
  {
    if d == [] {
      return true;
    }
    var iter := new FieldIter(d, 0);
    var more := true;
    while more
      invariant iter.Valid() && iter.start == d && fresh(iter)
      invariant more ==> (AllDefault(d, m) <==> AllDefault(d[iter.pos..], m))
      invariant !more ==> AllDefault(d, m)
      decreases more, |d| - iter.pos
    {
      var f := d[iter.pos];
      assert f in d && d[iter.pos..][1..] == d[iter.pos + 1..];
      if f.member !in m {
        return false;
      }
      var same := CheckDefault(f, m);
      if !same {
        return false;
      }
      more := iter.Next();
    }
    return true;
  }

  // ----- encode_basic_field, pb_encode, pb_get_encoded_size -----

  method EncBasicField(stream: OStream, f: Field, m: Struct) returns (ok: bool)
    requires stream.Valid() && 0 < f.tag <= MAX_TAG && f.dataSize <= PB_SIZE_MAX
    requires f.ltype.Submessage? ==> Encodable(f.sub)
    requires f.member in m ==> SlotFits(f, m[f.member])
    modifies stream, stream.buf
    ensures stream.Emitted(EncodeField(f, m), ok)
    decreases f, 7
  {
    if f.member !in m {
      return false;
    }
    ok := false;
    match (f.htype, m[f.member])
    case (Required, One(v)) => ok := EncTagged(stream, f, v);
    case (Optional, One(v)) =>
      if !f.HasFlag() {
        ok := EncSingular(stream, f, m, v);
      }
    case (Optional, Opt(has, v)) =>
      if f.HasFlag() {
        if has {
          ok := EncTagged(stream, f, v);
        } else {
          ok := true;
        }
      }
    case (Repeated, Many(items)) => ok := EncArray(stream, f, items);
    case (Oneof, Pick(which, v)) =>
      if which == f.tag {
        ok := EncTagged(stream, f, v);
      } else {
        ok := true;
      }
    case _ =>
  }

  /** A proto3 singular field, left out if it is at its default. */
  method EncSingular(stream: OStream, f: Field, m: Struct, v: Value) returns (ok: bool)
    requires stream.Valid() && 0 < f.tag <= MAX_TAG && f.dataSize <= PB_SIZE_MAX
    requires f.ltype.Submessage? ==> Encodable(f.sub)
    requires f.htype.Optional? && !f.HasFlag() && f.member in m && m[f.member] == One(v) && ValueFits(f, v)
    modifies stream, stream.buf
    ensures stream.Emitted(EncodeField(f, m), ok)
    decreases f, 6
  {
    var absent := CheckDefault(f, m);
    if absent {
      return true;
    }
    ok := EncTagged(stream, f, v);
  }

  /** One turn of pb_encode's loop. */
  method EncTurn(stream: OStream, d: seq<Field>, m: Struct, iter: FieldIter) returns (ok: bool, more: bool)
    requires stream.Valid() && Encodable(d) && SizesFit(d, m) && iter.Valid() && iter.start == d && d != []
    modifies stream, stream.buf, iter
    ensures stream.Emitted(EncodeField(d[old(iter.pos)], m), ok)
    ensures iter.Valid() && (ok ==> (more <==> old(iter.pos) + 1 < |d|) && (more ==> iter.pos == old(iter.pos) + 1))
    decreases d, 8
  {
    more := false;
    assert d[iter.pos] in d;
    ok := EncBasicField(stream, d[iter.pos], m);
    if ok {
      more := iter.Next();
    }
  }

  /** done is what the first i fields of the struct encode to. */
  ghost predicate EncodedTo(d: seq<Field>, m: Struct, i: nat, done: seq<byte>)
    requires i <= |d|
  {
    EncodeStruct(d, m) == Concat(Some(done), EncodeStruct(d[i..], m))
  }

  lemma EncodedStart(d: seq<Field>, m: Struct)
    ensures EncodedTo(d, m, 0, [])
  {
    ConcatNil(EncodeStruct(d, m));
    assert d[0..] == d;
  }

  /** One more field; after the last one the struct is encoded. */
  lemma EncodedStep(d: seq<Field>, m: Struct, i: nat, done: seq<byte>)
    requires i < |d| && EncodedTo(d, m, i, done)
    ensures var e := EncodeField(d[i], m);
            if e.None? then EncodeStruct(d, m).None?
            else
              && EncodedTo(d, m, i + 1, done + e.value)
              && (EncodeStruct(d, m).Some? ==> |EncodeStruct(d, m).value| >= |done + e.value|)
              && (i + 1 == |d| ==> EncodeStruct(d, m) == Some(done + e.value))
  {
    var rest := d[i + 1..];
    assert d[i..][0] == d[i] && d[i..][1..] == rest;
    ConcatAssoc(done, EncodeField(d[i], m), EncodeStruct(rest, m));
    if i + 1 == |d| && EncodeField(d[i], m).Some? {
      EncodedEnd(d, m, done + EncodeField(d[i], m).value);
    }
  }

  lemma EncodedEnd(d: seq<Field>, m: Struct, done: seq<byte>)
    requires EncodedTo(d, m, |d|, done)
    ensures EncodeStruct(d, m) == Some(done)
  {
    assert d[|d|..] == [] && done + [] == done;
  }

  /** pb_encode: succeeds exactly when the value has an encoding and, if writing, it fits; then appends it. */
  method PbEncode(stream: OStream, d: seq<Field>, m: Struct) returns (ok: bool)
    requires stream.Valid() && Encodable(d) && SizesFit(d, m)
    modifies stream, stream.buf
    ensures stream.Emitted(EncodeStruct(d, m), ok)
    decreases d, 9
  {
    if d == [] {
      return true;
    }
    var iter := new FieldIter(d, 0);
    ghost var done: seq<byte> := [];
    EncodedStart(d, m);
    var more := true;
    ghost var i := 0;
    while more
      invariant iter.Valid() && iter.start == d && fresh(iter) && (more ==> i == iter.pos < |d|)
      invariant stream.Emitted(Some(done), true)
      invariant if more then EncodedTo(d, m, i, done) else EncodeStruct(d, m) == Some(done)
      decreases more, |d| - i
    {
      EncodedStep(d, m, i, done);
      ok, more := EncTurn(stream, d, m, iter);
      if !ok {
        return;
      }
      done := done + EncodeField(d[i], m).value;
      i := i + 1;
    }
    ok := true;
  }

  /** pb_get_encoded_size: the sizing run counts exactly the bytes a writing run produces. */
  method PbGetEncodedSize(d: seq<Field>, m: Struct) returns (ok: bool, size: nat)
    requires Encodable(d) && SizesFit(d, m)
    ensures ok <==> EncodeStruct(d, m).Some?
    ensures ok ==> size == |EncodeStruct(d, m).value|
  {
    var stream := new OStream.Sizing();
    ok := PbEncode(stream, d, m);
    size := stream.bytesWritten;
  }

  /** Encoding into an n-byte buffer succeeds exactly when pb_get_encoded_size reports at most n. */
  method EncodeIntoBuffer(buffer: array<byte>, d: seq<Field>, m: Struct) returns (ok: bool, written: nat)
    requires Encodable(d) && SizesFit(d, m)
    modifies buffer
    ensures ok <==> EncodeStruct(d, m).Some? && |EncodeStruct(d, m).value| <= buffer.Length
    ensures ok ==> written <= buffer.Length && buffer[..written] == EncodeStruct(d, m).value
  {
    var stream := new OStream.FromBuffer(buffer, 0, buffer.Length);
    ok := PbEncode(stream, d, m);
    written := stream.bytesWritten;
  }

  // ----- Well-formed values meet the encoder's requirements -----

  lemma {:induction false} WellFormedEncodable(d: seq<Field>)
    requires WellFormed(d)
    ensures Encodable(d)
    decreases d
  {
    forall f | f in d
      ensures 0 < f.tag <= MAX_TAG && f.dataSize <= PB_SIZE_MAX && (f.ltype.Submessage? ==> Encodable(f.sub))
    {
      assert EntryOk(f);
      if f.ltype.Submessage? {
        WellFormedEncodable(f.sub);
      }
    }
  }

  lemma {:induction false} ValidValueFits(f: Field, v: Value)
    requires ValidValue(f, v)
    ensures ValueFits(f, v)
    decreases f, 0
  {
    if f.ltype.Submessage? {
      ValidFits(f.sub, v.m);
    }
  }

  lemma {:induction false} ValidSlotFits(f: Field, s: Slot)
    requires ValidSlot(f, s)
    ensures SlotFits(f, s)
    decreases f, 1
  {
    match s
    case One(v) => ValidValueFits(f, v);
    case Opt(has, v) => if has { ValidValueFits(f, v); }
    case Many(items) =>
      forall v | v in items
        ensures ValueFits(f, v) && EncodeValue(f, v).Some?
      {
        ValidValueFits(f, v);
        ValidValueEncodes(f, v);
      }
    case Pick(which, v) => if which == f.tag { ValidValueFits(f, v); }
  }

  lemma {:induction false} ValidFits(d: seq<Field>, m: Struct)
    requires Valid(d, m)
    ensures SizesFit(d, m)
    decreases d, 2
  {
    forall f | f in d && f.member in m
      ensures SlotFits(f, m[f.member])
    {
      assert ValidSlot(f, m[f.member]);
      ValidSlotFits(f, m[f.member]);
    }
  }
}

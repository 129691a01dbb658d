/** pb_decode: the descriptor-driven decoder, step by step on an input stream. */
module Decoder {
  import opened Words
  import opened Schema
  import opened WireDecoding
  import opened FieldIterator
  import opened InputStream
  import RequiredFields

  // ----- pb_dec_*: one value -----

  method DecBytes(stream: IStream, f: Field) returns (ok: bool, v: Value)
    requires stream.Valid()
    modifies stream
    ensures stream.Valid() && stream.End() <= old(stream.End()) && stream.bytesLeft <= old(stream.bytesLeft)
    ensures ok <==> ParseBytes(f, old(stream.Window())).Ok?
    ensures ok ==> ParseBytes(f, old(stream.Window())) == Ok(v, stream.Window()) && stream.End() == old(stream.End())
  {
    v := Vacant;
    var got, size, _ := stream.DecodeVarint32();
    if !got || size > PB_SIZE_MAX || size + BYTES_OFFSET > f.dataSize {
      return false, v;
    }
    var data;
    ok, data := stream.Read(size);
    v := Blob(data);
  }

  method DecString(stream: IStream, f: Field) returns (ok: bool, v: Value)
    requires stream.Valid()
    modifies stream
    ensures stream.Valid() && stream.End() <= old(stream.End()) && stream.bytesLeft <= old(stream.bytesLeft)
    ensures ok <==> ParseString(f, old(stream.Window())).Ok?
    ensures ok ==> ParseString(f, old(stream.Window())) == Ok(v, stream.Window()) && stream.End() == old(stream.End())
  {
    v := Vacant;
    var got, size, _ := stream.DecodeVarint32();
    if !got {
      return false, v;
    }
    var allocSize := (size + 1) % TWO_32;
    if allocSize < size || allocSize > f.dataSize {
      return false, v;
    }
    var data;
    ok, data := stream.Read(size);
    v := Blob(data);
  }

  method DecFixedLengthBytes(stream: IStream, f: Field) returns (ok: bool, v: Value)
    requires stream.Valid()
    modifies stream
    ensures stream.Valid() && stream.End() <= old(stream.End()) && stream.bytesLeft <= old(stream.bytesLeft)
    ensures ok <==> ParseFixedLength(f, old(stream.Window())).Ok?
    ensures ok ==>
      ParseFixedLength(f, old(stream.Window())) == Ok(v, stream.Window()) && stream.End() == old(stream.End())
  {
    v := Vacant;
    var got, size, _ := stream.DecodeVarint32();
    if !got || size > PB_SIZE_MAX {
      return false, v;
    }
    if size == 0 {
      return true, Blob(Zeros(f.dataSize));
    }
    if size != f.dataSize {
      return false, v;
    }
    var data;
    ok, data := stream.Read(size);
    v := Blob(data);
  }

  /** pb_dec_varint, pb_dec_uvarint, pb_dec_svarint. */
  method DecInteger(stream: IStream, f: Field, prev: Value) returns (ok: bool, v: Value)
    requires stream.Valid() && (f.ltype.Varint? || f.ltype.UVarint? || f.ltype.SVarint?)
    modifies stream
    ensures stream.Valid() && stream.End() <= old(stream.End()) && stream.bytesLeft <= old(stream.bytesLeft)
    ensures ok <==> ParseValue(f, old(stream.Window()), prev).Ok?
    ensures ok ==>
      ParseValue(f, old(stream.Window()), prev) == Ok(v, stream.Window()) && stream.End() == old(stream.End())
  {
    v := Vacant;
    var got, value := stream.DecodeVarint();
    if !got {
      return false, v;
    }
    var n := if f.ltype.Varint? then ToSigned(f, value) else if f.ltype.UVarint? then ToUnsigned(f, value)
             else ToZigZag(f, value);
    if n.None? {
      return false, v;
    }
    return true, Num(n.value);
  }

  /** pb_dec_fixed32, pb_dec_fixed64. */
  method DecFixed(stream: IStream, f: Field, prev: Value) returns (ok: bool, v: Value)
    requires stream.Valid() && (f.ltype.Fixed32? || f.ltype.Fixed64?)
    modifies stream
    ensures stream.Valid() && stream.End() <= old(stream.End()) && stream.bytesLeft <= old(stream.bytesLeft)
    ensures ok <==> ParseValue(f, old(stream.Window()), prev).Ok?
    ensures ok ==>
      ParseValue(f, old(stream.Window()), prev) == Ok(v, stream.Window()) && stream.End() == old(stream.End())
  {
    var got, data := stream.Read(if f.ltype.Fixed32? then 4 else 8);
    if !got {
      return false, Vacant;
    }
    return true, Num(FromLittleEndian(data));
  }

  method DecSubmessage(stream: IStream, f: Field, prev: Value) returns (ok: bool, v: Value)
    requires stream.Valid() && f.ltype.Submessage? && Descriptor(f.sub)
    modifies stream
    ensures stream.Valid() && stream.End() <= old(stream.End()) && stream.bytesLeft <= old(stream.bytesLeft)
    ensures ok <==> ParseValue(f, old(stream.Window()), prev).Ok?
    ensures ok ==>
      ParseValue(f, old(stream.Window()), prev) == Ok(v, stream.Window()) && stream.End() == old(stream.End())
    decreases stream.bytesLeft, 0
  {
    v := Vacant;
    var got, sub := stream.MakeSubstream();
    if !got {
      return false, v;
    }
    var status, m;
    if f.htype.Repeated? {
      // A new array entry is still to be set to its defaults.
      status, m := PbDecode(sub, f.sub, map[]);
    } else if prev.Msg? {
      status, m := PbDecodeNoInit(sub, f.sub, prev.m);
    } else {
      return false, v;
    }
    ok := stream.CloseSubstream(sub);
    return ok && status, Msg(m);
  }

  /** The entry of PB_DECODERS for the field's type. */
  method DecValue(stream: IStream, f: Field, prev: Value) returns (ok: bool, v: Value)
    requires stream.Valid() && (f.ltype.Submessage? ==> Descriptor(f.sub))
    modifies stream
    ensures stream.Valid() && stream.End() <= old(stream.End()) && stream.bytesLeft <= old(stream.bytesLeft)
    ensures ok <==> ParseValue(f, old(stream.Window()), prev).Ok?
    ensures ok ==>
      ParseValue(f, old(stream.Window()), prev) == Ok(v, stream.Window()) && stream.End() == old(stream.End())
    decreases stream.bytesLeft, 1
  {
    match f.ltype
    case Varint | UVarint | SVarint => ok, v := DecInteger(stream, f, prev);
    case Fixed32 | Fixed64 => ok, v := DecFixed(stream, f, prev);
    case Bytes => ok, v := DecBytes(stream, f);
    case String => ok, v := DecString(stream, f);
    case Submessage => ok, v := DecSubmessage(stream, f, prev);
    case FixedLengthBytes => ok, v := DecFixedLengthBytes(stream, f);
  }

  // ----- decode_static_field -----

  /** The packed-array branch. */
  method DecPacked(stream: IStream, f: Field, items: seq<Value>) returns (ok: bool, r: seq<Value>)
    requires stream.Valid() && f.ltype.Packable()
    modifies stream
    ensures stream.Valid() && stream.End() <= old(stream.End()) && stream.bytesLeft <= old(stream.bytesLeft)
    ensures var p := TakeDelimited(old(stream.Window()));
            && (ok <==> p.Ok? && ParsePacked(f, p.value, items).Some?)
            && (ok ==> ParsePacked(f, p.value, items) == Some(r))
            && (ok ==> stream.Window() == p.rest && stream.End() == old(stream.End()))
    decreases stream.bytesLeft, 2
  {
    r := items;
    var got, sub := stream.MakeSubstream();
    if !got {
      return false, r;
    }
    ghost var body := sub.Window();
    ghost var at, left := stream.state, stream.bytesLeft;
    var status := true;
    while sub.bytesLeft > 0 && |r| < f.arraySize
      invariant stream.Valid() && sub.Valid() && sub != stream && fresh(sub) && sub.buf == stream.buf
      invariant stream.state == at && stream.bytesLeft == left && sub.End() + left == old(stream.End()) && status
      invariant ParsePacked(f, body, items) == ParsePacked(f, sub.Window(), r)
      decreases sub.bytesLeft
    {
      var v;
      status, v := DecValue(sub, f, Vacant);
      if !status {
        break;
      }
      r := r + [v];
    }
    if sub.bytesLeft != 0 {
      return false, r;
    }
    ok := stream.CloseSubstream(sub);
    return ok && status, r;
  }

  method DecStaticField(stream: IStream, wire: nat, f: Field, slot: Slot) returns (ok: bool, r: Slot)
    requires stream.Valid() && (f.ltype.Submessage? ==> Descriptor(f.sub))
    modifies stream
    ensures stream.Valid() && stream.End() <= old(stream.End()) && stream.bytesLeft <= old(stream.bytesLeft)
    ensures ok <==> ParseSlot(f, wire, old(stream.Window()), slot).Ok?
    ensures ok ==>
      ParseSlot(f, wire, old(stream.Window()), slot) == Ok(r, stream.Window()) && stream.End() == old(stream.End())
    decreases stream.bytesLeft, 3
  {
    ok, r := false, slot;
    var v;
    match (f.htype, slot)
    case (Required, One(prev)) =>
      ok, v := DecValue(stream, f, prev);
      r := One(v);
    case (Optional, One(prev)) =>
      if !f.HasFlag() {
        ok, v := DecValue(stream, f, prev);
        r := One(v);
      }
    case (Optional, Opt(_, prev)) =>
      if f.HasFlag() {
        ok, v := DecValue(stream, f, prev);
        r := Opt(true, v);
      }
    case (Repeated, Many(items)) =>
      if wire == WT_STRING && f.ltype.Packable() {
        var all;
        ok, all := DecPacked(stream, f, items);
        r := Many(all);
      } else if |items| < f.arraySize {
        ok, v := DecValue(stream, f, Vacant);
        r := Many(items + [v]);
      }
    case (Oneof, Pick(_, _)) =>
      var start := f.initial;
      if f.ltype.Submessage? {
        var m := PbMessageSetToDefaults(f.sub, map[]);
        start := Msg(m);
      }
      assert start == DefaultValue(f);
      ok, v := DecValue(stream, f, start);
      r := Pick(f.tag, v);
    case _ =>
  }

  // ----- pb_decode_noinit and pb_decode -----

  lemma MarkedBelow(d: seq<Field>, i: nat, seen: set<nat>)
    requires i < |d| && forall k | k in seen :: k < Required(d)
    ensures forall k | k in MarkSeen(d, i, seen) :: k < Required(d)
  {
    if d[i].htype.Required? {
      RequiredGrows(d, i, |d|);
    }
  }

  /** Number of required fields the decoder keeps track of. */
  function Required(d: seq<Field>): (n: nat)
    ensures n <= PB_MAX_REQUIRED_FIELDS
  {
    var r := RequiredBefore(d, |d|);
    if r > PB_MAX_REQUIRED_FIELDS then PB_MAX_REQUIRED_FIELDS else r
  }

  /** How one turn of the decoding loop ends. */
  datatype Turn = Failed | AtZeroTag | Continue

  /** One turn: read a tag, find its entry, and decode or skip the payload. */
  method DecodeRecord(stream: IStream, d: seq<Field>, iter: FieldIter, fieldsSeen: array<nat>, dest: Struct,
                      ghost seen: set<nat>)
    returns (turn: Turn, m: Struct, ghost marked: set<nat>)
    requires stream.Valid() && stream.bytesLeft > 0 && Descriptor(d)
    requires iter.Valid() && iter.start == d
    requires RequiredFields.Represents(fieldsSeen[..], seen) && forall k | k in seen :: k < Required(d)
    modifies stream, iter, fieldsSeen
    ensures stream.Valid() && iter.Valid()
    ensures stream.End() <= old(stream.End()) && stream.bytesLeft <= old(stream.bytesLeft)
    ensures RequiredFields.Represents(fieldsSeen[..], marked) && forall k | k in marked :: k < Required(d)
    ensures match turn
            case Failed => DecodeLoop(d, old(stream.Window()), dest, seen) == Err
            case AtZeroTag =>
              && DecodeLoop(d, old(stream.Window()), dest, seen) == Ok(Progress(m, marked, true), stream.Window())
              && stream.End() == old(stream.End())
            case Continue =>
              && DecodeLoop(d, old(stream.Window()), dest, seen) == DecodeLoop(d, stream.Window(), m, marked)
              && stream.End() == old(stream.End()) && stream.bytesLeft < old(stream.bytesLeft)
    decreases stream.bytesLeft, 5
  {
    m, marked := dest, seen;
    var got, wire, tag, eof := stream.DecodeTag();
    if !got {
      return if eof then AtZeroTag else Failed, m, marked;
    }
    var found := iter.FindTag(tag);
    if !found {
      var skipped := stream.SkipField(wire);
      return if skipped then Continue else Failed, m, marked;
    }
    if d == [] {
      // The terminator: a required integer without a size, which no decoder accepts.
      return Failed, m, marked;
    }
    FindAt(d, iter.pos);
    turn, m, marked := DecodeMember(stream, d, iter, fieldsSeen, wire, dest, seen);
  }

  /** The entry was found: mark it if it is required, then decode into its member. */
  method DecodeMember(stream: IStream, d: seq<Field>, iter: FieldIter, fieldsSeen: array<nat>, wire: nat,
                      dest: Struct, ghost seen: set<nat>)
    returns (turn: Turn, m: Struct, ghost marked: set<nat>)
    requires stream.Valid() && Descriptor(d) && d != [] && iter.Valid() && iter.start == d
    requires RequiredFields.Represents(fieldsSeen[..], seen) && forall k | k in seen :: k < Required(d)
    modifies stream, fieldsSeen
    ensures stream.Valid() && stream.End() <= old(stream.End()) && stream.bytesLeft <= old(stream.bytesLeft)
    ensures RequiredFields.Represents(fieldsSeen[..], marked) && forall k | k in marked :: k < Required(d)
    ensures marked == MarkSeen(d, iter.pos, seen)
    ensures match ParseMember(d[iter.pos], wire, old(stream.Window()), dest)
            case Err => turn.Failed?
            case Ok(r, rest) => turn.Continue? && m == r && stream.Window() == rest && stream.End() == old(stream.End())
    decreases stream.bytesLeft, 4
  {
    m := dest;
    var f := d[iter.pos];
    MarkedBelow(d, iter.pos, seen);
    marked := MarkSeen(d, iter.pos, seen);
    if f.htype.Required? && iter.requiredFieldIndex < PB_MAX_REQUIRED_FIELDS {
      RequiredFields.Mark(fieldsSeen, iter.requiredFieldIndex, seen);
    }
    if f.member !in m {
      return Failed, m, marked;
    }
    var got, slot := DecStaticField(stream, wire, f, m[f.member]);
    if !got {
      return Failed, m, marked;
    }
    return Continue, m[f.member := slot], marked;
  }

  /** Walk on to the last entry to count the required fields, then test the marks. */
  method CheckRequired(d: seq<Field>, iter: FieldIter, fieldsSeen: array<nat>, ghost seen: set<nat>) returns (ok: bool)
    requires iter.Valid() && iter.start == d
    requires RequiredFields.Represents(fieldsSeen[..], seen) && forall k | k in seen :: k < Required(d)
    modifies iter
    ensures ok <==> RequiredSeen(d, seen)
  {
    var count := iter.requiredFieldIndex;
    var last := iter.pos;
    var more := iter.Next();
    while more
      invariant iter.Valid()
      invariant if d == [] then !more && count == 0 else last < |d| && count == RequiredBefore(d, last)
      invariant if more then iter.pos == last + 1 else last + 1 >= |d|
      decreases |d| - last, more
    {
      count := iter.requiredFieldIndex;
      last := iter.pos;
      more := iter.Next();
    }
    if d != [] && d[last].htype.Required? {
      count := count + 1;
    }
    if count > PB_MAX_REQUIRED_FIELDS {
      count := PB_MAX_REQUIRED_FIELDS;
    }
    ok := RequiredFields.AllMarked(fieldsSeen, count, seen);
  }

  method PbDecodeNoInit(stream: IStream, d: seq<Field>, dest: Struct) returns (ok: bool, m: Struct)
    requires stream.Valid() && Descriptor(d)
    modifies stream
    ensures stream.Valid() && stream.End() <= old(stream.End()) && stream.bytesLeft <= old(stream.bytesLeft)
    ensures ok <==> DecodeNoInit(d, old(stream.Window()), dest).Ok?
    ensures ok ==>
      DecodeNoInit(d, old(stream.Window()), dest) == Ok(m, stream.Window()) && stream.End() == old(stream.End())
    decreases stream.bytesLeft, 6
  {
    m := dest;
    var fieldsSeen := new nat[RequiredFields.WORDS](_ => 0);
    assert fieldsSeen[..] == [0, 0];
    RequiredFields.NothingMarked();
    ghost var seen: set<nat> := {};
    var iter := new FieldIter(d, 0);
    while stream.bytesLeft > 0
      invariant stream.Valid() && stream.End() == old(stream.End()) && stream.bytesLeft <= old(stream.bytesLeft)
      invariant iter.Valid() && iter.start == d && fresh(iter) && fresh(fieldsSeen)
      invariant RequiredFields.Represents(fieldsSeen[..], seen) && forall k | k in seen :: k < Required(d)
      invariant DecodeLoop(d, old(stream.Window()), dest, {}) == DecodeLoop(d, stream.Window(), m, seen)
      decreases stream.bytesLeft
    {
      var turn;
      turn, m, seen := DecodeRecord(stream, d, iter, fieldsSeen, m, seen);
      if turn.Failed? {
        return false, m;
      } else if turn.AtZeroTag? {
        break;
      }
    }
    ok := CheckRequired(d, iter, fieldsSeen, seen);
  }

  /** pb_field_set_to_default. What the struct held is overwritten, so a submessage starts from nothing. */
  method PbFieldSetToDefault(f: Field) returns (s: Slot)
    requires f.ltype.Submessage? ==> Descriptor(f.sub)
    ensures s == DefaultSlot(f)
    decreases f, 0
  {
    if f.htype.Repeated? {
      return Many([]);
    } else if f.htype.Oneof? {
      return Pick(0, Vacant);
    }
    var v := f.initial;
    if f.ltype.Submessage? {
      var m := PbMessageSetToDefaults(f.sub, map[]);
      v := Msg(m);
    }
    assert v == DefaultValue(f);
    if f.HasFlag() {
      return Opt(false, v);
    }
    return One(v);
  }

  method PbMessageSetToDefaults(d: seq<Field>, dest: Struct) returns (m: Struct)
    requires Descriptor(d)
    ensures m == SetDefaults(d, dest)
    decreases d, 1
  {
    m := dest;
    if d == [] {
      return;
    }
    var iter := new FieldIter(d, 0);
    var more := true;
    while more
      invariant iter.Valid() && iter.start == d && fresh(iter)
      invariant SetDefaults(d, dest) == if more then SetDefaults(d[iter.pos..], m) else m
      decreases more, |d| - iter.pos
    {
      var f, rest := d[iter.pos], d[iter.pos..];
      assert rest[0] == f && rest[1..] == d[iter.pos + 1..];
      var slot := PbFieldSetToDefault(f);
      m := m[f.member := slot];
      more := iter.Next();
    }
  }

  /** pb_decode. What the struct held before does not matter. */
  method PbDecode(stream: IStream, d: seq<Field>, dest: Struct) returns (ok: bool, m: Struct)
    requires stream.Valid() && Descriptor(d) && dest.Keys <= Members(d)
    modifies stream
    ensures stream.Valid() && stream.End() <= old(stream.End()) && stream.bytesLeft <= old(stream.bytesLeft)
    ensures ok <==> Decode(d, old(stream.Window())).Ok?
    ensures ok ==> Decode(d, old(stream.Window())) == Ok(m, stream.Window()) && stream.End() == old(stream.End())
    decreases stream.bytesLeft, 7
  {
    m := PbMessageSetToDefaults(d, dest);
    SetDefaultsForgets(d, dest);
    ok, m := PbDecodeNoInit(stream, d, m);
  }
}

/** When decoding a concatenation is decoding one part and then the other into the same struct. */
module Merging {
  import opened Words
  import opened Schema
  import opened WireDecoding
  import Varints

  // ----- Bytes after a record do not change how it is read -----

  function Extend<T>(r: Parse<T>, t: seq<byte>): (r': Parse<T>) {
    match r case Err => Err case Ok(v, rest) => Ok(v, rest + t)
  }

  lemma TakePrefix(s: seq<byte>, n: nat, t: seq<byte>)
    requires Take(s, n).Ok?
    ensures Take(s + t, n) == Extend(Take(s, n), t)
  {
    assert (s + t)[..n] == s[..n] && (s + t)[n..] == s[n..] + t;
  }

  lemma TakeDelimitedPrefix(s: seq<byte>, t: seq<byte>)
    requires TakeDelimited(s).Ok?
    ensures TakeDelimited(s + t) == Extend(TakeDelimited(s), t)
  {
    Varints.Decode32Prefix(s, t);
    var r := Varints.Decode32(s);
    TakePrefix(r.rest, r.value, t);
  }

  lemma SkipPrefix(wire: nat, s: seq<byte>, t: seq<byte>)
    requires Skip(wire, s).Ok?
    ensures Skip(wire, s + t) == Extend(Skip(wire, s), t)
  {
    if wire == WT_VARINT {
      Varints.SkipPrefix(s, t);
    } else if wire == WT_STRING {
      TakeDelimitedPrefix(s, t);
    } else {
      TakePrefix(s, if wire == WT_64BIT then 8 else 4, t);
    }
  }

  lemma BlobPrefix(f: Field, s: seq<byte>, t: seq<byte>)
    ensures ParseBytes(f, s).Ok? ==> ParseBytes(f, s + t) == Extend(ParseBytes(f, s), t)
    ensures ParseString(f, s).Ok? ==> ParseString(f, s + t) == Extend(ParseString(f, s), t)
    ensures ParseFixedLength(f, s).Ok? ==> ParseFixedLength(f, s + t) == Extend(ParseFixedLength(f, s), t)
  {
    var r := Varints.Decode32(s);
    if r.Ok? {
      Varints.Decode32Prefix(s, t);
      if r.value <= |r.rest| {
        TakePrefix(r.rest, r.value, t);
      }
    }
  }

  lemma ValuePrefix(f: Field, s: seq<byte>, prev: Value, t: seq<byte>)
    requires ParseValue(f, s, prev).Ok?
    ensures ParseValue(f, s + t, prev) == Extend(ParseValue(f, s, prev), t)
  {
    match f.ltype
    case Varint | UVarint | SVarint => Varints.DecodePrefix(s, t);
    case Fixed32 => TakePrefix(s, 4, t);
    case Fixed64 => TakePrefix(s, 8, t);
    case Bytes | String | FixedLengthBytes => BlobPrefix(f, s, t);
    case Submessage => TakeDelimitedPrefix(s, t);
  }

  lemma MemberPrefix(f: Field, wire: nat, s: seq<byte>, m: Struct, t: seq<byte>)
    requires ParseMember(f, wire, s, m).Ok?
    ensures ParseMember(f, wire, s + t, m) == Extend(ParseMember(f, wire, s, m), t)
  {
    match (f.htype, m[f.member])
    case (Repeated, Many(_)) =>
      if wire == WT_STRING && f.ltype.Packable() {
        TakeDelimitedPrefix(s, t);
      } else {
        ValuePrefix(f, s, Vacant, t);
      }
    case (Oneof, _) => ValuePrefix(f, s, DefaultValue(f), t);
    case (_, One(prev)) => ValuePrefix(f, s, prev, t);
    case (_, Opt(_, prev)) => ValuePrefix(f, s, prev, t);
    case _ =>
  }

  lemma TagPrefix(s: seq<byte>, t: seq<byte>)
    requires !ParseTag(s).BadTag?
    ensures match ParseTag(s)
            case ZeroTag(rest) => ParseTag(s + t) == ZeroTag(rest + t)
            case Tagged(tag, wire, rest) => ParseTag(s + t) == Tagged(tag, wire, rest + t)
  {
    Varints.Decode32Prefix(s, t);
  }

  // ----- The loop -----

  /** Where the loop stopped at the end of s it carries on into t; where it stopped at a zero tag it
      never looks at t. */
  lemma {:induction false} LoopOver(d: seq<Field>, s: seq<byte>, t: seq<byte>, m: Struct, seen: set<nat>)
    requires DecodeLoop(d, s, m, seen).Ok?
    ensures var r := DecodeLoop(d, s, m, seen);
            if r.value.zeroTag
            then DecodeLoop(d, s + t, m, seen) == Ok(r.value, r.rest + t)
            else r.rest == [] && DecodeLoop(d, s + t, m, seen) == DecodeLoop(d, t, r.value.m, r.value.seen)
    decreases |s|
  {
    if s == [] {
      assert s + t == t;
    } else {
      TagPrefix(s, t);
      match ParseTag(s)
      case ZeroTag(_) =>
      case Tagged(tag, wire, rest) =>
        match Find(d, tag)
        case None =>
          SkipPrefix(wire, rest, t);
          LoopOver(d, Skip(wire, rest).rest, t, m, seen);
        case Some(i) =>
          MemberPrefix(d[i], wire, rest, m, t);
          var r := ParseMember(d[i], wire, rest, m);
          LoopOver(d, r.rest, t, r.value, MarkSeen(d, i, seen));
    }
  }

  /** The required-field bits only accumulate; nothing else depends on them. */
  lemma {:induction false} SeenAccumulates(d: seq<Field>, s: seq<byte>, m: Struct, seen: set<nat>, more: set<nat>)
    requires DecodeLoop(d, s, m, seen).Ok?
    ensures var r := DecodeLoop(d, s, m, seen);
            DecodeLoop(d, s, m, seen + more) == Ok(r.value.(seen := r.value.seen + more), r.rest)
    decreases |s|
  {
    if s != [] {
      match ParseTag(s)
      case ZeroTag(_) =>
      case Tagged(tag, wire, rest) =>
        match Find(d, tag)
        case None => SeenAccumulates(d, Skip(wire, rest).rest, m, seen, more);
        case Some(i) =>
          var r := ParseMember(d[i], wire, rest, m);
          var seen' := MarkSeen(d, i, seen);
          SeenAccumulates(d, r.rest, r.value, seen', more);
          assert MarkSeen(d, i, seen + more) == seen' + more;
    }
  }

  /** Whatever is decoded, at least a byte of a non-empty stream is used up. */
  lemma {:induction false} LoopShrinks(d: seq<Field>, s: seq<byte>, m: Struct, seen: set<nat>)
    ensures DecodeLoop(d, s, m, seen).Ok? && s != [] ==> |DecodeLoop(d, s, m, seen).rest| < |s|
    decreases |s|
  {
    if s != [] {
      match ParseTag(s)
      case BadTag =>
      case ZeroTag(_) =>
      case Tagged(tag, wire, rest) =>
        match Find(d, tag)
        case None => if Skip(wire, rest).Ok? { LoopShrinks(d, Skip(wire, rest).rest, m, seen); }
        case Some(i) =>
          var r := ParseMember(d[i], wire, rest, m);
          if r.Ok? { LoopShrinks(d, r.rest, r.value, MarkSeen(d, i, seen)); }
    }
  }

  // ----- Zero tags in the input -----

  /** The wire type by which a field's payload is read: the one of its own type, or a packed array's. */
  function PayloadWire(f: Field, wire: nat): (w: nat) {
    if f.htype.Repeated? && wire == WT_STRING then WT_STRING else f.ltype.Wire()
  }

  /** A walk over the records of s, without decoding them: what follows the first zero tag, if there is one. */
  function AfterZeroTag(d: seq<Field>, s: seq<byte>): (r: Option<seq<byte>>)
    decreases |s|
  {
    if s == [] then None
    else
      match ParseTag(s)
      case BadTag => None
      case ZeroTag(rest) => Some(rest)
      case Tagged(tag, wire, rest) =>
        var i := Find(d, tag);
        match Skip(if i.Some? then PayloadWire(d[i.value], wire) else wire, rest)
        case Err => None
        case Ok(_, rest) => AfterZeroTag(d, rest)
  }

  /** However a field is decoded, it reads what skipping its payload would pass over. */
  lemma ValueReadsPayload(f: Field, s: seq<byte>, prev: Value)
    requires ParseValue(f, s, prev).Ok?
    ensures Skip(f.ltype.Wire(), s) == Ok((), ParseValue(f, s, prev).rest)
  {
  }

  lemma MemberReadsPayload(f: Field, wire: nat, s: seq<byte>, m: Struct)
    requires ParseMember(f, wire, s, m).Ok?
    ensures Skip(PayloadWire(f, wire), s) == Ok((), ParseMember(f, wire, s, m).rest)
  {
    match (f.htype, m[f.member])
    case (Required, One(prev)) => ValueReadsPayload(f, s, prev);
    case (Optional, One(prev)) => ValueReadsPayload(f, s, prev);
    case (Optional, Opt(_, prev)) => ValueReadsPayload(f, s, prev);
    case (Repeated, Many(_)) =>
      if wire != WT_STRING || !f.ltype.Packable() {
        ValueReadsPayload(f, s, Vacant);
      }
    case (Oneof, Pick(_, _)) => ValueReadsPayload(f, s, DefaultValue(f));
    case _ =>
  }

  /** Decoding that succeeds stops at a zero tag exactly when the walk meets one, and leaves what follows it. */
  lemma {:induction false} LoopStopsAtZero(d: seq<Field>, s: seq<byte>, m: Struct, seen: set<nat>)
    requires DecodeLoop(d, s, m, seen).Ok?
    ensures var r := DecodeLoop(d, s, m, seen);
            AfterZeroTag(d, s) == if r.value.zeroTag then Some(r.rest) else None
    ensures !DecodeLoop(d, s, m, seen).value.zeroTag ==> DecodeLoop(d, s, m, seen).rest == []
    decreases |s|
  {
    if s != [] {
      match ParseTag(s)
      case ZeroTag(_) =>
      case Tagged(tag, wire, rest) =>
        match Find(d, tag)
        case None => LoopStopsAtZero(d, Skip(wire, rest).rest, m, seen);
        case Some(i) =>
          MemberReadsPayload(d[i], wire, rest, m);
          var r := ParseMember(d[i], wire, rest, m);
          LoopStopsAtZero(d, r.rest, r.value, MarkSeen(d, i, seen));
    }
  }

  // ----- Main results -----

  /** Merge by concatenation: unless s1 has a zero tag, decoding s1 + s2 is decoding s1 and then s2. */
  lemma MergeByConcatenation(d: seq<Field>, s1: seq<byte>, s2: seq<byte>, m: Struct)
    requires DecodeNoInit(d, s1, m).Ok? && AfterZeroTag(d, s1).None?
    requires DecodeNoInit(d, s2, DecodeNoInit(d, s1, m).value).Ok?
    ensures DecodeNoInit(d, s1 + s2, m) == DecodeNoInit(d, s2, DecodeNoInit(d, s1, m).value)
  {
    LoopStopsAtZero(d, s1, m, {});
    LoopOver(d, s1, s2, m, {});
    var p := DecodeLoop(d, s1, m, {}).value;
    SeenAccumulates(d, s2, p.m, {}, p.seen);
    assert {} + p.seen == p.seen;
  }

  /** After a zero tag nothing is merged: the second message is left unread. */
  lemma NoMergeAfterZero(d: seq<Field>, s1: seq<byte>, s2: seq<byte>, m: Struct)
    requires DecodeNoInit(d, s1, m).Ok? && AfterZeroTag(d, s1).Some?
    ensures DecodeNoInit(d, s1 + s2, m) == Extend(DecodeNoInit(d, s1, m), s2)
    ensures DecodeNoInit(d, s1, m).rest == AfterZeroTag(d, s1).value
  {
    LoopStopsAtZero(d, s1, m, {});
    LoopOver(d, s1, s2, m, {});
  }

  /** When both decode one after the other, decoding the concatenation merges them exactly when no record of s1
      starts with a zero tag, or that tag is the last thing there is. */
  lemma MergesExactly(d: seq<Field>, s1: seq<byte>, s2: seq<byte>, m: Struct)
    requires DecodeNoInit(d, s1, m).Ok?
    requires DecodeNoInit(d, s2, DecodeNoInit(d, s1, m).value).Ok?
    ensures DecodeNoInit(d, s1 + s2, m) == DecodeNoInit(d, s2, DecodeNoInit(d, s1, m).value)
      <==> AfterZeroTag(d, s1).None? || AfterZeroTag(d, s1).value + s2 == []
  {
    var r := DecodeNoInit(d, s1, m);
    if AfterZeroTag(d, s1).None? {
      MergeByConcatenation(d, s1, s2, m);
    } else {
      NoMergeAfterZero(d, s1, s2, m);
      LoopShrinks(d, s2, r.value, {});
      assert r.rest + s2 == [] <==> r.rest == [] && s2 == [];
      assert |r.rest + s2| == |r.rest| + |s2|;
    }
  }

  /** The first message, kept apart by its zero tag, hides a field of the second. */
  lemma ZeroTagHidesField(f: Field)
    requires f.tag == 1 && f.ltype.UVarint? && f.htype.Optional? && f.sizeOffset != 0 && f.dataSize == 4
    requires f.initial == Num(0)
    ensures var m := Default([f]);
            && DecodeNoInit([f], [0], m) == Ok(m, [])
            && DecodeNoInit([f], [8, 7], m) == Ok(m[f.member := Opt(true, Num(7))], [])
            && DecodeNoInit([f], [0] + [8, 7], m) == Ok(m, [8, 7])
  {
    var d, m := [f], Default([f]);
    DefaultAt(d, map[], f);
    assert d[1..] == [];
    assert Varints.Decode32([8, 7]) == Ok(8, [7]);
    assert ([0] + [8, 7])[1..] == [8, 7];
    assert Varints.Decode([7]) == Ok(7, []) by {
      assert [7][..1] == [7] && Varints.Groups([7]) == 7 + 128 * Varints.Groups([7][1..]);
    }
    assert ParseMember(f, 0, [7], m) == Ok(m[f.member := Opt(true, Num(7))], []);
    assert RequiredBefore(d, 1) == RequiredBefore(d, 0);
  }
}

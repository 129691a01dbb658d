/** What merging yields: decoding an encoded message over a struct is a field-wise merge. */
module MergedMessages {
  import opened Words
  import opened Schema
  import opened WireEncoding
  import opened WireDecoding
  import opened WellFormedValues
  import opened RoundTrip
  import opened Compatibility
  import opened Merging

  // ----- Structs to merge into -----

  /** Each member is of its entry's kind, at every depth. */
  ghost predicate Shaped(d: seq<Field>, a: Struct)
    decreases d, 2
  {
    forall f | f in d :: f.member in a && ShapedSlot(f, a[f.member])
  }

  ghost predicate ShapedSlot(f: Field, s: Slot)
    decreases f, 1
  {
    match f.htype
    case Required => s.One? && ShapedValue(f, s.v)
    case Optional => if f.HasFlag() then s.Opt? && ShapedValue(f, s.v) else s.One? && ShapedValue(f, s.v)
    case Repeated => s.Many?
    case Oneof => s.Pick?
  }

  ghost predicate ShapedValue(f: Field, v: Value)
    decreases f, 0
  {
    f.ltype.Submessage? ==> v.Msg? && Shaped(f.sub, v.m)
  }

  // ----- The merge -----

  /** The last value wins, but submessages merge. */
  function MergeValue(f: Field, p: Value, v: Value): (r: Value)
    decreases f, 0
  {
    if f.ltype.Submessage? && p.Msg? && v.Msg? then Msg(MergeStruct(f.sub, p.m, v.m)) else v
  }

  /** Absent fields, and singular ones at their default, leave the slot; arrays append; a union is replaced. */
  function MergeSlot(f: Field, s: Slot, t: Slot): (r: Slot)
    decreases f, 1
  {
    match (s, t)
    case (One(p), One(v)) => if f.Singular() && IsDefaultValue(f, v) then s else One(MergeValue(f, p, v))
    case (Opt(_, p), Opt(has, v)) => if has then Opt(true, MergeValue(f, p, v)) else s
    case (Many(xs), Many(ys)) => Many(xs + ProjectItems(f, ys))
    case (Pick(_, _), Pick(which, v)) => if which == f.tag then Pick(which, ProjectValue(f, v)) else s
    case _ => s
  }

  function MergeMember(d: seq<Field>, k: nat, s: Slot, t: Slot): (r: Slot)
    decreases d, 0
  {
    if d == [] then s
    else if Holds(d[0], k, t) then MergeSlot(d[0], s, t)
    else MergeMember(d[1..], k, s, t)
  }

  function MergeStruct(d: seq<Field>, a: Struct, m: Struct): (r: Struct)
    ensures r.Keys == a.Keys
    decreases d, 1
  {
    map k | k in a :: if k in m then MergeMember(d, k, a[k], m[k]) else a[k]
  }

  /** Every array has room for what is appended, at every depth. */
  ghost predicate Fits(d: seq<Field>, a: Struct, m: Struct)
    decreases d, 2
  {
    forall f | f in d && f.member in a && f.member in m :: FitsSlot(f, a[f.member], m[f.member])
  }

  ghost predicate FitsSlot(f: Field, s: Slot, t: Slot)
    decreases f, 1
  {
    match (s, t)
    case (One(p), One(v)) => (f.Singular() && IsDefaultValue(f, v)) || FitsValue(f, p, v)
    case (Opt(_, p), Opt(has, v)) => has ==> FitsValue(f, p, v)
    case (Many(xs), Many(ys)) => ys == [] || |xs| + |ys| <= f.arraySize
    case _ => true
  }

  ghost predicate FitsValue(f: Field, p: Value, v: Value)
    decreases f, 0
  {
    f.ltype.Submessage? && p.Msg? && v.Msg? ==> Fits(f.sub, p.m, v.m)
  }

  // ----- One value -----

  lemma {:induction false} ValueMerges(f: Field, v: Value, t: seq<byte>, prev: Value)
    requires EntryOk(f) && ValidValue(f, v) && ShapedValue(f, prev) && !f.htype.Repeated?
    ensures EncodeValue(f, v).Some?
    ensures ParseValue(f, EncodeValue(f, v).value + t, prev)
         == if FitsValue(f, prev, v) then Ok(MergeValue(f, prev, v), t) else Err
    decreases f, 0
  {
    if f.ltype.Submessage? {
      DelimitedTaken(EncodeStruct(f.sub, v.m).value, t);
      MergesFieldwise(f.sub, prev.m, v.m);
    } else if f.ltype.Packable() {
      NumberRoundTrip(f, f, v, t, prev);
    } else {
      BlobRoundTrip(f, f, v, t, prev);
    }
  }

  /** A record whose payload its field cannot take ends decoding with an error. */
  lemma RecordFails(d: seq<Field>, i: nat, wire: nat, payload: seq<byte>, t: seq<byte>, st: Struct, seen: set<nat>)
    requires Distinct(d) && i < |d| && 1 <= d[i].tag <= MAX_TAG && wire < 8 && d[i].member in st
    requires ParseSlot(d[i], wire, payload + t, st[d[i].member]) == Err
    ensures DecodeLoop(d, Tag(d[i].tag, wire) + payload + t, st, seen) == Err
  {
    assert Tag(d[i].tag, wire) + payload + t == Tag(d[i].tag, wire) + (payload + t);
    TagParsed(d[i].tag, wire, payload + t);
    FindAt(d, i);
  }

  /** The slot a single value is read into, and what comes of it. */
  lemma {:induction false} TaggedMerges(d: seq<Field>, i: nat, v: Value, p: Value, s: Slot, t: seq<byte>,
                                        st: Struct, seen: set<nat>)
    requires WellFormed(d) && i < |d| && ValidValue(d[i], v) && d[i].member in st && ShapedValue(d[i], p)
    requires match (d[i].htype, st[d[i].member])
             case (Required, One(prev)) => p == prev && s == One(MergeValue(d[i], p, v))
             case (Optional, One(prev)) => d[i].Singular() && p == prev && s == One(MergeValue(d[i], p, v))
             case (Optional, Opt(_, prev)) => d[i].HasFlag() && p == prev && s == Opt(true, MergeValue(d[i], p, v))
             case _ => false
    ensures EncodeTagged(d[i], v).Some?
    ensures DecodeLoop(d, EncodeTagged(d[i], v).value + t, st, seen)
         == if FitsValue(d[i], p, v) then DecodeLoop(d, t, st[d[i].member := s], MarkSeen(d, i, seen)) else Err
    decreases d[i], 1
  {
    var f := d[i];
    assert EntryOk(f);
    ValueMerges(f, v, t, p);
    var payload := EncodeValue(f, v).value;
    if FitsValue(f, p, v) {
      ReadRecord(d, i, f.ltype.Wire(), payload, t, st, seen, s);
    } else {
      RecordFails(d, i, f.ltype.Wire(), payload, t, st, seen);
    }
  }

  // ----- Arrays -----

  /** Appending more than there is room for fails: in a packed array, ... */
  lemma {:induction false} PackedOverflows(f: Field, items: seq<Value>, done: seq<Value>)
    requires f.ltype.Packable() && items != [] && |done| + |items| > f.arraySize
    requires forall v | v in items :: ValidValue(f, v)
    ensures EncodePacked(f, items).Some? && ParsePacked(f, EncodePacked(f, items).value, done) == None
    decreases |items|
  {
    ItemsEncode(f, items);
    ItemsEncode(f, items[1..]);
    NumberRoundTrip(f, f, items[0], EncodePacked(f, items[1..]).value, Vacant);
    if |done| < f.arraySize {
      PackedOverflows(f, items[1..], done + [items[0]]);
    }
  }

  /** ... and in one that has a record for each item. */
  lemma {:induction false} EachOverflows(d: seq<Field>, i: nat, items: seq<Value>, done: seq<Value>, t: seq<byte>,
                                         st: Struct, seen: set<nat>)
    requires WellFormed(d) && i < |d| && d[i].htype.Repeated? && !d[i].ltype.Packable()
    requires items != [] && |done| + |items| > d[i].arraySize && forall v | v in items :: ValidValue(d[i], v)
    requires d[i].member in st && st[d[i].member] == Many(done)
    ensures EncodeEach(d[i], items).Some? && DecodeLoop(d, EncodeEach(d[i], items).value + t, st, seen) == Err
    decreases |items|
  {
    var f := d[i];
    assert EntryOk(f);
    RefinesItself(f);
    ItemsEncode(f, items);
    ItemsEncode(f, items[1..]);
    var head, tail := EncodeTagged(f, items[0]).value, EncodeEach(f, items[1..]).value;
    assert EncodeEach(f, items).value + t == head + (tail + t);
    if |done| < f.arraySize {
      var done' := done + [ProjectValue(f, items[0])];
      ItemRead(d, i, f, items[0], done, tail + t, st, seen);
      EachOverflows(d, i, items[1..], done', t, st[f.member := Many(done')], seen);
    } else {
      RecordFails(d, i, f.ltype.Wire(), EncodeValue(f, items[0]).value, tail + t, st, seen);
    }
  }

  lemma PackedMerges(d: seq<Field>, i: nat, xs: seq<Value>, ys: seq<Value>, t: seq<byte>, st: Struct, seen: set<nat>)
    requires WellFormed(d) && i < |d| && d[i].htype.Repeated? && d[i].ltype.Packable() && ys != []
    requires ValidSlot(d[i], Many(ys)) && d[i].member in st && st[d[i].member] == Many(xs)
    ensures EncodeArray(d[i], ys).Some?
    ensures DecodeLoop(d, EncodeArray(d[i], ys).value + t, st, seen)
         == if |xs| + |ys| <= d[i].arraySize
            then DecodeLoop(d, t, st[d[i].member := Many(xs + ProjectItems(d[i], ys))], seen)
            else Err
  {
    var f := d[i];
    assert EntryOk(f);
    ItemsEncode(f, ys);
    var body := EncodePacked(f, ys).value;
    DelimitedTaken(body, t);
    if |xs| + |ys| <= f.arraySize {
      PackedDecodes(f, f, ys, xs);
      ReadRecord(d, i, WT_STRING, Delimited(body), t, st, seen, Many(xs + ys));
    } else {
      PackedOverflows(f, ys, xs);
      RecordFails(d, i, WT_STRING, Delimited(body), t, st, seen);
    }
  }

  lemma {:induction false} ArrayMerges(d: seq<Field>, i: nat, xs: seq<Value>, ys: seq<Value>, t: seq<byte>,
                                       st: Struct, seen: set<nat>)
    requires WellFormed(d) && i < |d| && d[i].htype.Repeated?
    requires ValidSlot(d[i], Many(ys)) && d[i].member in st && st[d[i].member] == Many(xs)
    ensures EncodeArray(d[i], ys).Some?
    ensures DecodeLoop(d, EncodeArray(d[i], ys).value + t, st, seen)
         == if ys == [] || |xs| + |ys| <= d[i].arraySize
            then DecodeLoop(d, t, st[d[i].member := Many(xs + ProjectItems(d[i], ys))], seen)
            else Err
  {
    var f := d[i];
    assert EntryOk(f);
    ItemsEncode(f, ys);
    if ys == [] {
      assert [] + t == t && xs + [] == xs;
      assert st[f.member := Many(xs)] == st;
    } else if f.ltype.Packable() {
      PackedMerges(d, i, xs, ys, t, st, seen);
    } else if |xs| + |ys| <= f.arraySize {
      RefinesItself(f);
      EachDecodes(d, i, f, ys, xs, t, st, seen);
    } else {
      EachOverflows(d, i, ys, xs, t, st, seen);
    }
  }

  // ----- Fields and structs -----

  function MergeInto(f: Field, m: Struct, st: Struct): (r: Struct)
    requires f.member in m && f.member in st
    ensures r.Keys == st.Keys
  {
    st[f.member := MergeSlot(f, st[f.member], m[f.member])]
  }

  lemma {:induction false} FieldMerges(d: seq<Field>, i: nat, m: Struct, t: seq<byte>, st: Struct, seen: set<nat>)
    requires WellFormed(d) && i < |d| && d[i].member in m && ValidSlot(d[i], m[d[i].member])
    requires d[i].member in st && ShapedSlot(d[i], st[d[i].member])
    ensures EncodeField(d[i], m).Some?
    ensures DecodeLoop(d, EncodeField(d[i], m).value + t, st, seen)
         == if FitsSlot(d[i], st[d[i].member], m[d[i].member])
            then DecodeLoop(d, t, MergeInto(d[i], m, st), MarkSeen(d, i, seen)) else Err
    decreases d[i], 4
  {
    var f, s := d[i], st[d[i].member];
    ValidFieldEncodes(f, m);
    assert [] + t == t && st[f.member := s] == st;
    match m[f.member]
    case Many(ys) => ArrayMerges(d, i, s.items, ys, t, st, seen);
    case One(v) =>
      if !(f.Singular() && IsDefaultValue(f, v)) {
        TaggedMerges(d, i, v, s.v, One(MergeValue(f, s.v, v)), t, st, seen);
      }
    case Opt(has, v) =>
      if has {
        TaggedMerges(d, i, v, s.v, Opt(true, MergeValue(f, s.v, v)), t, st, seen);
      }
    case Pick(which, v) =>
      if which == f.tag {
        RefinesItself(f);
        assert EntryOk(f);
        TaggedRead(d, i, f, v, t, st, seen, Pick(f.tag, ProjectValue(f, v)));
      }
  }

  function MergeAll(r: seq<Field>, m: Struct, st: Struct): (st': Struct)
    requires Members(r) <= m.Keys && Members(r) <= st.Keys
    ensures st'.Keys == st.Keys
    decreases r
  {
    if r == [] then st
    else
      assert r == [r[0]] + r[1..];
      MergeAll(r[1..], m, MergeInto(r[0], m, st))
  }

  ghost predicate FitsAll(r: seq<Field>, m: Struct, st: Struct)
    requires Members(r) <= m.Keys && Members(r) <= st.Keys
    decreases r
  {
    r == [] ||
    (assert r == [r[0]] + r[1..];
     FitsSlot(r[0], st[r[0].member], m[r[0].member]) && FitsAll(r[1..], m, MergeInto(r[0], m, st)))
  }

  /** Merging one field leaves what the others find of the right kind. */
  lemma MergeKeepsShape(r: seq<Field>, m: Struct, st: Struct)
    requires Distinct(r) && r != [] && EachValid(r, m) && Shaped(r, st)
    ensures r[0] in r && r[0].member in m && r[0].member in st
    ensures Distinct(r[1..]) && EachValid(r[1..], m) && Shaped(r[1..], MergeInto(r[0], m, st))
    ensures Members(r) == {r[0].member} + Members(r[1..])
  {
    Tail(r);
    var st' := MergeInto(r[0], m, st);
    assert ValidSlot(r[0], m[r[0].member]);
    forall f | f in r[1..]
      ensures f.member in st' && ShapedSlot(f, st'[f.member])
    {
      assert f in r && Apart(r[0], f);
    }
  }

  lemma {:induction false} FieldsMerge(d: seq<Field>, r: seq<Field>, m: Struct, st: Struct, seen: set<nat>)
    requires WellFormed(d) && Distinct(r) && (forall f | f in r :: f in d)
    requires EachValid(r, m) && Shaped(r, st) && Members(r) <= m.Keys && Members(r) <= st.Keys
    ensures EncodeStruct(r, m).Some?
    ensures DecodeLoop(d, EncodeStruct(r, m).value, st, seen)
         == if FitsAll(r, m, st) then Ok(Progress(MergeAll(r, m, st), MarkAll(d, r, seen), false), []) else Err
    decreases r, 0
  {
    ValidEncodes(r, m);
    if r != [] {
      var f, tail := r[0], EncodeStruct(r[1..], m).value;
      MergeKeepsShape(r, m, st);
      var i :| 0 <= i < |d| && d[i] == f;
      FindAt(d, i);
      assert ValidSlot(f, m[f.member]);
      FieldMerges(d, i, m, tail, st, seen);
      if FitsSlot(f, st[f.member], m[f.member]) {
        FieldsMerge(d, r[1..], m, MergeInto(f, m, st), MarkSeen(d, i, seen));
      }
    }
  }

  // ----- The struct the fields add up to -----

  lemma {:induction false} NotMerged(r: seq<Field>, m: Struct, st: Struct, k: nat)
    requires Members(r) <= m.Keys && Members(r) <= st.Keys && k in st && k in m
    requires forall f | f in r :: !Holds(f, k, m[k])
    ensures MergeAll(r, m, st)[k] == st[k]
    decreases r
  {
    if r != [] {
      assert r == [r[0]] + r[1..] && r[0] in r && forall f | f in r[1..] :: f in r;
      NotMerged(r[1..], m, MergeInto(r[0], m, st), k);
    }
  }

  lemma {:induction false} MergedAt(r: seq<Field>, m: Struct, st: Struct, k: nat)
    requires Distinct(r) && EachValid(r, m) && Members(r) <= m.Keys && Members(r) <= st.Keys && k in st && k in m
    ensures MergeAll(r, m, st)[k] == MergeMember(r, k, st[k], m[k])
    decreases r
  {
    if r != [] {
      Tail(r);
      var st' := MergeInto(r[0], m, st);
      assert EachValid(r[1..], m) && ValidSlot(r[0], m[r[0].member]);
      if Holds(r[0], k, m[k]) {
        forall f | f in r[1..]
          ensures !Holds(f, k, m[k])
        {
          assert Apart(r[0], f);
        }
        NotMerged(r[1..], m, st', k);
      } else {
        MergedAt(r[1..], m, st', k);
      }
    }
  }

  lemma {:induction false} NotAMember(r: seq<Field>, m: Struct, st: Struct, k: nat)
    requires Members(r) <= m.Keys && Members(r) <= st.Keys && k in st && k !in Members(r)
    ensures MergeAll(r, m, st)[k] == st[k]
    decreases r
  {
    if r != [] {
      assert r == [r[0]] + r[1..];
      NotAMember(r[1..], m, MergeInto(r[0], m, st), k);
    }
  }

  /** What one field leaves does not decide whether another fits. */
  lemma {:induction false} FitsEach(r: seq<Field>, m: Struct, st: Struct)
    requires Distinct(r) && EachValid(r, m) && Members(r) <= m.Keys && Members(r) <= st.Keys
    ensures FitsAll(r, m, st) <==> forall f | f in r :: FitsSlot(f, st[f.member], m[f.member])
    decreases r
  {
    if r != [] {
      Tail(r);
      var st' := MergeInto(r[0], m, st);
      assert EachValid(r[1..], m) && r[0] in r;
      FitsEach(r[1..], m, st');
      forall f | f in r[1..]
        ensures FitsSlot(f, st'[f.member], m[f.member]) <==> FitsSlot(f, st[f.member], m[f.member])
      {
        assert f in r && Apart(r[0], f) && ValidSlot(f, m[f.member]);
      }
    }
  }

  // ----- Main results -----

  /** Decoding an encoded message over a struct merges it in field by field: the last value of a scalar wins,
      arrays append, submessages merge, and a union is replaced. It fails exactly when an array has no room. */
  lemma {:induction false} MergesFieldwise(d: seq<Field>, a: Struct, m: Struct)
    requires WellFormed(d) && Valid(d, m) && Shaped(d, a)
    ensures EncodeStruct(d, m).Some?
    ensures DecodeNoInit(d, EncodeStruct(d, m).value, a) == if Fits(d, a, m) then Ok(MergeStruct(d, a, m), []) else Err
    decreases d, 3
  {
    FieldsMerge(d, d, m, a, {});
    FitsExactly(d, m, a);
    NarrowerItself(d);
    AllRequiredMarked(d, d);
    MergedExactly(d, m, a);
  }

  lemma FitsExactly(d: seq<Field>, m: Struct, a: Struct)
    requires WellFormed(d) && Valid(d, m) && Shaped(d, a) && Members(d) <= a.Keys
    ensures FitsAll(d, m, a) <==> Fits(d, a, m)
  {
    FitsEach(d, m, a);
    assert forall f | f in d :: f.member in Members(d);
  }

  lemma MergedExactly(d: seq<Field>, m: Struct, a: Struct)
    requires WellFormed(d) && Valid(d, m) && Members(d) <= a.Keys
    ensures MergeAll(d, m, a) == MergeStruct(d, a, m)
  {
    var r := MergeStruct(d, a, m);
    forall k | k in a
      ensures MergeAll(d, m, a)[k] == r[k]
    {
      if k in m {
        MergedAt(d, m, a, k);
      } else {
        NotAMember(d, m, a, k);
      }
    }
  }

  /** An encoded message has no zero tag, for any descriptor that lacks some of its fields; so it always merges. */
  lemma EncodedHasNoZeroTag(e: seq<Field>, d: seq<Field>, m: Struct)
    requires WellFormed(e) && WellFormed(d) && Narrower(e, d) && Valid(d, m)
    ensures EncodeStruct(d, m).Some? && AfterZeroTag(e, EncodeStruct(d, m).value).None?
  {
    NarrowerMatches(e, d);
    forall g | g in e
      ensures Default(e)[g.member] == DefaultSlot(g)
    {
      DefaultAt(e, map[], g);
    }
    FieldsDecode(e, d, m, Default(e), {});
    LoopStopsAtZero(e, EncodeStruct(d, m).value, Default(e), {});
  }

  lemma {:induction false} DefaultShaped(d: seq<Field>)
    requires WellFormed(d)
    ensures Shaped(d, Default(d))
    decreases d
  {
    forall f | f in d
      ensures f.member in Default(d) && ShapedSlot(f, Default(d)[f.member])
    {
      DefaultAt(d, map[], f);
      assert EntryOk(f);
      if f.ltype.Submessage? {
        DefaultShaped(f.sub);
      }
    }
  }

  lemma {:induction false} ProjectedShaped(d: seq<Field>, m: Struct)
    requires WellFormed(d) && Valid(d, m)
    ensures Shaped(d, Project(d, m))
    decreases d
  {
    forall f | f in d
      ensures f.member in Project(d, m) && ShapedSlot(f, Project(d, m)[f.member])
    {
      var s := m[f.member];
      assert EntryOk(f) && ValidSlot(f, s);
      if f.htype.Oneof? {
        UnionProjects(d, m, f);
      } else {
        ProjectMemberAt(d, f.member, s, f);
        ProjectedSlotShaped(f, s);
      }
    }
  }

  lemma {:induction false} ProjectedSlotShaped(f: Field, s: Slot)
    requires EntryOk(f) && ValidSlot(f, s) && !f.htype.Oneof?
    ensures ShapedSlot(f, ProjectSlot(f, s))
    decreases f
  {
    if f.ltype.Submessage? {
      DefaultShaped(f.sub);
      match s
      case One(v) => ProjectedShaped(f.sub, v.m);
      case Opt(has, v) => if has { ProjectedShaped(f.sub, v.m); }
      case Many(_) =>
    }
  }

  /** Decoding two encoded messages written one after the other gives the first with the second merged in, or
      fails exactly when some array has no room for both. */
  lemma ConcatenationMerges(d: seq<Field>, m1: Struct, m2: Struct)
    requires WellFormed(d) && Valid(d, m1) && Valid(d, m2)
    ensures EncodeStruct(d, m1).Some? && EncodeStruct(d, m2).Some?
    ensures var a := Project(d, m1);
            Decode(d, EncodeStruct(d, m1).value + EncodeStruct(d, m2).value)
            == if Fits(d, a, m2) then Ok(MergeStruct(d, a, m2), []) else Err
  {
    NarrowerItself(d);
    ForwardCompatibility(d, d, m1);
    ProjectedShaped(d, m1);
    EncodedHasNoZeroTag(d, d, m1);
    ValidEncodes(d, m2);
    MergeBehind(d, EncodeStruct(d, m1).value, EncodeStruct(d, m2).value, Project(d, m1), m2);
  }

  /** A message behind bytes that decode to a and have no zero tag is merged into a. */
  lemma MergeBehind(d: seq<Field>, s1: seq<byte>, s2: seq<byte>, a: Struct, m: Struct)
    requires WellFormed(d) && Valid(d, m) && Shaped(d, a) && EncodeStruct(d, m) == Some(s2)
    requires Decode(d, s1) == Ok(a, []) && AfterZeroTag(d, s1).None?
    ensures Decode(d, s1 + s2) == if Fits(d, a, m) then Ok(MergeStruct(d, a, m), []) else Err
  {
    MergesFieldwise(d, a, m);
    if Fits(d, a, m) {
      MergeByConcatenation(d, s1, s2, Default(d));
    } else {
      LoopStopsAtZero(d, s1, Default(d), {});
      LoopOver(d, s1, s2, Default(d), {});
      FieldsMerge(d, d, m, a, DecodeLoop(d, s1, Default(d), {}).value.seen);
      FitsExactly(d, m, a);
    }
  }
}

/** Forward compatibility of the wire format, with the message round trip as its special case. */
module Compatibility {
  import opened Words
  import opened Schema
  import opened WireEncoding
  import opened WireDecoding
  import opened WellFormedValues
  import opened RoundTrip
  import Varints

  // ----- One record -----

  lemma TagParsed(tag: nat, wire: nat, rest: seq<byte>)
    requires 1 <= tag <= MAX_TAG && wire < 8
    ensures ParseTag(Tag(tag, wire) + rest) == Tagged(tag, wire, rest)
  {
    Varints.Decode32InvertsEncode(tag * 8 + wire, rest);
  }

  lemma ReadRecord(e: seq<Field>, i: nat, wire: nat, payload: seq<byte>, t: seq<byte>,
                   st: Struct, seen: set<nat>, slot: Slot)
    requires Distinct(e) && i < |e| && 1 <= e[i].tag <= MAX_TAG && wire < 8 && e[i].member in st
    requires ParseSlot(e[i], wire, payload + t, st[e[i].member]) == Ok(slot, t)
    ensures DecodeLoop(e, Tag(e[i].tag, wire) + payload + t, st, seen)
         == DecodeLoop(e, t, st[e[i].member := slot], MarkSeen(e, i, seen))
  {
    var s := Tag(e[i].tag, wire) + (payload + t);
    assert Tag(e[i].tag, wire) + payload + t == s;
    TagParsed(e[i].tag, wire, payload + t);
    FindAt(e, i);
  }

  lemma SkipRecord(e: seq<Field>, tag: nat, wire: nat, payload: seq<byte>, t: seq<byte>, st: Struct, seen: set<nat>)
    requires Find(e, tag).None? && 1 <= tag <= MAX_TAG && wire < 8
    requires Skip(wire, payload + t) == Ok((), t)
    ensures DecodeLoop(e, Tag(tag, wire) + payload + t, st, seen) == DecodeLoop(e, t, st, seen)
  {
    var s := Tag(tag, wire) + (payload + t);
    assert Tag(tag, wire) + payload + t == s;
    TagParsed(tag, wire, payload + t);
  }

  // ----- Values -----

  lemma {:induction false} ValueDecodes(g: Field, f: Field, v: Value, t: seq<byte>, prev: Value)
    requires Refines(g, f) && EntryOk(g) && EntryOk(f) && ValidValue(f, v)
    requires f.ltype.Submessage? ==> g.htype.Repeated? || prev == Msg(Default(g.sub))
    ensures EncodeValue(f, v).Some?
    ensures ParseValue(g, EncodeValue(f, v).value + t, prev) == Ok(ProjectValue(g, v), t)
    decreases f, 0
  {
    if f.ltype.Submessage? {
      DelimitedTaken(EncodeStruct(f.sub, v.m).value, t);
      ForwardCompatibility(g.sub, f.sub, v.m);
    } else if f.ltype.Packable() {
      NumberRoundTrip(g, f, v, t, prev);
    } else {
      BlobRoundTrip(g, f, v, t, prev);
    }
  }

  lemma PackedItem(g: Field, f: Field, v: Value, s: seq<byte>, done: seq<Value>)
    requires f.ltype.Packable() && g.ltype == f.ltype && g.dataSize == f.dataSize && ValidValue(f, v)
    requires |done| < g.arraySize
    ensures EncodeValue(f, v).Some?
    ensures ParsePacked(g, EncodeValue(f, v).value + s, done) == ParsePacked(g, s, done + [v])
  {
    NumberRoundTrip(g, f, v, s, Vacant);
  }

  lemma {:induction false} PackedParses(g: Field, f: Field, items: seq<Value>, done: seq<Value>)
    requires f.ltype.Packable() && g.ltype == f.ltype && g.dataSize == f.dataSize
    requires forall v | v in items :: ValidValue(f, v)
    requires |done| + |items| <= g.arraySize
    ensures EncodePacked(f, items).Some?
    ensures ParsePacked(g, EncodePacked(f, items).value, done) == Some(done + items)
    decreases |items|
  {
    ItemsEncode(f, items);
    if items == [] {
      assert done + items == done;
    } else {
      var v, rest := items[0], items[1..];
      ItemsEncode(f, rest);
      PackedItem(g, f, v, EncodePacked(f, rest).value, done);
      PackedParses(g, f, rest, done + [v]);
      assert done + [v] + rest == done + items;
    }
  }

  lemma {:induction false} PackedProjects(g: Field, items: seq<Value>)
    requires g.ltype.Packable()
    ensures ProjectItems(g, items) == items
  {
    if items != [] {
      PackedProjects(g, items[1..]);
      assert [items[0]] + items[1..] == items;
    }
  }

  lemma PackedDecodes(g: Field, f: Field, items: seq<Value>, done: seq<Value>)
    requires f.ltype.Packable() && g.ltype == f.ltype && g.dataSize == f.dataSize
    requires forall v | v in items :: ValidValue(f, v)
    requires |done| + |items| <= g.arraySize
    ensures EncodePacked(f, items).Some?
    ensures ParsePacked(g, EncodePacked(f, items).value, done) == Some(done + items)
    ensures ProjectItems(g, items) == items
  {
    PackedParses(g, f, items, done);
    PackedProjects(g, items);
  }

  lemma {:induction false} ItemRead(e: seq<Field>, i: nat, f: Field, v: Value, done: seq<Value>,
                                    t: seq<byte>, st: Struct, seen: set<nat>)
    requires WellFormed(e) && i < |e| && Refines(e[i], f) && EntryOk(f) && ValidValue(f, v)
    requires f.htype.Repeated? && !f.ltype.Packable()
    requires |done| < f.arraySize && e[i].member in st && st[e[i].member] == Many(done)
    ensures EncodeTagged(f, v).Some?
    ensures DecodeLoop(e, EncodeTagged(f, v).value + t, st, seen)
         == DecodeLoop(e, t, st[e[i].member := Many(done + [ProjectValue(e[i], v)])], seen)
    decreases f, 1
  {
    assert EntryOk(e[i]);
    ValueDecodes(e[i], f, v, t, Vacant);
    ReadRecord(e, i, f.ltype.Wire(), EncodeValue(f, v).value, t, st, seen, Many(done + [ProjectValue(e[i], v)]));
  }

  lemma {:induction false} EachDecodes(e: seq<Field>, i: nat, f: Field, items: seq<Value>, done: seq<Value>,
                                       t: seq<byte>, st: Struct, seen: set<nat>)
    requires WellFormed(e) && i < |e| && Refines(e[i], f) && EntryOk(f)
    requires f.htype.Repeated? && !f.ltype.Packable()
    requires forall v | v in items :: ValidValue(f, v)
    requires |done| + |items| <= f.arraySize && e[i].member in st && st[e[i].member] == Many(done)
    ensures EncodeEach(f, items).Some?
    ensures DecodeLoop(e, EncodeEach(f, items).value + t, st, seen)
         == DecodeLoop(e, t, st[e[i].member := Many(done + ProjectItems(e[i], items))], seen)
    decreases f, 2, |items|
  {
    var g := e[i];
    if items == [] {
      assert done + [] == done && [] + t == t;
      assert st[g.member := Many(done)] == st;
    } else {
      var done' := done + [ProjectValue(g, items[0])];
      var st' := st[g.member := Many(done')];
      ItemsEncode(f, items);
      var head, tail := EncodeTagged(f, items[0]).value, EncodeEach(f, items[1..]).value;
      calc {
        DecodeLoop(e, EncodeEach(f, items).value + t, st, seen);
        { assert head + tail + t == head + (tail + t); }
        DecodeLoop(e, head + (tail + t), st, seen);
        { ItemRead(e, i, f, items[0], done, tail + t, st, seen); }
        DecodeLoop(e, tail + t, st', seen);
        { EachDecodes(e, i, f, items[1..], done', t, st', seen); }
        DecodeLoop(e, t, st'[g.member := Many(done' + ProjectItems(g, items[1..]))], seen);
        {
          assert done' + ProjectItems(g, items[1..]) == done + ProjectItems(g, items);
          var all := Many(done + ProjectItems(g, items));
          assert st'[g.member := all] == st[g.member := all];
        }
        DecodeLoop(e, t, st[g.member := Many(done + ProjectItems(g, items))], seen);
      }
    }
  }

  lemma {:induction false} EachSkipped(e: seq<Field>, f: Field, items: seq<Value>, t: seq<byte>,
                                       st: Struct, seen: set<nat>)
    requires Find(e, f.tag).None? && EntryOk(f) && forall v | v in items :: ValidValue(f, v)
    ensures EncodeEach(f, items).Some?
    ensures DecodeLoop(e, EncodeEach(f, items).value + t, st, seen) == DecodeLoop(e, t, st, seen)
    decreases |items|
  {
    if items == [] {
      assert [] + t == t;
    } else {
      EachSkipped(e, f, items[1..], t, st, seen);
      var head, tail := EncodeTagged(f, items[0]), EncodeEach(f, items[1..]).value;
      TaggedDropped(e, f, items[0], tail + t, st, seen);
      assert head.value + tail + t == head.value + (tail + t);
    }
  }

  // ----- Fields -----

  /** What reading field f of m with entry g does to the struct. */
  function Deliver(g: Field, m: Struct, st: Struct): (r: Struct)
    ensures g.member in st ==> r.Keys == st.Keys
  {
    if g.member in m && Holds(g, g.member, m[g.member]) then st[g.member := ProjectSlot(g, m[g.member])] else st
  }

  lemma {:induction false} FieldDropped(e: seq<Field>, f: Field, m: Struct, t: seq<byte>, st: Struct, seen: set<nat>)
    requires Find(e, f.tag).None? && EntryOk(f) && f.member in m && ValidSlot(f, m[f.member])
    ensures EncodeField(f, m).Some?
    ensures DecodeLoop(e, EncodeField(f, m).value + t, st, seen) == DecodeLoop(e, t, st, seen)
  {
    ValidFieldEncodes(f, m);
    assert [] + t == t;
    match m[f.member]
    case Many(items) =>
      ItemsEncode(f, items);
      if f.ltype.Packable() {
        DelimitedTaken(EncodePacked(f, items).value, t);
        SkipRecord(e, f.tag, WT_STRING, Delimited(EncodePacked(f, items).value), t, st, seen);
      } else {
        EachSkipped(e, f, items, t, st, seen);
      }
    case One(v) => TaggedDropped(e, f, v, t, st, seen);
    case Opt(has, v) => if has { TaggedDropped(e, f, v, t, st, seen); }
    case Pick(which, v) => if which == f.tag { TaggedDropped(e, f, v, t, st, seen); }
  }

  lemma TaggedBytes(f: Field, v: Value)
    requires EncodeValue(f, v).Some?
    ensures EncodeTagged(f, v) == Some(Tag(f.tag, f.ltype.Wire()) + EncodeValue(f, v).value)
  {
  }

  lemma TaggedDropped(e: seq<Field>, f: Field, v: Value, t: seq<byte>, st: Struct, seen: set<nat>)
    requires Find(e, f.tag).None? && EntryOk(f) && ValidValue(f, v)
    ensures EncodeTagged(f, v).Some?
    ensures DecodeLoop(e, EncodeTagged(f, v).value + t, st, seen) == DecodeLoop(e, t, st, seen)
  {
    SkipPayload(f, v, t);
    TaggedBytes(f, v);
    SkipRecord(e, f.tag, f.ltype.Wire(), EncodeValue(f, v).value, t, st, seen);
  }

  lemma {:induction false} TaggedRead(e: seq<Field>, i: nat, f: Field, v: Value, t: seq<byte>,
                                      st: Struct, seen: set<nat>, slot: Slot)
    requires WellFormed(e) && i < |e| && Refines(e[i], f) && EntryOk(f) && ValidValue(f, v)
    requires e[i].member in st
    requires match (f.htype, st[e[i].member])
             case (Required, One(prev)) => prev == DefaultValue(e[i]) && slot == One(ProjectValue(e[i], v))
             case (Optional, One(prev)) =>
               !f.HasFlag() && prev == DefaultValue(e[i]) && slot == One(ProjectValue(e[i], v))
             case (Optional, Opt(_, prev)) =>
               f.HasFlag() && prev == DefaultValue(e[i]) && slot == Opt(true, ProjectValue(e[i], v))
             case (Oneof, Pick(_, _)) => slot == Pick(f.tag, ProjectValue(e[i], v))
             case _ => false
    ensures EncodeTagged(f, v).Some?
    ensures DecodeLoop(e, EncodeTagged(f, v).value + t, st, seen)
         == DecodeLoop(e, t, st[e[i].member := slot], MarkSeen(e, i, seen))
    decreases f, 1
  {
    var g := e[i];
    assert EntryOk(g);
    ValueDecodes(g, f, v, t, DefaultValue(g));
    ReadRecord(e, i, f.ltype.Wire(), EncodeValue(f, v).value, t, st, seen, slot);
  }

  /** A singular value judged default projects to the default it is given when absent. */
  lemma {:induction false} DefaultProjects(g: Field, f: Field, v: Value)
    requires Refines(g, f) && EntryOk(g) && EntryOk(f) && g.Singular() && ValidValue(f, v) && IsDefaultValue(f, v)
    ensures ProjectValue(g, v) == DefaultValue(g)
    decreases f, 1
  {
    match f.ltype
    case Submessage =>
      SubmessageDefaultIffEmpty(f, v);
      ForwardCompatibility(g.sub, f.sub, v.m);
    case _ =>
  }

  lemma {:induction false} FieldRead(e: seq<Field>, i: nat, f: Field, m: Struct, t: seq<byte>,
                                     st: Struct, seen: set<nat>)
    requires WellFormed(e) && i < |e| && Refines(e[i], f) && EntryOk(f)
    requires f.member in m && ValidSlot(f, m[f.member])
    requires f.member in st
    requires if f.htype.Oneof? then st[f.member].Pick? else st[f.member] == DefaultSlot(e[i])
    ensures EncodeField(f, m).Some?
    ensures DecodeLoop(e, EncodeField(f, m).value + t, st, seen)
         == DecodeLoop(e, t, Deliver(e[i], m, st), MarkSeen(e, i, seen))
    decreases f, 4
  {
    var g := e[i];
    assert EntryOk(g);
    ValidFieldEncodes(f, m);
    assert [] + t == t;
    match m[f.member]
    case Many(items) => ArrayRead(e, i, f, items, t, st, seen);
    case One(v) =>
      if f.htype.Optional? && IsDefault(f, m) {
        DefaultProjects(g, f, v);
        assert st[f.member := DefaultSlot(g)] == st;
      } else {
        TaggedRead(e, i, f, v, t, st, seen, One(ProjectValue(g, v)));
      }
    case Opt(has, v) =>
      if has {
        TaggedRead(e, i, f, v, t, st, seen, Opt(true, ProjectValue(g, v)));
      } else {
        assert st[f.member := DefaultSlot(g)] == st;
      }
    case Pick(which, v) =>
      if which == f.tag {
        TaggedRead(e, i, f, v, t, st, seen, Pick(f.tag, ProjectValue(g, v)));
      }
  }

  lemma PackedRead(e: seq<Field>, i: nat, f: Field, items: seq<Value>, t: seq<byte>, st: Struct, seen: set<nat>)
    requires WellFormed(e) && i < |e| && Refines(e[i], f) && EntryOk(f)
    requires f.htype.Repeated? && f.ltype.Packable() && ValidSlot(f, Many(items)) && items != []
    requires f.member in st && st[f.member] == Many([])
    ensures EncodeArray(f, items).Some?
    ensures DecodeLoop(e, EncodeArray(f, items).value + t, st, seen)
         == DecodeLoop(e, t, st[f.member := Many(ProjectItems(e[i], items))], seen)
  {
    var g := e[i];
    assert EntryOk(g);
    ItemsEncode(f, items);
    PackedDecodes(g, f, items, []);
    assert [] + items == items;
    var body := EncodePacked(f, items).value;
    DelimitedTaken(body, t);
    ReadRecord(e, i, WT_STRING, Delimited(body), t, st, seen, Many(items));
  }

  lemma {:induction false} ArrayRead(e: seq<Field>, i: nat, f: Field, items: seq<Value>, t: seq<byte>,
                                     st: Struct, seen: set<nat>)
    requires WellFormed(e) && i < |e| && Refines(e[i], f) && EntryOk(f)
    requires f.htype.Repeated? && ValidSlot(f, Many(items))
    requires f.member in st && st[f.member] == Many([])
    ensures EncodeArray(f, items).Some?
    ensures DecodeLoop(e, EncodeArray(f, items).value + t, st, seen)
         == DecodeLoop(e, t, st[f.member := Many(ProjectItems(e[i], items))], seen)
    decreases f, 3
  {
    var g := e[i];
    assert EntryOk(g);
    ItemsEncode(f, items);
    if items == [] {
      assert [] + t == t;
      assert st[f.member := Many([])] == st;
    } else if f.ltype.Packable() {
      PackedRead(e, i, f, items, t, st, seen);
    } else {
      EachDecodes(e, i, f, items, [], t, st, seen);
      assert [] + ProjectItems(g, items) == ProjectItems(g, items);
    }
  }

  // ----- Structs -----

  /** Reading the fields r of m, in order, into st. */
  function DeliverAll(e: seq<Field>, r: seq<Field>, m: Struct, st: Struct): (st': Struct) {
    if r == [] then st
    else match Find(e, r[0].tag)
         case None => DeliverAll(e, r[1..], m, st)
         case Some(i) => DeliverAll(e, r[1..], m, Deliver(e[i], m, st))
  }

  function MarkAll(e: seq<Field>, r: seq<Field>, seen: set<nat>): (seen': set<nat>)
    ensures seen <= seen'
  {
    if r == [] then seen
    else match Find(e, r[0].tag)
         case None => MarkAll(e, r[1..], seen)
         case Some(i) => MarkAll(e, r[1..], MarkSeen(e, i, seen))
  }

  /** Entries of e with a tag of r refine the entry of r. */
  ghost predicate Matches(e: seq<Field>, r: seq<Field>) {
    forall g, f | g in e && f in r && g.tag == f.tag :: Refines(g, f)
  }

  lemma NarrowerMatches(e: seq<Field>, d: seq<Field>)
    requires Narrower(e, d) && Distinct(d)
    ensures Matches(e, d)
  {
    forall g, f | g in e && f in d && g.tag == f.tag
      ensures Refines(g, f)
    {
      var h :| h in d && Refines(g, h);
      SameTag(d, f, h);
    }
  }

  lemma SameTag(d: seq<Field>, f: Field, h: Field)
    requires Distinct(d) && f in d && h in d && f.tag == h.tag
    ensures f == h
  {
    var i :| 0 <= i < |d| && d[i] == f;
    var j :| 0 <= j < |d| && d[j] == h;
    FindAt(d, i);
    FindAt(d, j);
  }

  /** What the fields still to be read find in the struct. */
  ghost predicate Fresh(e: seq<Field>, r: seq<Field>, st: Struct) {
    forall g, f | g in e && f in r && g.tag == f.tag ::
      g.member in st && if g.htype.Oneof? then st[g.member].Pick? else st[g.member] == DefaultSlot(g)
  }

  lemma {:induction false} FieldStep(e: seq<Field>, f: Field, m: Struct, t: seq<byte>, st: Struct, seen: set<nat>)
    requires WellFormed(e) && EntryOk(f) && f.member in m && ValidSlot(f, m[f.member])
    requires Matches(e, [f]) && Fresh(e, [f], st)
    ensures EncodeField(f, m).Some?
    ensures DecodeLoop(e, EncodeField(f, m).value + t, st, seen)
         == match Find(e, f.tag)
            case None => DecodeLoop(e, t, st, seen)
            case Some(i) => DecodeLoop(e, t, Deliver(e[i], m, st), MarkSeen(e, i, seen))
    decreases f, 5
  {
    match Find(e, f.tag)
    case None => FieldDropped(e, f, m, t, st, seen);
    case Some(i) =>
      assert e[i] in e && f in [f];
      assert Refines(e[i], f);
      FieldRead(e, i, f, m, t, st, seen);
  }

  lemma {:induction false} FieldsDecode(e: seq<Field>, r: seq<Field>, m: Struct, st: Struct, seen: set<nat>)
    requires WellFormed(e) && Distinct(r) && Matches(e, r) && Fresh(e, r, st)
    requires EachValid(r, m) && forall f | f in r :: EntryOk(f)
    ensures EncodeStruct(r, m).Some?
    ensures DecodeLoop(e, EncodeStruct(r, m).value, st, seen)
         == Ok(Progress(DeliverAll(e, r, m, st), MarkAll(e, r, seen), false), [])
    decreases r, 0
  {
    ValidEncodes(r, m);
    if r != [] {
      var f, tail := r[0], EncodeStruct(r[1..], m).value;
      SplitFields(e, r, m, st);
      assert EncodeStruct(r, m).value == EncodeField(f, m).value + tail;
      FieldStep(e, f, m, tail, st, seen);
      match Find(e, f.tag)
      case None =>
        FieldsDecode(e, r[1..], m, st, seen);
      case Some(i) =>
        FieldsDecode(e, r[1..], m, Deliver(e[i], m, st), MarkSeen(e, i, seen));
    }
  }

  lemma SplitFields(e: seq<Field>, r: seq<Field>, m: Struct, st: Struct)
    requires Distinct(r) && r != [] && Matches(e, r) && Fresh(e, r, st) && EachValid(r, m)
    ensures r[0] in r && (forall f | f in r[1..] :: f in r) && Distinct(r[1..]) && EachValid(r[1..], m)
    ensures Matches(e, [r[0]]) && Fresh(e, [r[0]], st) && Matches(e, r[1..])
    ensures match Find(e, r[0].tag)
            case None => Fresh(e, r[1..], st)
            case Some(i) => Fresh(e, r[1..], Deliver(e[i], m, st))
  {
    Tail(r);
    var i := Find(e, r[0].tag);
    if i.Some? {
      StaysFresh(e, r, i.value, m, st);
    }
  }

  lemma StaysFresh(e: seq<Field>, r: seq<Field>, i: nat, m: Struct, st: Struct)
    requires Distinct(r) && r != [] && Matches(e, r) && Fresh(e, r, st) && i < |e| && e[i].tag == r[0].tag
    requires r[0].member in m && ValidSlot(r[0], m[r[0].member])
    ensures Fresh(e, r[1..], Deliver(e[i], m, st))
  {
    Tail(r);
    assert e[i] in e && r[0] in r && Refines(e[i], r[0]);
    forall g, f | g in e && f in r[1..] && g.tag == f.tag
      ensures var st' := Deliver(e[i], m, st);
              g.member in st' && if g.htype.Oneof? then st'[g.member].Pick? else st'[g.member] == DefaultSlot(g)
    {
      assert f in r && Refines(g, f) && Apart(r[0], f);
    }
  }

  // ----- The struct the fields add up to -----

  /** Does reading f of m write member k? */
  predicate Writes(e: seq<Field>, f: Field, m: Struct, k: nat) {
    var i := Find(e, f.tag);
    i.Some? && k in m && Holds(e[i.value], k, m[k])
  }

  lemma {:induction false} NotWritten(e: seq<Field>, r: seq<Field>, m: Struct, st: Struct, k: nat)
    requires k in st && forall f | f in r :: !Writes(e, f, m, k)
    ensures k in DeliverAll(e, r, m, st) && DeliverAll(e, r, m, st)[k] == st[k]
    decreases r
  {
    if r != [] {
      assert r[0] in r && forall f | f in r[1..] :: f in r;
      match Find(e, r[0].tag)
      case None => NotWritten(e, r[1..], m, st, k);
      case Some(i) => NotWritten(e, r[1..], m, Deliver(e[i], m, st), k);
    }
  }

  lemma {:induction false} Written(e: seq<Field>, r: seq<Field>, m: Struct, st: Struct, k: nat, i: nat, f: Field)
    requires Distinct(r) && Matches(e, r) && k in st
    requires f in r && Find(e, f.tag) == Some(i) && k in m && Holds(e[i], k, m[k]) && ValidSlot(f, m[k])
    ensures k in DeliverAll(e, r, m, st) && DeliverAll(e, r, m, st)[k] == ProjectSlot(e[i], m[k])
    decreases r
  {
    Tail(r);
    assert e[i] in e && Refines(e[i], f);
    if r[0] == f {
      var st' := Deliver(e[i], m, st);
      forall h | h in r[1..]
        ensures !Writes(e, h, m, k)
      {
        OnlyWriter(e, r, m, k, i, f, h);
      }
      NotWritten(e, r[1..], m, st', k);
    } else {
      match Find(e, r[0].tag)
      case None => Written(e, r[1..], m, st, k, i, f);
      case Some(j) => Written(e, r[1..], m, Deliver(e[j], m, st), k, i, f);
    }
  }

  lemma OnlyWriter(e: seq<Field>, r: seq<Field>, m: Struct, k: nat, i: nat, f: Field, h: Field)
    requires Matches(e, r) && f in r && h in r && Apart(f, h)
    requires Find(e, f.tag) == Some(i) && k in m && Holds(e[i], k, m[k]) && ValidSlot(f, m[k])
    ensures !Writes(e, h, m, k)
  {
    assert e[i] in e && Refines(e[i], f);
    var j := Find(e, h.tag);
    if j.Some? {
      assert e[j.value] in e && Refines(e[j.value], h);
    }
  }

  lemma {:induction false} MarkedAll(e: seq<Field>, r: seq<Field>, seen: set<nat>, i: nat, f: Field)
    requires f in r && Find(e, f.tag) == Some(i) && e[i].htype.Required?
    requires RequiredBefore(e, i) < PB_MAX_REQUIRED_FIELDS
    ensures RequiredBefore(e, i) in MarkAll(e, r, seen)
    decreases r
  {
    if r[0] != f {
      assert f in r[1..];
      match Find(e, r[0].tag)
      case None => MarkedAll(e, r[1..], seen, i, f);
      case Some(j) => MarkedAll(e, r[1..], MarkSeen(e, j, seen), i, f);
    }
  }

  /** The position of required field number k. */
  lemma {:induction false} RequiredAt(d: seq<Field>, n: nat, k: nat) returns (i: nat)
    requires n <= |d| && k < RequiredBefore(d, n)
    ensures i < n && d[i].htype.Required? && RequiredBefore(d, i) == k
  {
    if RequiredBefore(d, n - 1) == k {
      i := n - 1;
    } else {
      i := RequiredAt(d, n - 1, k);
    }
  }

  lemma AllRequiredMarked(e: seq<Field>, d: seq<Field>)
    requires Distinct(e) && Narrower(e, d)
    ensures RequiredSeen(e, MarkAll(e, d, {}))
  {
    forall k | 0 <= k < RequiredBefore(e, |e|) && k < PB_MAX_REQUIRED_FIELDS
      ensures k in MarkAll(e, d, {})
    {
      var i := RequiredAt(e, |e|, k);
      assert e[i] in e;
      var f :| f in d && Refines(e[i], f);
      FindAt(e, i);
      MarkedAll(e, d, {}, i, f);
    }
  }

  lemma MembersCovered(e: seq<Field>, d: seq<Field>, m: Struct)
    requires Narrower(e, d) && EachValid(d, m)
    ensures Members(e) <= m.Keys
  {
    forall g | g in e
      ensures g.member in m
    {
      var f :| f in d && Refines(g, f);
    }
  }

  lemma DeliveredIsProjection(e: seq<Field>, d: seq<Field>, m: Struct)
    requires Distinct(e) && Distinct(d) && Narrower(e, d) && EachValid(d, m)
    ensures DeliverAll(e, d, m, Default(e)) == Project(e, m)
  {
    NarrowerMatches(e, d);
    MembersCovered(e, d, m);
    var st := DeliverAll(e, d, m, Default(e));
    DeliverKeys(e, d, m, Default(e));
    forall k | k in Members(e)
      ensures st[k] == ProjectMember(e, k, m[k])
    {
      MemberDelivered(e, d, m, k);
    }
  }

  lemma {:induction false} DeliverKeys(e: seq<Field>, r: seq<Field>, m: Struct, st: Struct)
    requires Members(e) <= st.Keys
    ensures DeliverAll(e, r, m, st).Keys == st.Keys
    decreases r
  {
    if r != [] {
      match Find(e, r[0].tag)
      case None => DeliverKeys(e, r[1..], m, st);
      case Some(i) =>
        assert e[i] in e;
        DeliverKeys(e, r[1..], m, Deliver(e[i], m, st));
    }
  }

  lemma MemberDelivered(e: seq<Field>, d: seq<Field>, m: Struct, k: nat)
    requires Distinct(e) && Distinct(d) && Narrower(e, d) && Matches(e, d) && EachValid(d, m)
    requires k in Members(e) && k in m
    ensures var st := DeliverAll(e, d, m, Default(e)); k in st && st[k] == ProjectMember(e, k, m[k])
  {
    if g :| g in e && Holds(g, k, m[k]) {
      var i :| 0 <= i < |e| && e[i] == g;
      var f :| f in d && Refines(g, f);
      FindAt(e, i);
      assert ValidSlot(f, m[k]);
      Written(e, d, m, Default(e), k, i, f);
      ProjectMemberAt(e, k, m[k], g);
    } else {
      ProjectMemberUnset(e, k, m[k]);
      var g :| g in e && g.member == k;
      var f :| f in d && Refines(g, f);
      assert ValidSlot(f, m[k]);
      DefaultAt(e, map[], g);
      forall h | h in d
        ensures !Writes(e, h, m, k)
      {
        var j := Find(e, h.tag);
        assert j.Some? ==> e[j.value] in e;
      }
      NotWritten(e, d, m, Default(e), k);
    }
  }

  // ----- Main results -----

  /** Forward compatibility: a descriptor e that lacks some fields of d, at any depth, decodes what d
      encoded to exactly the projection of the value on e's fields. */
  lemma {:induction false} ForwardCompatibility(e: seq<Field>, d: seq<Field>, m: Struct)
    requires WellFormed(e) && WellFormed(d) && Narrower(e, d) && Valid(d, m)
    ensures EncodeStruct(d, m).Some?
    ensures Decode(e, EncodeStruct(d, m).value) == Ok(Project(e, m), [])
    decreases d, 1
  {
    NarrowerMatches(e, d);
    forall g | g in e
      ensures Default(e)[g.member] == DefaultSlot(g)
    {
      DefaultAt(e, map[], g);
    }
    FieldsDecode(e, d, m, Default(e), {});
    DeliveredIsProjection(e, d, m);
    AllRequiredMarked(e, d);
  }

  // ----- The round trip -----

  /** v and w are the same value, up to content that is absent. */
  ghost predicate AgreeValue(f: Field, v: Value, w: Value)
    decreases f, 0
  {
    if f.ltype.Submessage? then v.Msg? && w.Msg? && Agree(f.sub, v.m, w.m) else v == w
  }

  ghost predicate AgreeSlot(f: Field, s: Slot, t: Slot)
    decreases f, 1
  {
    match (s, t)
    case (One(v), One(w)) => AgreeValue(f, v, w)
    case (Opt(has, v), Opt(has', w)) => has == has' && (has ==> AgreeValue(f, v, w))
    case (Many(vs), Many(ws)) => |vs| == |ws| && forall i | 0 <= i < |vs| :: AgreeValue(f, vs[i], ws[i])
    case (Pick(which, v), Pick(which', w)) => which == which' && (which == f.tag ==> AgreeValue(f, v, w))
    case _ => false
  }

  ghost predicate Agree(d: seq<Field>, m: Struct, r: Struct)
    decreases d, 2
  {
    forall f | f in d :: f.member in m && f.member in r && AgreeSlot(f, m[f.member], r[f.member])
  }

  lemma {:induction false} RefinesItself(f: Field)
    ensures Refines(f, f)
    decreases f, 0
  {
    NarrowerItself(f.sub);
  }

  lemma {:induction false} NarrowerItself(d: seq<Field>)
    ensures Narrower(d, d)
    decreases d, 1
  {
    forall g | g in d
      ensures exists f :: f in d && Refines(g, f)
    {
      RefinesItself(g);
    }
  }

  lemma {:induction false} ProjectedItem(f: Field, items: seq<Value>, i: nat)
    requires i < |items|
    ensures ProjectItems(f, items)[i] == ProjectValue(f, items[i])
  {
    if i > 0 {
      ProjectedItem(f, items[1..], i - 1);
    }
  }

  lemma {:induction false} ProjectionAgreesOnValue(f: Field, v: Value)
    requires EntryOk(f) && ValidValue(f, v)
    ensures AgreeValue(f, v, ProjectValue(f, v))
    decreases f, 0
  {
    if f.ltype.Submessage? {
      ProjectionAgrees(f.sub, v.m);
    }
  }

  lemma {:induction false} ProjectionAgreesOnSlot(f: Field, s: Slot)
    requires EntryOk(f) && ValidSlot(f, s) && (s.Pick? ==> s.which == f.tag)
    ensures AgreeSlot(f, s, ProjectSlot(f, s))
    decreases f, 1
  {
    match s
    case One(v) => ProjectionAgreesOnValue(f, v);
    case Opt(has, v) => if has { ProjectionAgreesOnValue(f, v); }
    case Many(items) =>
      forall i | 0 <= i < |items|
        ensures AgreeValue(f, items[i], ProjectItems(f, items)[i])
      {
        ProjectionAgreesOnValue(f, items[i]);
        ProjectedItem(f, items, i);
      }
    case Pick(_, v) => ProjectionAgreesOnValue(f, v);
  }

  lemma {:induction false} ProjectionAgrees(d: seq<Field>, m: Struct)
    requires WellFormed(d) && Valid(d, m)
    ensures Agree(d, m, Project(d, m))
    decreases d, 2
  {
    forall f | f in d
      ensures f.member in m && AgreeSlot(f, m[f.member], Project(d, m)[f.member])
    {
      var s := m[f.member];
      assert ValidSlot(f, s);
      if s.Pick? && s.which != f.tag {
        UnionProjects(d, m, f);
      } else {
        ProjectionAgreesOnSlot(f, s);
        ProjectMemberAt(d, f.member, s, f);
      }
    }
  }

  lemma UnionProjects(d: seq<Field>, m: Struct, f: Field)
    requires WellFormed(d) && Valid(d, m) && f in d && m[f.member].Pick?
    ensures var r := ProjectMember(d, f.member, m[f.member]); r.Pick? && r.which == m[f.member].which
  {
    assert ValidSlot(f, m[f.member]);
    var w := m[f.member].which;
    if g :| g in d && Holds(g, f.member, m[f.member]) {
      SharedMember(d, f, g);
      ProjectMemberAt(d, f.member, m[f.member], g);
    } else {
      ProjectMemberUnset(d, f.member, m[f.member]);
    }
  }

  /** Message round trip: pb_decode of what pb_encode wrote succeeds, uses it up, and returns the value
      up to the contents of absent fields. */
  lemma MessageRoundTrip(d: seq<Field>, m: Struct) returns (r: Struct)
    requires WellFormed(d) && Valid(d, m)
    ensures EncodeStruct(d, m).Some?
    ensures Decode(d, EncodeStruct(d, m).value) == Ok(r, [])
    ensures Agree(d, m, r)
  {
    NarrowerItself(d);
    ForwardCompatibility(d, d, m);
    ProjectionAgrees(d, m);
    r := Project(d, m);
  }

  // ----- Values that agree encode alike -----

  lemma {:induction false} AgreeSameDefault(f: Field, m: Struct, r: Struct)
    requires f.member in m && f.member in r && AgreeSlot(f, m[f.member], r[f.member])
    ensures IsDefault(f, m) == IsDefault(f, r)
    decreases f
  {
    match (m[f.member], r[f.member])
    case (One(v), One(w)) =>
      if f.ltype.Submessage? {
        AgreeAllDefault(f.sub, v.m, w.m);
        assert IsDefaultValue(f, v) == IsDefaultValue(f, w);
      }
    case (Many(vs), Many(ws)) => assert vs == [] <==> ws == [];
    case _ =>
  }

  lemma {:induction false} AgreeAllDefault(d: seq<Field>, m: Struct, r: Struct)
    requires Agree(d, m, r)
    ensures AllDefault(d, m) == AllDefault(d, r)
    decreases d
  {
    if d != [] {
      assert d[0] in d && forall f | f in d[1..] :: f in d;
      AgreeSameDefault(d[0], m, r);
      AgreeAllDefault(d[1..], m, r);
    }
  }

  lemma {:induction false} AgreeSameValue(f: Field, v: Value, w: Value)
    requires AgreeValue(f, v, w)
    ensures EncodeValue(f, v) == EncodeValue(f, w)
    decreases f, 0
  {
    if f.ltype.Submessage? {
      AgreeSameEncoding(f.sub, v.m, w.m);
    }
  }

  lemma {:induction false} AgreeSameItems(f: Field, vs: seq<Value>, ws: seq<Value>)
    requires |vs| == |ws| && forall i | 0 <= i < |vs| :: AgreeValue(f, vs[i], ws[i])
    ensures EncodePacked(f, vs) == EncodePacked(f, ws) && EncodeEach(f, vs) == EncodeEach(f, ws)
    decreases f, 1, |vs|
  {
    if vs != [] {
      AgreeSameValue(f, vs[0], ws[0]);
      AgreeSameItems(f, vs[1..], ws[1..]);
    }
  }

  lemma {:induction false} AgreeSameField(f: Field, m: Struct, r: Struct)
    requires f.member in m && f.member in r && AgreeSlot(f, m[f.member], r[f.member])
    ensures EncodeField(f, m) == EncodeField(f, r)
    decreases f, 2
  {
    match (m[f.member], r[f.member])
    case (One(v), One(w)) =>
      AgreeSameValue(f, v, w);
      AgreeSameDefault(f, m, r);
    case (Opt(has, v), Opt(_, w)) => if has { AgreeSameValue(f, v, w); }
    case (Many(vs), Many(ws)) => AgreeSameItems(f, vs, ws);
    case (Pick(which, v), Pick(_, w)) => if which == f.tag { AgreeSameValue(f, v, w); }
  }

  /** The encoder cannot tell values that agree apart; so re-encoding a decoded message gives the same bytes. */
  lemma {:induction false} AgreeSameEncoding(d: seq<Field>, m: Struct, r: Struct)
    requires Agree(d, m, r)
    ensures EncodeStruct(d, m) == EncodeStruct(d, r)
    decreases d, 3
  {
    if d != [] {
      assert d[0] in d && forall f | f in d[1..] :: f in d;
      AgreeSameField(d[0], m, r);
      AgreeSameEncoding(d[1..], m, r);
    }
  }
}

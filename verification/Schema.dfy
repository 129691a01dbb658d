/** Message descriptors (pb_field_t arrays) and the C structs they describe, as field stores. */
module Schema {
  import opened Words

  /** PB_LTYPE_*, in the order of their codes, without PB_LTYPE_EXTENSION. */
  datatype LType = Varint | UVarint | SVarint | Fixed32 | Fixed64 | Bytes | String | Submessage | FixedLengthBytes {
    /** LTYPE <= PB_LTYPE_LAST_PACKABLE. */
    predicate Packable() {
      Varint? || UVarint? || SVarint? || Fixed32? || Fixed64?
    }

    /** The wire type pb_encode_tag_for_field gives each type. */
    function Wire(): (w: nat)
      ensures w in {0, 1, 2, 5}
    {
      match this
      case Varint | UVarint | SVarint => WT_VARINT
      case Fixed32 => WT_32BIT
      case Fixed64 => WT_64BIT
      case _ => WT_STRING
    }
  }

  const WT_VARINT := 0
  const WT_64BIT := 1
  const WT_STRING := 2
  const WT_32BIT := 5

  datatype HType = Required | Optional | Repeated | Oneof

  /** One pb_field_t. `sub` and `initial` are the two readings of its `ptr`; `initial` is the zero value
      when `ptr` is null. `member` names the struct member the entry describes: the members of a
      union share it. */
  datatype Field = Field(
    tag: nat, ltype: LType, htype: HType,
    dataOffset: nat, sizeOffset: int, dataSize: nat, arraySize: nat,
    sub: seq<Field>, initial: Value, member: nat)
  {
    /** A has_ flag: OPTIONAL with size_offset set. Without it the field is a proto3 singular field. */
    predicate HasFlag() {
      htype.Optional? && sizeOffset != 0
    }

    predicate Singular() {
      htype.Optional? && sizeOffset == 0
    }

    predicate IntegerSize() {
      dataSize in {1, 2, 4, 8}
    }
  }

  /** A value in a struct. Vacant is the content of a union whose which_ is zero. */
  datatype Value = Vacant | Num(n: int) | Blob(b: seq<byte>) | Msg(m: Struct)

  /** A struct member: a bare value, a value with its has_ flag, the counted part of an array,
      or a union with its which_. */
  datatype Slot = One(v: Value) | Opt(has: bool, v: Value) | Many(items: seq<Value>) | Pick(which: nat, v: Value)

  type Struct = map<nat, Slot>

  const PB_SIZE_MAX: int := TWO_32 - 1
  /** offsetof(pb_bytes_array_t, bytes) */
  const BYTES_OFFSET := 4
  const PB_MAX_REQUIRED_FIELDS := 64
  const MAX_TAG := 0x1FFF_FFFF

  function Zero(f: Field): (v: Value) {
    match f.ltype
    case Bytes | String => Blob([])
    case FixedLengthBytes => Blob(Zeros(f.dataSize))
    case _ => Num(0)
  }

  function Zeros(n: nat): (s: seq<byte>)
    ensures |s| == n
  {
    seq(n, _ => 0)
  }

  function Members(d: seq<Field>): (ks: set<nat>) {
    set f | f in d :: f.member
  }

  // ----- pb_message_set_to_defaults -----

  function DefaultValue(f: Field): (v: Value)
    decreases f, 0
  {
    if f.ltype.Submessage? then Msg(Default(f.sub)) else f.initial
  }

  function DefaultSlot(f: Field): (s: Slot)
    decreases f, 1
  {
    match f.htype
    case Required => One(DefaultValue(f))
    case Optional => if f.HasFlag() then Opt(false, DefaultValue(f)) else One(DefaultValue(f))
    case Repeated => Many([])
    case Oneof => Pick(0, Vacant)
  }

  function SetDefaults(d: seq<Field>, m: Struct): (r: Struct)
    ensures r.Keys == m.Keys + Members(d)
    decreases d, 0
  {
    if d == [] then m
    else
      assert d == [d[0]] + d[1..];
      SetDefaults(d[1..], m[d[0].member := DefaultSlot(d[0])])
  }

  function Default(d: seq<Field>): (r: Struct)
    ensures r.Keys == Members(d)
    decreases d, 1
  {
    SetDefaults(d, map[])
  }

  // ----- Well-formed descriptors -----

  /** A field array the iterator can walk: at every depth tags are distinct, and only the terminator's is zero. */
  ghost predicate Descriptor(d: seq<Field>)
    decreases d
  {
    Distinct(d) && forall f | f in d :: f.tag > 0 && (f.ltype.Submessage? ==> Descriptor(f.sub))
  }

  /** What the generator guarantees of each entry, and of every descriptor below it. */
  ghost predicate EntryOk(f: Field)
    decreases f, 0
  {
    && 1 <= f.tag <= MAX_TAG
    && f.dataSize <= PB_SIZE_MAX && f.arraySize <= PB_SIZE_MAX
    && (f.htype.Repeated? || f.htype.Oneof? ==> f.sizeOffset != 0)
    && (f.ltype.Varint? || f.ltype.UVarint? || f.ltype.SVarint? ==> f.IntegerSize())
    && (f.Singular() && !f.ltype.Submessage? ==> f.initial == Zero(f))
    && (f.ltype.Submessage? ==> WellFormed(f.sub))
  }

  ghost predicate WellFormed(d: seq<Field>)
    decreases d, 1
  {
    && Distinct(d)
    && (forall f | f in d :: EntryOk(f))
  }

  /** Distinct tags, and one entry for each member that is not a union. */
  ghost predicate Distinct(d: seq<Field>) {
    forall i, j | 0 <= i < j < |d| :: Apart(d[i], d[j])
  }

  predicate Apart(f: Field, g: Field) {
    f.tag != g.tag && (f.member == g.member ==> f.htype.Oneof? && g.htype.Oneof?)
  }

  lemma Tail(d: seq<Field>)
    requires Distinct(d) && d != []
    ensures Distinct(d[1..])
    ensures Members(d) == {d[0].member} + Members(d[1..])
    ensures forall f | f in d :: f == d[0] || f in d[1..]
    ensures forall f | f in d[1..] :: f in d && Apart(d[0], f)
  {
    assert d == [d[0]] + d[1..];
  }

  lemma {:induction false} SetDefaultsElsewhere(d: seq<Field>, m: Struct, k: nat)
    requires k in m && k !in Members(d)
    ensures SetDefaults(d, m)[k] == m[k]
    decreases d
  {
    if d != [] {
      assert d == [d[0]] + d[1..];
      SetDefaultsElsewhere(d[1..], m[d[0].member := DefaultSlot(d[0])], k);
    }
  }

  /** Every member of a well-formed descriptor starts at its own entry's default. */
  lemma {:induction false} DefaultAt(d: seq<Field>, m: Struct, f: Field)
    requires Distinct(d) && f in d
    ensures SetDefaults(d, m)[f.member] == DefaultSlot(f)
    decreases d
  {
    Tail(d);
    var rest, m' := d[1..], m[d[0].member := DefaultSlot(d[0])];
    if f in rest {
      DefaultAt(rest, m', f);
    } else if f.member in Members(rest) {
      var h :| h in rest && h.member == f.member;
      DefaultAt(rest, m', h);
      UnionDefault(f, h);
    } else {
      SetDefaultsElsewhere(rest, m', f.member);
    }
  }

  lemma UnionDefault(f: Field, h: Field)
    requires Apart(f, h) && f.member == h.member
    ensures DefaultSlot(f) == DefaultSlot(h)
  {
  }

  lemma {:induction false} WellFormedIsDescriptor(d: seq<Field>)
    requires WellFormed(d)
    ensures Descriptor(d)
    decreases d
  {
    forall f | f in d
      ensures f.tag > 0 && (f.ltype.Submessage? ==> Descriptor(f.sub))
    {
      assert EntryOk(f);
      if f.ltype.Submessage? {
        WellFormedIsDescriptor(f.sub);
      }
    }
  }

  /** Setting defaults forgets what the members held before. */
  lemma SetDefaultsForgets(d: seq<Field>, m: Struct)
    requires Distinct(d) && m.Keys <= Members(d)
    ensures SetDefaults(d, m) == Default(d)
  {
    forall k | k in Members(d)
      ensures SetDefaults(d, m)[k] == Default(d)[k]
    {
      var f :| f in d && f.member == k;
      DefaultAt(d, m, f);
      DefaultAt(d, map[], f);
    }
  }
}

/** The cyclic walk over a descriptor (pb_field_iter_t), with its address arithmetic. */
module FieldIterator {
  import opened Schema
  import opened WireDecoding

  /** Is entry i a further member of the union that entry i - 1 belongs to? */
  predicate InsideUnion(d: seq<Field>, i: nat)
    requires 0 < i < |d|
  {
    d[i - 1].htype.Oneof? && d[i].htype.Oneof? && d[i].dataOffset == PB_SIZE_MAX
  }

  /** Bytes an entry takes in the struct. */
  function Extent(f: Field): (n: nat) {
    if f.htype.Repeated? then f.dataSize * f.arraySize else f.dataSize
  }

  /** Where a walk from the first entry finds the data of entry i, in a struct at address base. */
  function DataAt(d: seq<Field>, base: int, i: nat): (a: int)
    requires i < |d|
  {
    if i == 0 then base + d[0].dataOffset
    else if InsideUnion(d, i) then DataAt(d, base, i - 1)
    else DataAt(d, base, i - 1) + Extent(d[i - 1]) + d[i].dataOffset
  }

  /** Where it finds the count, has_ flag or which_ of entry i. */
  function SizeAt(d: seq<Field>, base: int, i: nat): (a: int)
    requires i < |d|
  {
    if i > 0 && InsideUnion(d, i) then SizeAt(d, base, i - 1) else DataAt(d, base, i) + d[i].sizeOffset
  }

  /** Only the terminator, which pos |d| stands for, has tag zero. */
  predicate PositiveTags(d: seq<Field>) {
    forall f | f in d :: f.tag > 0
  }

  class FieldIter {
    const start: seq<Field>
    const destStruct: int
    var pos: nat
    var requiredFieldIndex: nat
    var pData: int
    var pSize: int

    /** Every pointer is what a fresh walk to pos would compute. */
    ghost predicate Valid()
      reads this
    {
      && PositiveTags(start)
      && if start == [] then pos == 0 && requiredFieldIndex == 0 else
           && pos < |start|
           && requiredFieldIndex == RequiredBefore(start, pos)
           && pData == DataAt(start, destStruct, pos)
           && pSize == SizeAt(start, destStruct, pos)
    }

    constructor (fields: seq<Field>, dest: int)
      requires PositiveTags(fields)
      ensures Valid() && start == fields && destStruct == dest && pos == 0
    {
      start := fields;
      destStruct := dest;
      pos := 0;
      requiredFieldIndex := 0;
      pData := if fields == [] then dest else dest + fields[0].dataOffset;
      pSize := if fields == [] then dest else dest + fields[0].dataOffset + fields[0].sizeOffset;
    }

    /** pb_field_iter_begin on the iterator's own fields. */
    method Begin()
      requires PositiveTags(start)
      modifies this
      ensures Valid() && pos == 0
    {
      pos := 0;
      requiredFieldIndex := 0;
      if start != [] {
        pData := destStruct + start[0].dataOffset;
        pSize := pData + start[0].sizeOffset;
      }
    }

    /** pb_field_iter_next: false on wrapping back to the first entry. */
    method Next() returns (more: bool)
      requires Valid()
      modifies this
      ensures Valid()
      ensures more <==> old(pos) + 1 < |start|
      ensures pos == if more then old(pos) + 1 else 0
    {
      if start == [] {
        return false;
      }
      var prev := start[pos];
      pos := pos + 1;
      if pos == |start| {
        Begin();
        return false;
      }
      var field := start[pos];
      if prev.htype.Oneof? && field.htype.Oneof? && field.dataOffset == PB_SIZE_MAX {
        return true;
      }
      var prevSize := prev.dataSize;
      if prev.htype.Repeated? {
        prevSize := prevSize * prev.arraySize;
      }
      if prev.htype.Required? {
        requiredFieldIndex := requiredFieldIndex + 1;
      }
      pData := pData + prevSize + field.dataOffset;
      pSize := pData + field.sizeOffset;
      return true;
    }

    /** pb_field_iter_find: from any position, an entry with the tag is found exactly when there is one.
        On an empty message type the iterator stands on the terminator and finds tag zero. */
    method FindTag(tag: nat) returns (found: bool)
      requires Valid()
      modifies this
      ensures Valid()
      ensures found <==> (exists f :: f in start && f.tag == tag) || (start == [] && tag == 0)
      ensures found && start != [] ==> start[pos].tag == tag
      ensures !found ==> pos == old(pos)
    {
      if start == [] {
        return tag == 0;
      }
      var first := pos;
      ghost var wrapped := false;
      while true
        invariant Valid()
        invariant if wrapped then pos < first else first <= pos
        invariant forall i | first <= i < (if wrapped then |start| else pos) :: start[i].tag != tag
        invariant wrapped ==> forall i | 0 <= i < pos :: start[i].tag != tag
        decreases !wrapped, |start| - pos
      {
        if start[pos].tag == tag {
          return true;
        }
        var more := Next();
        wrapped := wrapped || !more;
        if pos == first {
          return false;
        }
      }
    }
  }
}

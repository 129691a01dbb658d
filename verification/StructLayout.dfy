/** The iterator's addresses against the C struct layout. */
module StructLayout {
  import opened Words
  import opened Schema
  import opened FieldIterator

  /** The items an entry has room for. */
  function Items(f: Field): (n: nat) {
    if f.htype.Repeated? then f.arraySize else 1
  }

  /** The size of an entry's member. */
  function MemberSize(f: Field): (n: nat) {
    Items(f) * f.dataSize
  }

  lemma ExtentIsMemberSize(f: Field)
    ensures Extent(f) == MemberSize(f)
  {
  }

  /** The macro that gave an entry its data_offset (pb.h). */
  datatype Placement = First | Other | Union

  /** The entries are those that the macros compute for a struct whose member for entry i is at offset at[i], and whose
      count, has_ flag or which_ for it is at offset countAt[i]. A first member's data_offset is its offset in the
      struct, that of any other counts from the end of the member before it, and a further member of a union, which
      shares place and which_ with the one before it, only carries a mark that no offset can have. */
  ghost predicate ComputedFrom(d: seq<Field>, ps: seq<Placement>, at: seq<int>, countAt: seq<int>) {
    |ps| == |at| == |countAt| == |d| && forall i | 0 <= i < |d| :: EntryComputed(d, ps, at, countAt, i)
  }

  predicate EntryComputed(d: seq<Field>, ps: seq<Placement>, at: seq<int>, countAt: seq<int>, i: nat)
    requires |ps| == |at| == |countAt| == |d| && i < |d|
  {
    && d[i].sizeOffset == countAt[i] - at[i]
    && match ps[i]
       case First => i == 0 && d[i].dataOffset == at[i]
       case Other =>
         i > 0 && d[i].dataOffset == at[i] - at[i - 1] - MemberSize(d[i - 1]) && d[i].dataOffset < 0xFFFF_FFFF
       case Union =>
         && i > 0 && at[i] == at[i - 1] && countAt[i] == countAt[i - 1]
         && d[i - 1].htype.Oneof? && d[i].htype.Oneof? && d[i].dataOffset == 0xFFFF_FFFF
  }

  /** The walk finds every member, and its count, has_ flag or which_, where the compiler put it. */
  lemma {:induction false} WalkFindsMembers(d: seq<Field>, ps: seq<Placement>, base: int, at: seq<int>,
                                            countAt: seq<int>, i: nat)
    requires ComputedFrom(d, ps, at, countAt) && i < |d|
    ensures DataAt(d, base, i) == base + at[i] && SizeAt(d, base, i) == base + countAt[i]
  {
    assert EntryComputed(d, ps, at, countAt, i);
    if i > 0 {
      WalkFindsMembers(d, ps, base, at, countAt, i - 1);
      ExtentIsMemberSize(d[i - 1]);
    }
  }

  /** Entries i to j belong to one union. */
  predicate OneUnion(d: seq<Field>, i: nat, j: nat)
    requires i <= j < |d|
  {
    forall k | i < k <= j :: InsideUnion(d, k)
  }

  /** The members of a union share their place and their which_, which is where the entry that opens it says. */
  lemma {:induction false} UnionShares(d: seq<Field>, base: int, i: nat, j: nat)
    requires i <= j < |d| && OneUnion(d, i, j)
    ensures DataAt(d, base, j) == DataAt(d, base, i) && SizeAt(d, base, j) == SizeAt(d, base, i)
    ensures i == 0 || !InsideUnion(d, i) ==> SizeAt(d, base, j) - DataAt(d, base, j) == d[i].sizeOffset
  {
    if i < j {
      UnionShares(d, base, i, j - 1);
    }
  }

  /** Apart from the members of one union, an entry lies behind all items of the one before it. */
  lemma {:induction false} EntriesApart(d: seq<Field>, base: int, i: nat, j: nat)
    requires i < j < |d| && !InsideUnion(d, i + 1)
    ensures DataAt(d, base, j) >= DataAt(d, base, i) + MemberSize(d[i])
    ensures j == i + 1 ==> DataAt(d, base, j) == DataAt(d, base, i) + MemberSize(d[i]) + d[j].dataOffset
  {
    if i + 1 < j {
      EntriesApart(d, base, i, j - 1);
    } else {
      ExtentIsMemberSize(d[i]);
    }
  }

  /** So no byte of an item of one is a byte of an item of the other. */
  lemma ItemsApart(d: seq<Field>, base: int, i: nat, j: nat, k: nat, l: nat)
    requires i < j < |d| && !InsideUnion(d, i + 1) && k < Items(d[i]) && l < Items(d[j])
    ensures DataAt(d, base, i) + (k + 1) * d[i].dataSize <= DataAt(d, base, j) + l * d[j].dataSize
  {
    EntriesApart(d, base, i, j);
    MulMono(k + 1, Items(d[i]), d[i].dataSize);
    MulMono(0, l, d[j].dataSize);
  }
}

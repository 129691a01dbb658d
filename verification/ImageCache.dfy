/** AutoPurgingImageCache: an in-memory image cache that counts its bytes and evicts the images not used for longest. */
module ImageCache {
  import opened Words

  /** CachedImage: its size, and when it was last asked for. */
  datatype CachedImage = CachedImage(identifier: string, totalBytes: nat, lastAccess: int)

  /** owed counts the purge blocks that are on the queue: add puts one there behind its own block. */
  datatype Cache = Cache(
    capacity: nat, preferred: nat, images: map<string, CachedImage>, usage: int, owed: nat)

  datatype Step =
    | Add(identifier: string, bytes: nat, now: int)
    | Purge(order: seq<CachedImage>)
    | Remove(identifier: string)
    | RemoveMatching(prefix: string)
    | RemoveAll
    | Fetch(identifier: string, now: int)

  // ----- The bytes of a collection -----

  ghost function Sum(m: map<string, CachedImage>): (n: nat)
    decreases |m|
  {
    if m == map[] then 0 else var k :| k in m; m[k].totalBytes + Sum(m - {k})
  }

  lemma {:induction false} SumRemove(m: map<string, CachedImage>, k: string)
    requires k in m
    ensures Sum(m) == m[k].totalBytes + Sum(m - {k})
    decreases |m|
  {
    var c :| c in m && Sum(m) == m[c].totalBytes + Sum(m - {c});
    if c != k {
      SumRemove(m - {c}, k);
      SumRemove(m - {k}, c);
      assert m - {c} - {k} == m - {k} - {c};
    }
  }

  function Only(m: map<string, CachedImage>, ks: set<string>): (r: map<string, CachedImage>) {
    map k | k in m && k in ks :: m[k]
  }

  lemma {:induction false} SumSplit(m: map<string, CachedImage>, ks: set<string>)
    ensures Sum(m) == Sum(Only(m, ks)) + Sum(m - ks)
    decreases |ks|
  {
    if ks == {} {
      assert Only(m, ks) == map[] && m - ks == m;
    } else {
      var k :| k in ks;
      var less := ks - {k};
      SumSplit(m, less);
      if k in m {
        SumRemove(m - less, k);
        SumRemove(Only(m, ks), k);
        assert m - less - {k} == m - ks && Only(m, ks) - {k} == Only(m, less);
      } else {
        assert m - less == m - ks && Only(m, ks) == Only(m, less);
      }
    }
  }

  lemma SumUpdate(m: map<string, CachedImage>, k: string, v: CachedImage)
    ensures Sum(m[k := v]) == v.totalBytes + Sum(m - {k})
  {
    SumRemove(m[k := v], k);
    assert m[k := v] - {k} == m - {k};
  }

  function Bytes(s: seq<CachedImage>): (n: nat)
    decreases |s|
  {
    if s == [] then 0 else Bytes(s[..|s| - 1]) + s[|s| - 1].totalBytes
  }

  function Identifiers(s: seq<CachedImage>): (r: set<string>) {
    set i | 0 <= i < |s| :: s[i].identifier
  }

  /** Images of the collection, each at most once. */
  predicate Lists(s: seq<CachedImage>, m: map<string, CachedImage>) {
    && (forall i | 0 <= i < |s| :: s[i].identifier in m && m[s[i].identifier] == s[i])
    && forall i, j | 0 <= i < j < |s| :: s[i].identifier != s[j].identifier
  }

  lemma {:induction false} SumWithout(m: map<string, CachedImage>, s: seq<CachedImage>)
    requires Lists(s, m)
    ensures Sum(m) == Bytes(s) + Sum(m - Identifiers(s))
    decreases |s|
  {
    if s == [] {
      assert m - Identifiers(s) == m;
    } else {
      var n := |s| - 1;
      SumWithout(m, s[..n]);
      var rest := m - Identifiers(s[..n]);
      assert s[n].identifier in rest;
      SumRemove(rest, s[n].identifier);
      assert Identifiers(s) == Identifiers(s[..n]) + {s[n].identifier};
      assert rest - {s[n].identifier} == m - Identifiers(s);
    }
  }

  // ----- The blocks -----

  /** The first block of add. */
  function AddBlock(c: Cache, identifier: string, bytes: nat, now: int): (c': Cache)
  {
    var usage := if identifier in c.images then c.usage - c.images[identifier].totalBytes else c.usage;
    c.(images := c.images[identifier := CachedImage(identifier, bytes, now)],
       usage := usage + bytes, owed := c.owed + 1)
  }

  /** An order that sorting the images by their last access may give. */
  predicate Sorted(order: seq<CachedImage>, m: map<string, CachedImage>) {
    && Lists(order, m) && Identifiers(order) == m.Keys
    && forall i, j | 0 <= i < j < |order| :: order[i].lastAccess <= order[j].lastAccess
  }

  /** How many images the purge loop removes, from the i-th on: until at least the given bytes are gone. */
  function Evictions(order: seq<CachedImage>, i: nat, toPurge: int): (k: nat)
    requires i <= |order|
    ensures i <= k <= |order|
    decreases |order| - i
  {
    if i == |order| then i
    else if order[i].totalBytes >= toPurge then i + 1
    else Evictions(order, i + 1, toPurge - order[i].totalBytes)
  }

  function Evicted(c: Cache, order: seq<CachedImage>): (s: seq<CachedImage>) {
    if c.usage > c.capacity then order[..Evictions(order, 0, c.usage - c.preferred)] else []
  }

  /** The second block of add. */
  function PurgeBlock(c: Cache, order: seq<CachedImage>): (c': Cache)
    requires c.owed > 0
  {
    var gone := Evicted(c, order);
    c.(images := c.images - Identifiers(gone), usage := c.usage - Bytes(gone), owed := c.owed - 1)
  }

  function RemoveBlock(c: Cache, identifier: string): (c': Cache)
  {
    if identifier !in c.images then c
    else c.(images := c.images - {identifier}, usage := c.usage - c.images[identifier].totalBytes)
  }

  function Matching(c: Cache, prefix: string): (ks: set<string>) {
    set k | k in c.images && prefix <= k
  }

  ghost function RemoveMatchingBlock(c: Cache, prefix: string): (c': Cache) {
    var ks := Matching(c, prefix);
    c.(images := c.images - ks, usage := c.usage - Sum(Only(c.images, ks)))
  }

  function RemoveAllBlock(c: Cache): (c': Cache) {
    if c.images == map[] then c else c.(images := map[], usage := 0)
  }

  function FetchBlock(c: Cache, identifier: string, now: int): (c': Cache) {
    if identifier !in c.images then c
    else c.(images := c.images[identifier := c.images[identifier].(lastAccess := now)])
  }

  // ----- The invariant -----

  /** The counter is the sum of what is stored, and above the capacity a purge is on its way. */
  ghost predicate Inv(c: Cache) {
    && c.preferred <= c.capacity
    && (forall k | k in c.images :: c.images[k].identifier == k)
    && c.usage == Sum(c.images)
    && (c.usage > c.capacity ==> c.owed > 0)
  }

  lemma NoneIsLarger(c: Cache, identifier: string)
    requires Inv(c) && identifier in c.images
    ensures c.images[identifier].totalBytes <= c.usage
  {
    SumRemove(c.images, identifier);
  }

  lemma AddKeeps(c: Cache, identifier: string, bytes: nat, now: int)
    requires Inv(c)
    ensures Inv(AddBlock(c, identifier, bytes, now))
  {
    SumUpdate(c.images, identifier, CachedImage(identifier, bytes, now));
    if identifier in c.images {
      SumRemove(c.images, identifier);
    } else {
      assert c.images - {identifier} == c.images;
    }
  }

  lemma RemoveKeeps(c: Cache, identifier: string)
    requires Inv(c)
    ensures Inv(RemoveBlock(c, identifier))
  {
    if identifier in c.images {
      SumRemove(c.images, identifier);
    }
  }

  lemma FetchKeeps(c: Cache, identifier: string, now: int)
    requires Inv(c)
    ensures Inv(FetchBlock(c, identifier, now))
  {
    if identifier in c.images {
      SumUpdate(c.images, identifier, c.images[identifier].(lastAccess := now));
      SumRemove(c.images, identifier);
    }
  }

  lemma RemoveMatchingKeeps(c: Cache, prefix: string)
    requires Inv(c)
    ensures Inv(RemoveMatchingBlock(c, prefix))
  {
    SumSplit(c.images, Matching(c, prefix));
  }

  // ----- The purge -----

  lemma BytesExtend(order: seq<CachedImage>, i: nat)
    requires i < |order|
    ensures Bytes(order[..i + 1]) == Bytes(order[..i]) + order[i].totalBytes
  {
    assert order[..i + 1][..i] == order[..i];
  }

  /** The loop stops at the first image with which enough bytes are gone. */
  lemma {:induction false} EvictionsMinimal(order: seq<CachedImage>, i: nat, toPurge: int)
    requires i <= |order| && 0 < toPurge - Bytes(order[..i])
    ensures var k := Evictions(order, i, toPurge - Bytes(order[..i]));
            && (forall j | i <= j < k :: Bytes(order[..j]) < toPurge)
            && (k < |order| || Bytes(order) >= toPurge ==> Bytes(order[..k]) >= toPurge)
    decreases |order| - i
  {
    if i == |order| {
      assert order[..i] == order;
    } else {
      BytesExtend(order, i);
      if order[i].totalBytes < toPurge - Bytes(order[..i]) {
        EvictionsMinimal(order, i + 1, toPurge);
      } else if i + 1 == |order| {
        assert order[..i + 1] == order;
      }
    }
  }

  lemma PrefixLists(order: seq<CachedImage>, m: map<string, CachedImage>, k: nat)
    requires Lists(order, m) && k <= |order|
    ensures Lists(order[..k], m)
  {
  }

  /** All images together have the counted bytes, so the loop finds enough of them, and the counter does not
      run below zero. */
  lemma PurgeSubtracts(c: Cache, order: seq<CachedImage>)
    requires Inv(c) && Sorted(order, c.images)
    ensures Bytes(order) == c.usage
    ensures var gone := Evicted(c, order);
            Lists(gone, c.images) && Bytes(gone) + Sum(c.images - Identifiers(gone)) == c.usage
  {
    SumWithout(c.images, order);
    assert c.images - Identifiers(order) == map[];
    var gone := Evicted(c, order);
    if c.usage > c.capacity {
      PrefixLists(order, c.images, |gone|);
    }
    SumWithout(c.images, gone);
  }

  lemma PurgeStops(c: Cache, order: seq<CachedImage>)
    requires c.preferred <= c.capacity < c.usage == Bytes(order)
    ensures var gone := Evicted(c, order);
            && gone != [] && c.usage - Bytes(gone) <= c.preferred
            && forall j | 0 <= j < |gone| :: c.usage - Bytes(order[..j]) > c.preferred
  {
    EvictionsFromStart(order, c.usage - c.preferred);
  }

  lemma EvictionsFromStart(order: seq<CachedImage>, toPurge: int)
    requires 0 < toPurge <= Bytes(order)
    ensures var k := Evictions(order, 0, toPurge);
            k > 0 && Bytes(order[..k]) >= toPurge && forall j | 0 <= j < k :: Bytes(order[..j]) < toPurge
  {
    assert order[..0] == [] && Bytes(order[..0]) == 0;
    EvictionsMinimal(order, 0, toPurge);
  }

  lemma Prefixes(order: seq<CachedImage>, n: nat)
    requires n <= |order|
    ensures forall j | 0 <= j < n :: order[j].identifier in Identifiers(order[..n])
  {
    forall j | 0 <= j < n
      ensures order[j].identifier in Identifiers(order[..n])
    {
      assert order[..n][j] == order[j];
    }
  }

  lemma OldestGo(order: seq<CachedImage>, m: map<string, CachedImage>, n: nat, k: string, l: string)
    requires Sorted(order, m) && n <= |order|
    requires k in m && k in Identifiers(order[..n]) && l in m && l !in Identifiers(order[..n])
    ensures m[k].lastAccess <= m[l].lastAccess
  {
    var i :| 0 <= i < n && order[..n][i].identifier == k;
    assert l in Identifiers(order);
    var j :| 0 <= j < |order| && order[j].identifier == l;
    Prefixes(order, n);
    assert i < j;
  }

  /** A purge that fires leaves at most the preferred usage, and evicts no more images, oldest first, than that
      takes: one fewer would have left more than the preferred usage. */
  lemma PurgeEvictsOldest(c: Cache, order: seq<CachedImage>)
    requires Inv(c) && c.owed > 0 && c.usage > c.capacity && Sorted(order, c.images)
    ensures 0 <= PurgeBlock(c, order).usage <= c.preferred
    ensures var c' := PurgeBlock(c, order);
            forall k, l | k in c.images && k !in c'.images && l in c'.images ::
              c.images[k].lastAccess <= c.images[l].lastAccess
    ensures var gone := Evicted(c, order);
            gone != [] && forall j | 0 <= j < |gone| :: c.usage - Bytes(order[..j]) > c.preferred
  {
    PurgeSubtracts(c, order);
    PurgeStops(c, order);
    var n, c' := |Evicted(c, order)|, PurgeBlock(c, order);
    forall k, l | k in c.images && k !in c'.images && l in c'.images
      ensures c.images[k].lastAccess <= c.images[l].lastAccess
    {
      OldestGo(order, c.images, n, k, l);
    }
  }

  lemma PurgeKeeps(c: Cache, order: seq<CachedImage>)
    requires Inv(c) && c.owed > 0 && Sorted(order, c.images)
    ensures Inv(PurgeBlock(c, order))
  {
    PurgeSubtracts(c, order);
    if c.usage > c.capacity {
      PurgeEvictsOldest(c, order);
    }
  }

  // ----- Runs -----

  predicate Enabled(c: Cache, step: Step) {
    step.Purge? ==> c.owed > 0 && Sorted(step.order, c.images)
  }

  ghost function Next(c: Cache, step: Step): (c': Cache)
    requires Enabled(c, step)
  {
    match step
    case Add(identifier, bytes, now) => AddBlock(c, identifier, bytes, now)
    case Purge(order) => PurgeBlock(c, order)
    case Remove(identifier) => RemoveBlock(c, identifier)
    case RemoveMatching(prefix) => RemoveMatchingBlock(c, prefix)
    case RemoveAll => RemoveAllBlock(c)
    case Fetch(identifier, now) => FetchBlock(c, identifier, now)
  }

  lemma StepKeeps(c: Cache, step: Step)
    requires Inv(c) && Enabled(c, step)
    ensures Inv(Next(c, step))
  {
    match step
    case Add(identifier, bytes, now) => AddKeeps(c, identifier, bytes, now);
    case Purge(order) => PurgeKeeps(c, order);
    case Remove(identifier) => RemoveKeeps(c, identifier);
    case RemoveMatching(prefix) => RemoveMatchingKeeps(c, prefix);
    case RemoveAll =>
    case Fetch(identifier, now) => FetchKeeps(c, identifier, now);
  }

  ghost predicate IsRun(states: seq<Cache>, steps: seq<Step>) {
    && |states| == |steps| + 1
    && states[0].preferred <= states[0].capacity
    && states[0] == Cache(states[0].capacity, states[0].preferred, map[], 0, 0)
    && forall i | 0 <= i < |steps| ::
         Enabled(states[i], steps[i]) && states[i + 1] == Next(states[i], steps[i])
  }

  /** In every reachable state the counter is the sum of the stored images' bytes; above the capacity a purge is
      owed, so with none on the queue the cache is within its capacity. */
  lemma {:induction false} UsageIsSum(states: seq<Cache>, steps: seq<Step>, n: nat)
    requires IsRun(states, steps) && n < |states|
    ensures states[n].usage == Sum(states[n].images) && Inv(states[n])
    ensures states[n].owed == 0 ==> Sum(states[n].images) <= states[n].capacity
    decreases n
  {
    if n > 0 {
      UsageIsSum(states, steps, n - 1);
      StepKeeps(states[n - 1], steps[n - 1]);
    }
  }

  // ----- The cache as an object -----

  class AutoPurgingImageCache {
    const memoryCapacity: nat
    const preferredMemoryUsageAfterPurge: nat
    var cachedImages: map<string, CachedImage>
    var currentMemoryUsage: nat
    ghost var owed: nat

    ghost function View(): (c: Cache)
      reads this
    {
      Cache(memoryCapacity, preferredMemoryUsageAfterPurge, cachedImages, currentMemoryUsage, owed)
    }

    constructor (capacity: nat, preferred: nat)
      requires preferred <= capacity
      ensures View() == Cache(capacity, preferred, map[], 0, 0) && Inv(View())
    {
      memoryCapacity, preferredMemoryUsageAfterPurge := capacity, preferred;
      cachedImages, currentMemoryUsage, owed := map[], 0, 0;
    }

    method AddImage(identifier: string, bytes: nat, now: int)
      requires Inv(View())
      modifies this
      ensures Inv(View()) && View() == AddBlock(old(View()), identifier, bytes, now)
    {
      AddKeeps(View(), identifier, bytes, now);
      if identifier in cachedImages {
        NoneIsLarger(View(), identifier);
        currentMemoryUsage := currentMemoryUsage - cachedImages[identifier].totalBytes;
      }
      cachedImages := cachedImages[identifier := CachedImage(identifier, bytes, now)];
      currentMemoryUsage := currentMemoryUsage + bytes;
      owed := owed + 1;
    }

    /** The purge block; sortedImages is what sorting the images by their last access gave. */
    method PurgeImages(sortedImages: seq<CachedImage>)
      requires Inv(View()) && owed > 0 && Sorted(sortedImages, cachedImages)
      modifies this
      ensures Inv(View()) && View() == PurgeBlock(old(View()), sortedImages)
    {
      PurgeKeeps(View(), sortedImages);
      PurgeSubtracts(View(), sortedImages);
      if currentMemoryUsage > memoryCapacity {
        PurgeAbove(sortedImages);
      } else {
        assert cachedImages - Identifiers([]) == cachedImages;
      }
      owed := owed - 1;
    }

    method PurgeAbove(sortedImages: seq<CachedImage>)
      requires preferredMemoryUsageAfterPurge <= memoryCapacity < currentMemoryUsage
      requires Bytes(Evicted(View(), sortedImages)) <= currentMemoryUsage
      modifies this`cachedImages, this`currentMemoryUsage
      ensures var gone := Evicted(old(View()), sortedImages);
              && cachedImages == old(cachedImages) - Identifiers(gone)
              && currentMemoryUsage == old(currentMemoryUsage) - Bytes(gone)
    {
      var bytesToPurge := currentMemoryUsage - preferredMemoryUsageAfterPurge;
      var bytesPurged := EvictImages(sortedImages, bytesToPurge);
      currentMemoryUsage := currentMemoryUsage - bytesPurged;
    }

    method EvictImages(sortedImages: seq<CachedImage>, bytesToPurge: nat) returns (bytesPurged: nat)
      requires bytesToPurge > 0
      modifies this`cachedImages
      ensures var gone := sortedImages[..Evictions(sortedImages, 0, bytesToPurge)];
              cachedImages == old(cachedImages) - Identifiers(gone) && bytesPurged == Bytes(gone)
    {
      bytesPurged := 0;
      var i := 0;
      assert sortedImages[..0] == [];
      while i < |sortedImages|
        invariant i <= |sortedImages| && bytesPurged == Bytes(sortedImages[..i])
        invariant cachedImages == old(cachedImages) - Identifiers(sortedImages[..i])
        invariant Evictions(sortedImages, 0, bytesToPurge) == Evictions(sortedImages, i, bytesToPurge - bytesPurged)
      {
        BytesExtend(sortedImages, i);
        assert Identifiers(sortedImages[..i + 1]) == Identifiers(sortedImages[..i]) + {sortedImages[i].identifier};
        cachedImages := cachedImages - {sortedImages[i].identifier};
        bytesPurged := bytesPurged + sortedImages[i].totalBytes;
        i := i + 1;
        if bytesPurged >= bytesToPurge {
          break;
        }
      }
    }

    method RemoveImage(identifier: string) returns (removed: bool)
      requires Inv(View())
      modifies this
      ensures Inv(View()) && View() == RemoveBlock(old(View()), identifier)
      ensures removed <==> identifier in old(cachedImages)
    {
      RemoveKeeps(View(), identifier);
      removed := false;
      if identifier in cachedImages {
        NoneIsLarger(View(), identifier);
        currentMemoryUsage := currentMemoryUsage - cachedImages[identifier].totalBytes;
        cachedImages := cachedImages - {identifier};
        removed := true;
      }
    }

    method RemoveImagesMatching(prefix: string) returns (removed: bool)
      requires Inv(View())
      modifies this`cachedImages, this`currentMemoryUsage
      ensures Inv(View()) && View() == RemoveMatchingBlock(old(View()), prefix)
      ensures removed <==> Matching(old(View()), prefix) != {}
    {
      RemoveMatchingKeeps(View(), prefix);
      removed := RemoveKeys(prefix);
    }

    /** The loop over the keys. */
    method RemoveKeys(prefix: string) returns (removed: bool)
      requires currentMemoryUsage == Sum(cachedImages)
      modifies this`cachedImages, this`currentMemoryUsage
      ensures cachedImages == old(cachedImages) - Matching(old(View()), prefix)
      ensures currentMemoryUsage == Sum(cachedImages)
      ensures removed <==> Matching(old(View()), prefix) != {}
    {
      ghost var before := cachedImages;
      removed := false;
      var keys := cachedImages.Keys;
      while keys != {}
        invariant keys <= before.Keys && Remaining(before, cachedImages, keys, prefix)
        invariant currentMemoryUsage == Sum(cachedImages)
        invariant removed <==> cachedImages != before
        decreases |keys|
      {
        var key :| key in keys;
        keys := keys - {key};
        if prefix <= key && key in cachedImages {
          TakeOut(key);
          removed := true;
          assert key in before && key !in cachedImages;
        }
      }
      RemainingIsRest(before, cachedImages, prefix);
    }

    /** Of the images before, those are left that are still to be looked at or do not have the prefix. */
    static ghost predicate Remaining(before: map<string, CachedImage>, m: map<string, CachedImage>, keys: set<string>,
                                     prefix: string)
    {
      && (forall k :: k in m <==> k in before && (k in keys || !(prefix <= k)))
      && (forall k | k in m :: k in before && m[k] == before[k])
    }

    static lemma RemainingIsRest(before: map<string, CachedImage>, m: map<string, CachedImage>, prefix: string)
      requires Remaining(before, m, {}, prefix)
      ensures var ks := set k | k in before && prefix <= k; m == before - ks && (m != before <==> ks != {})
    {
      var ks := set k | k in before && prefix <= k;
      assert m == before - ks;
      if k :| k in ks {
        assert k in before && k !in m;
      } else {
        assert before - ks == before;
      }
    }

    method TakeOut(key: string)
      requires key in cachedImages && currentMemoryUsage == Sum(cachedImages)
      modifies this`cachedImages, this`currentMemoryUsage
      ensures cachedImages == old(cachedImages) - {key} && currentMemoryUsage == Sum(cachedImages)
    {
      SumRemove(cachedImages, key);
      currentMemoryUsage := currentMemoryUsage - cachedImages[key].totalBytes;
      cachedImages := cachedImages - {key};
    }

    method RemoveAllImages() returns (removed: bool)
      requires Inv(View())
      modifies this
      ensures Inv(View()) && View() == RemoveAllBlock(old(View()))
      ensures removed <==> old(cachedImages) != map[]
    {
      removed := false;
      if cachedImages != map[] {
        cachedImages := map[];
        currentMemoryUsage := 0;
        removed := true;
      }
    }

    /** image: the image found, its access date renewed. */
    method Image(identifier: string, now: int) returns (image: Option<CachedImage>)
      requires Inv(View())
      modifies this
      ensures Inv(View()) && View() == FetchBlock(old(View()), identifier, now)
      ensures image == if identifier in cachedImages then Some(cachedImages[identifier]) else None
    {
      FetchKeeps(View(), identifier, now);
      image := None;
      if identifier in cachedImages {
        cachedImages := cachedImages[identifier := cachedImages[identifier].(lastAccess := now)];
        image := Some(cachedImages[identifier]);
      }
    }
  }
}

/** What the image cache holds, from what was done to it. */
module CacheContents {
  import opened Words
  import opened ImageCache

  // ----- One block -----

  /** The purge takes the image out: it fires, and with the images before this one gone there is still too much. */
  predicate Evicts(c: Cache, order: seq<CachedImage>, k: string) {
    c.usage > c.capacity &&
    exists i :: 0 <= i < |order| && order[i].identifier == k && Bytes(order[..i]) < c.usage - c.preferred
  }

  /** The block takes the image with the identifier out, if it is there. */
  predicate TakesOut(c: Cache, step: Step, k: string) {
    match step
    case Add(_, _, _) => false
    case Purge(order) => Evicts(c, order, k)
    case Remove(identifier) => identifier == k
    case RemoveMatching(prefix) => prefix <= k
    case RemoveAll => true
    case Fetch(_, _) => false
  }

  /** It stores an image under the identifier. */
  predicate Adds(step: Step, k: string) {
    step.Add? && step.identifier == k
  }

  /** It uses the image: stores it, or fetches it. */
  predicate Uses(step: Step, k: string) {
    (step.Add? || step.Fetch?) && step.identifier == k
  }

  lemma EvictedExactly(c: Cache, order: seq<CachedImage>, k: string)
    requires Inv(c) && Sorted(order, c.images)
    ensures k in Identifiers(Evicted(c, order)) <==> Evicts(c, order, k)
  {
    var gone := Evicted(c, order);
    if c.usage > c.capacity {
      PurgeSubtracts(c, order);
      PurgeStops(c, order);
      if k in Identifiers(gone) {
        var i :| 0 <= i < |gone| && gone[i].identifier == k;
        assert order[i] == gone[i] && Bytes(order[..i]) < c.usage - c.preferred;
      }
      if i :| 0 <= i < |order| && order[i].identifier == k && Bytes(order[..i]) < c.usage - c.preferred {
        BytesGrow(order, |gone|, i);
        assert gone[i] == order[i];
      }
    }
  }

  lemma {:induction false} BytesGrow(order: seq<CachedImage>, i: nat, j: nat)
    requires i <= |order| && j <= |order|
    ensures i <= j ==> Bytes(order[..i]) <= Bytes(order[..j])
    decreases j
  {
    if i < j {
      BytesGrow(order, i, j - 1);
      BytesExtend(order, j - 1);
    }
  }

  /** What a block leaves under an identifier. */
  lemma BlockAt(c: Cache, step: Step, k: string)
    requires Inv(c) && Enabled(c, step)
    ensures k in Next(c, step).images <==> Adds(step, k) || (k in c.images && !TakesOut(c, step, k))
    ensures Adds(step, k) ==> Next(c, step).images[k] == CachedImage(k, step.bytes, step.now)
    ensures k in Next(c, step).images && !Adds(step, k) ==>
      Next(c, step).images[k] == if Uses(step, k) then c.images[k].(lastAccess := step.now) else c.images[k]
  {
    if step.Purge? {
      EvictedExactly(c, step.order, k);
    }
  }

  // ----- Whole runs -----

  /** The image was stored by step j and not taken out since. */
  ghost predicate StaysFrom(states: seq<Cache>, steps: seq<Step>, j: nat, n: nat, k: string)
    requires IsRun(states, steps) && j < n <= |steps|
  {
    Adds(steps[j], k) && forall i | j < i < n :: !TakesOut(states[i], steps[i], k)
  }

  /** It was added, and not since removed, matched, cleared or evicted. */
  ghost predicate Kept(states: seq<Cache>, steps: seq<Step>, n: nat, k: string)
    requires IsRun(states, steps) && n <= |steps|
  {
    exists j :: 0 <= j < n && StaysFrom(states, steps, j, n, k)
  }

  lemma KeptOneMore(states: seq<Cache>, steps: seq<Step>, n: nat, k: string)
    requires IsRun(states, steps) && 0 < n <= |steps|
    ensures Kept(states, steps, n, k) <==>
      Adds(steps[n - 1], k) || (Kept(states, steps, n - 1, k) && !TakesOut(states[n - 1], steps[n - 1], k))
  {
    var before := n - 1;
    if Adds(steps[before], k) {
      assert StaysFrom(states, steps, before, n, k);
    } else {
      if Kept(states, steps, before, k) && !TakesOut(states[before], steps[before], k) {
        var j :| 0 <= j < before && StaysFrom(states, steps, j, before, k);
        assert StaysFrom(states, steps, j, n, k);
      }
      if j :| 0 <= j < n && StaysFrom(states, steps, j, n, k) {
        assert StaysFrom(states, steps, j, before, k);
      }
    }
  }

  /** An image is in the cache exactly when it was added, and not since removed, matched, cleared or evicted. */
  lemma {:induction false} PresentExactly(states: seq<Cache>, steps: seq<Step>, n: nat, k: string)
    requires IsRun(states, steps) && n < |states|
    ensures k in states[n].images <==> Kept(states, steps, n, k)
    decreases n
  {
    if n > 0 {
      UsageIsSum(states, steps, n - 1);
      BlockAt(states[n - 1], steps[n - 1], k);
      PresentExactly(states, steps, n - 1, k);
      KeptOneMore(states, steps, n, k);
    }
  }

  /** The last of the first n steps that added the image, or -1. */
  function LastAdd(steps: seq<Step>, n: nat, k: string): (j: int)
    requires n <= |steps|
    ensures -1 <= j < n && (j >= 0 ==> Adds(steps[j], k)) && forall i | j < i < n :: !Adds(steps[i], k)
  {
    if n == 0 then -1 else if Adds(steps[n - 1], k) then n - 1 else LastAdd(steps, n - 1, k)
  }

  /** The last of the first n steps that added or fetched it, or -1. */
  function LastUse(steps: seq<Step>, n: nat, k: string): (j: int)
    requires n <= |steps|
    ensures -1 <= j < n && (j >= 0 ==> Uses(steps[j], k)) && forall i | j < i < n :: !Uses(steps[i], k)
  {
    if n == 0 then -1 else if Uses(steps[n - 1], k) then n - 1 else LastUse(steps, n - 1, k)
  }

  /** An image in the cache has the bytes with which it was added last, and as its access date that of its last use:
      when it was last added or fetched. */
  lemma {:induction false} HoldsLastAdded(states: seq<Cache>, steps: seq<Step>, n: nat, k: string)
    requires IsRun(states, steps) && n < |states| && k in states[n].images
    ensures var i, j := LastAdd(steps, n, k), LastUse(steps, n, k);
            i >= 0 && j >= 0 && states[n].images[k] == CachedImage(k, steps[i].bytes, steps[j].now)
    decreases n
  {
    UsageIsSum(states, steps, n - 1);
    BlockAt(states[n - 1], steps[n - 1], k);
    if !Adds(steps[n - 1], k) {
      HoldsLastAdded(states, steps, n - 1, k);
    }
  }

  /** A purge takes out an image only if every image it leaves was used at the same time or later. */
  lemma EvictsByLastUse(states: seq<Cache>, steps: seq<Step>, n: nat, k: string, l: string)
    requires IsRun(states, steps) && n < |steps| && steps[n].Purge?
    requires k in states[n].images && k !in states[n + 1].images && l in states[n + 1].images
    ensures var i, j := LastUse(steps, n, k), LastUse(steps, n, l); i >= 0 && j >= 0 && steps[i].now <= steps[j].now
  {
    UsageIsSum(states, steps, n);
    BlockAt(states[n], steps[n], k);
    BlockAt(states[n], steps[n], l);
    HoldsLastAdded(states, steps, n, k);
    HoldsLastAdded(states, steps, n, l);
    PurgeEvictsOldest(states[n], steps[n].order);
  }

  /** An image that was just added is found, with its bytes, and its date renewed; every other image is as before. */
  lemma FetchFindsAdded(c: Cache, k: string, bytes: nat, added: int, fetched: int, l: string)
    requires Inv(c)
    ensures var c' := Next(Next(c, Add(k, bytes, added)), Fetch(k, fetched));
            && k in c'.images && c'.images[k] == CachedImage(k, bytes, fetched)
            && (l != k ==> (l in c'.images <==> l in c.images) && (l in c.images ==> c'.images[l] == c.images[l]))
  {
    var add, fetch := Add(k, bytes, added), Fetch(k, fetched);
    StepKeeps(c, add);
    BlockAt(c, add, k);
    BlockAt(c, add, l);
    BlockAt(Next(c, add), fetch, k);
    BlockAt(Next(c, add), fetch, l);
  }

  // ----- Purges on the queue -----

  function AddsIn(steps: seq<Step>): (n: nat)
    decreases |steps|
  {
    if steps == [] then 0 else AddsIn(steps[..|steps| - 1]) + if steps[|steps| - 1].Add? then 1 else 0
  }

  function PurgesIn(steps: seq<Step>): (n: nat)
    decreases |steps|
  {
    if steps == [] then 0 else PurgesIn(steps[..|steps| - 1]) + if steps[|steps| - 1].Purge? then 1 else 0
  }

  /** Each add puts one purge on the queue. */
  lemma {:induction false} OnePurgePerAdd(states: seq<Cache>, steps: seq<Step>, n: nat)
    requires IsRun(states, steps) && n < |states|
    ensures states[n].owed + PurgesIn(steps[..n]) == AddsIn(steps[..n])
    decreases n
  {
    if n > 0 {
      OnePurgePerAdd(states, steps, n - 1);
      assert steps[..n][..n - 1] == steps[..n - 1];
    }
  }
}

/** In which order queued requests start. */
module StartOrder {
  import opened Downloads
  import opened DownloadInvariants

  /** First in, first out: the queue holds older requests before newer ones. Last in, first out: the other way. */
  predicate QueueOrdered(s: State) {
    forall i, j | 0 <= i < j < |s.queue| :: Before(s, s.queue[i], s.queue[j])
  }

  predicate Before(s: State, r: nat, q: nat) {
    if s.lifo then r > q else r < q
  }

  /** The loop leaves the end of the queue. */
  lemma {:induction false} StartFirstLeavesEnd(s: State) returns (k: nat)
    ensures k <= |s.queue| && StartFirst(s).queue == s.queue[k..] && StartFirst(s).lifo == s.lifo
    decreases |s.queue|
  {
    if s.queue == [] {
      k := 0;
    } else if s.queue[0] < |s.requests| && s.requests[s.queue[0]].task.Suspended? {
      k := 1;
    } else {
      var j := StartFirstLeavesEnd(s.(queue := s.queue[1..]));
      k := j + 1;
      assert s.queue[1..][j..] == s.queue[k..];
    }
  }

  lemma SuffixOrdered(s: State, k: nat, s': State)
    requires QueueOrdered(s) && k <= |s.queue| && s'.queue == s.queue[k..] && s'.lifo == s.lifo
    ensures QueueOrdered(s')
  {
  }

  lemma EnqueueOrdered(s: State, s': State, r: nat)
    requires QueueOrdered(s) && (forall i | 0 <= i < |s.queue| :: s.queue[i] < r)
    requires s'.lifo == s.lifo && s'.queue == if s.lifo then [r] + s.queue else s.queue + [r]
    ensures QueueOrdered(s')
  {
  }

  lemma StepKeepsOrder(s: State, step: Step, s': State)
    requires QueueOk(s) && QueueOrdered(s) && Enabled(s, step) && s' == Next(s, step)
    ensures QueueOrdered(s')
  {
    match step
    case Download(_, _, _, _) => if s'.queue != s.queue { EnqueueOrdered(s, s', |s.requests|); }
    case StartNext(r) =>
      var k := StartFirstLeavesEnd(ToStage(s, r, Over));
      SuffixOrdered(s, if s.active < s.maximum then k else 0, s');
    case _ => assert s'.queue == s.queue && s'.lifo == s.lifo;
  }

  lemma {:induction false} RunKeepsOrder(states: seq<State>, steps: seq<Step>, n: nat)
    requires IsRun(states, steps) && n < |states|
    ensures Inv(states[n]) && QueueOrdered(states[n])
    decreases n
  {
    RunKeeps(states, steps, n);
    if n > 0 {
      RunKeepsOrder(states, steps, n - 1);
      StepKeepsOrder(states[n - 1], steps[n - 1], states[n]);
    }
  }

  /** The request that the queue's order has before every other suspended one. */
  predicate NextInLine(s: State, q: nat) {
    && q < |s.requests| && s.requests[q].task.Suspended?
    && forall r | 0 <= r < |s.requests| && s.requests[r].task.Suspended? && r != q :: Before(s, q, r)
  }

  /** The loop starts the first suspended request of the queue, ... */
  lemma {:induction false} StartFirstStarts(s: State, q: nat)
    requires QueueOrdered(s) && NextInLine(s, q) && q in s.queue
    ensures StartFirst(s).requests == Start(s, q).requests && StartFirst(s).active == s.active + 1
    decreases |s.queue|
  {
    var r, rest := s.queue[0], s.(queue := s.queue[1..]);
    if r != q {
      var i :| 0 <= i < |s.queue| && s.queue[i] == q;
      assert Before(s, s.queue[0], s.queue[i]) && rest.queue[i - 1] == q;
      SuffixOrdered(s, 1, rest);
      StartFirstStarts(rest, q);
    }
  }

  /** ... or none if there is none. */
  lemma {:induction false} StartFirstStartsNone(s: State)
    requires forall r | 0 <= r < |s.requests| :: !s.requests[r].task.Suspended?
    ensures StartFirst(s).requests == s.requests && StartFirst(s).active == s.active
    decreases |s.queue|
  {
    if s.queue != [] {
      StartFirstStartsNone(s.(queue := s.queue[1..]));
    }
  }

  /** The end of a completion, if there is room, starts the oldest of the suspended requests, or with last in, first
      out the newest, and no other. */
  lemma StartsNextInLine(states: seq<State>, steps: seq<Step>, n: nat, q: nat)
    requires IsRun(states, steps) && n < |steps| && steps[n].StartNext? && states[n].active < states[n].maximum
    requires NextInLine(states[n], q)
    ensures var s, r := states[n], steps[n].r;
            && states[n + 1].active == s.active + 1 && q != r < |s.requests|
            && states[n + 1].requests ==
                 s.requests[r := s.requests[r].(stage := Over)][q := s.requests[q].(task := Running, started := true)]
  {
    RunKeepsOrder(states, steps, n);
    NextStarts(states[n], steps[n].r, q);
  }

  lemma NextStarts(s: State, r: nat, q: nat)
    requires Inv(s) && QueueOrdered(s) && Enabled(s, StartNext(r)) && s.active < s.maximum && NextInLine(s, q)
    ensures q != r && StartNextBlock(s, r).active == s.active + 1
    ensures StartNextBlock(s, r).requests ==
      s.requests[r := s.requests[r].(stage := Over)][q := s.requests[q].(task := Running, started := true)]
  {
    var t := ToStage(s, r, Over);
    assert RequestOk(s, q);
    assert NextInLine(t, q) by {
      assert forall p :: Before(s, q, p) == Before(t, q, p);
    }
    SuffixOrdered(s, 0, t);
    StartFirstStarts(t, q);
  }

  /** Without room, or with no suspended request, it starts none. */
  lemma StartsNoneOtherwise(s: State, r: nat)
    requires Enabled(s, StartNext(r))
    requires s.active >= s.maximum || forall q | 0 <= q < |s.requests| :: !s.requests[q].task.Suspended?
    ensures StartNextBlock(s, r).active == s.active
    ensures StartNextBlock(s, r).requests == s.requests[r := s.requests[r].(stage := Over)]
  {
    if s.active < s.maximum {
      StartFirstStartsNone(ToStage(s, r, Over));
    }
  }
}

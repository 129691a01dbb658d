/** How many requests are under way, and how many the counter counts. */
module DownloadLimits {
  import opened Downloads
  import opened DownloadInvariants

  // ----- What the counter counts -----

  // The counter stays within the maximum, but a request that was cancelled in the queue and never started is counted
  // off all the same, in place of another one. By exactly that much the requests under way exceed the counter.

  /** A request that never started completes while others are counted: one of those is counted off. */
  predicate CountsOffAnother(s: State, step: Step)
    requires Enabled(s, step)
  {
    step.Decrement? && !s.requests[step.r].started && s.active > 0
  }

  /** A request that started completes when none is counted any more. */
  predicate CountsOffNone(s: State, step: Step)
    requires Enabled(s, step)
  {
    step.Decrement? && s.requests[step.r].started && s.active == 0
  }

  /** The requests under way beyond those counted. */
  function Uncounted(s: State): (n: int) {
    Count(InFlight, s.requests) - s.active
  }

  lemma StartIsCounted(s: State, r: nat)
    requires r < |s.requests| && s.requests[r].stage.Waiting? && !s.requests[r].started
    ensures Uncounted(Start(s, r)) == Uncounted(s)
  {
    CountUpdate(InFlight, s.requests, r, Start(s, r).requests[r]);
  }

  lemma {:induction false} StartFirstIsCounted(s: State)
    requires forall r | 0 <= r < |s.requests| && s.requests[r].task.Suspended? ::
               s.requests[r].stage.Waiting? && !s.requests[r].started
    ensures Uncounted(StartFirst(s)) == Uncounted(s)
    decreases |s.queue|
  {
    if s.queue != [] {
      var r, n := s.queue[0], s.(queue := s.queue[1..]);
      if r < |s.requests| && s.requests[r].task.Suspended? {
        StartIsCounted(n, r);
      } else {
        StartFirstIsCounted(n);
      }
    }
  }

  lemma DownloadIsCounted(s: State, url: string, receiptID: string, cached: bool, adapted: bool)
    ensures Uncounted(DownloadBlock(s, url, receiptID, cached, adapted)) == Uncounted(s)
  {
    var n, r := NewRequest(s, url, receiptID, adapted), |s.requests|;
    CountAppend(InFlight, s.requests, n.requests[r]);
    StartIsCounted(n, r);
  }

  lemma CancelIsCounted(s: State, r: nat, receiptID: string)
    requires r < |s.requests|
    ensures Uncounted(CancelBlock(s, r, receiptID)) == Uncounted(s)
  {
    CountUpdate(InFlight, s.requests, r, s.requests[r].(task := Cancelled));
  }

  lemma StageIsCounted(s: State, r: nat, q: Request)
    requires r < |s.requests| && InFlight(q) == InFlight(s.requests[r])
    ensures Uncounted(SetRequest(s, r, q)) == Uncounted(s)
  {
    CountUpdate(InFlight, s.requests, r, q);
  }

  lemma StartNextIsCounted(s: State, r: nat)
    requires Inv(s) && Enabled(s, StartNext(r))
    ensures Uncounted(StartNextBlock(s, r)) == Uncounted(s)
  {
    var n := ToStage(s, r, Over);
    StageIsCounted(s, r, n.requests[r]);
    forall k | 0 <= k < |n.requests| && n.requests[k].task.Suspended?
      ensures n.requests[k].stage.Waiting? && !n.requests[k].started
    {
      assert RequestOk(s, k);
    }
    StartFirstIsCounted(n);
  }

  /** Only the two kinds of completion move the counter away from the requests under way. */
  lemma StepIsCounted(s: State, step: Step)
    requires Inv(s) && Enabled(s, step)
    ensures Uncounted(Next(s, step)) ==
      Uncounted(s) + (if CountsOffAnother(s, step) then 1 else 0) - if CountsOffNone(s, step) then 1 else 0
  {
    match step
    case Download(url, receiptID, cached, adapted) => DownloadIsCounted(s, url, receiptID, cached, adapted);
    case Cancel(r, receiptID) => CancelIsCounted(s, r, receiptID);
    case CancelDirectly(r) => StageIsCounted(s, r, Next(s, step).requests[r]);
    case End(r, _) => StageIsCounted(s, r, Next(s, step).requests[r]);
    case Fetch(r) => StageIsCounted(s, r, Next(s, step).requests[r]);
    case Remove(r) => StageIsCounted(s, r, Next(s, step).requests[r]);
    case Decrement(r) => CountUpdate(InFlight, s.requests, r, Next(s, step).requests[r]);
    case StartNext(r) => StartNextIsCounted(s, r);
  }

  // ----- Over whole runs -----

  /** How many of the first n steps counted off another request, and how many counted off none. */
  ghost function Early(states: seq<State>, steps: seq<Step>, n: nat): (k: nat)
    requires IsRun(states, steps) && n <= |steps|
  {
    if n == 0 then 0
    else Early(states, steps, n - 1) + if CountsOffAnother(states[n - 1], steps[n - 1]) then 1 else 0
  }

  ghost function Late(states: seq<State>, steps: seq<Step>, n: nat): (k: nat)
    requires IsRun(states, steps) && n <= |steps|
  {
    if n == 0 then 0
    else Late(states, steps, n - 1) + if CountsOffNone(states[n - 1], steps[n - 1]) then 1 else 0
  }

  /** In every interleaving the requests under way are the counted ones, and one more for each time that a request
      that never started was counted off in place of another, but for those that were then not counted off. */
  lemma {:induction false} UnderWayExactly(states: seq<State>, steps: seq<Step>, n: nat)
    requires IsRun(states, steps) && n < |states|
    ensures Count(InFlight, states[n].requests) + Late(states, steps, n) == states[n].active + Early(states, steps, n)
    decreases n
  {
    if n > 0 {
      UnderWayExactly(states, steps, n - 1);
      RunKeeps(states, steps, n - 1);
      StepIsCounted(states[n - 1], steps[n - 1]);
    }
  }

  /** So the counter is right throughout a run exactly when no request that never started is counted off in place of
      another. */
  lemma {:induction false} CountsExactly(states: seq<State>, steps: seq<Step>, n: nat)
    requires IsRun(states, steps) && n < |states|
    ensures (forall k | 0 <= k <= n :: states[k].active == Count(InFlight, states[k].requests)) <==>
            (forall i | 0 <= i < n :: !CountsOffAnother(states[i], steps[i]))
    decreases n
  {
    RunKeeps(states, steps, n);
    if n > 0 {
      CountsExactly(states, steps, n - 1);
      RunKeeps(states, steps, n - 1);
      StepIsCounted(states[n - 1], steps[n - 1]);
    }
  }

  /** The request's task is cancelled before the request was started. */
  predicate CancelsQueued(s: State, step: Step)
    requires Enabled(s, step)
  {
    match step
    case Cancel(r, _) => s.requests[r].task.Suspended? && Next(s, step).requests[r].task.Cancelled?
    case CancelDirectly(r) => s.requests[r].task.Suspended?
    case _ => false
  }

  /** Every request that is about to complete was started. */
  predicate OnlyStartedComplete(s: State) {
    forall r | 0 <= r < |s.requests| && !s.requests[r].started ::
      s.requests[r].stage.Waiting? && !s.requests[r].task.Cancelled?
  }

  lemma OnlyStartedStays(s: State, step: Step)
    requires OnlyStartedComplete(s) && Enabled(s, step) && !CancelsQueued(s, step) && RequestsOk(s)
    ensures OnlyStartedComplete(Next(s, step))
  {
    var s' := Next(s, step);
    forall r | 0 <= r < |s'.requests| && !s'.requests[r].started
      ensures s'.requests[r].stage.Waiting? && !s'.requests[r].task.Cancelled?
    {
      if step.StartNext? && s.active < s.maximum {
        StartFirstLeaves(ToStage(s, step.r, Over));
        StartFirstPasses(ToStage(s, step.r, Over), r);
      }
      assert r < |s.requests| ==> RequestOk(s, r);
    }
  }

  /** As long as no request is cancelled before it starts, the counter counts exactly the requests under way, so
      that they stay within the maximum. */
  lemma {:induction false} WithinMaximum(states: seq<State>, steps: seq<Step>, n: nat)
    requires IsRun(states, steps) && n < |states|
    requires forall i | 0 <= i < n :: !CancelsQueued(states[i], steps[i])
    ensures Count(InFlight, states[n].requests) == states[n].active <= states[n].maximum
    ensures OnlyStartedComplete(states[n])
    decreases n
  {
    RunKeeps(states, steps, n);
    if n > 0 {
      WithinMaximum(states, steps, n - 1);
      RunKeeps(states, steps, n - 1);
      StepIsCounted(states[n - 1], steps[n - 1]);
      OnlyStartedStays(states[n - 1], steps[n - 1]);
    }
  }

  // ----- A run with too many requests under way -----

  /** With a maximum of one: a is running, and b is the second request. */
  function AfterA(a: string, b: string, id: string, second: Request): (s: State) {
    State(1, false, 1, [1], map[a := Handler(0, 0, [Operation(0, id)]), b := Handler(1, 1, [Operation(1, id)])],
          [Request(a, 0, Running, true, Waiting), second], [a, b], [])
  }

  lemma OneRunning(a: string, id: string) returns (s: State)
    ensures Leads(s, [Download(a, id, false, true)])
    ensures s == State(1, false, 1, [], map[a := Handler(0, 0, [Operation(0, id)])],
                       [Request(a, 0, Running, true, Waiting)], [a], [])
  {
    var s0 := Initial(1, false);
    assert IsRun([s0], []) && [s0][0] == s0;
    s := Next(s0, Download(a, id, false, true));
    StepLeads(s0, [], Download(a, id, false, true), s);
  }

  /** b is queued behind a. */
  lemma OneQueued(a: string, b: string, id: string, adapted: bool)
    requires a != b
    ensures Leads(AfterA(a, b, id, Request(b, 1, if adapted then Suspended else Absent, false, Waiting)),
                  [Download(a, id, false, true), Download(b, id, false, adapted)])
  {
    var s := OneRunning(a, id);
    var q := Request(b, 1, if adapted then Suspended else Absent, false, Waiting);
    assert NewRequest(s, b, id, adapted) == AfterA(a, b, id, q).(queue := []);
    StepLeads(s, [Download(a, id, false, true)], Download(b, id, false, adapted), AfterA(a, b, id, q));
  }

  /** b is cancelled in the queue, ... */
  lemma CancelledInQueue(a: string, b: string, id: string) returns (s: State, steps: seq<Step>)
    requires a != b
    ensures Leads(s, steps) && s.maximum == 1 && !s.lifo && s.active == 1 && s.handlers.Keys == {a}
    ensures s.requests == [Request(a, 0, Running, true, Waiting), Request(b, 1, Cancelled, false, Waiting)]
  {
    OneQueued(a, b, id, true);
    var before := [Download(a, id, false, true), Download(b, id, false, true)];
    var s2 := AfterA(a, b, id, Request(b, 1, Suspended, false, Waiting));
    s, steps := Next(s2, Cancel(1, id)), before + [Cancel(1, id)];
    StepLeads(s2, before, Cancel(1, id), s);
  }

  /** ... and its completion runs up to the count. */
  lemma CountedOff(a: string, b: string, id: string) returns (s: State, steps: seq<Step>)
    requires a != b
    ensures Leads(s, steps) && s.maximum == 1 && !s.lifo && s.active == 0 && s.handlers.Keys == {a}
    ensures s.requests == [Request(a, 0, Running, true, Waiting), Request(b, 1, Ended, false, ToStartNext)]
  {
    var s3, before := CancelledInQueue(a, b, id);
    var r0 := Request(a, 0, Running, true, Waiting);
    var s4 := s3.(requests := [r0, Request(b, 1, Ended, false, ToFetch(false))]);
    StepLeads(s3, before, End(1, false), s4);
    var s5 := s4.(requests := [r0, Request(b, 1, Ended, false, ToDecrement)]);
    StepLeads(s4, before + [End(1, false)], Fetch(1), s5);
    s, steps := Next(s5, Decrement(1)), before + [End(1, false)] + [Fetch(1)] + [Decrement(1)];
    StepLeads(s5, before + [End(1, false)] + [Fetch(1)], Decrement(1), s);
  }

  /** Once it has been counted off, c starts, while a is still running: two requests, with a maximum of one. */
  lemma TwoAtOnce(a: string, b: string, c: string, id: string) returns (s: State, steps: seq<Step>)
    requires a != b && b != c && c != a
    ensures Leads(s, steps) && s.maximum == 1 && s.active == 1 && |s.requests| == 3
    ensures s.requests[0].task.Running? && s.requests[2].task.Running?
  {
    var s6, before := CountedOff(a, b, id);
    s, steps := Next(s6, Download(c, id, false, true)), before + [Download(c, id, false, true)];
    StepLeads(s6, before, Download(c, id, false, true), s);
  }
}

/** What an operation's completion is told, and why. */
module DownloadOutcomes {
  import opened Words
  import opened Downloads
  import opened DownloadInvariants

  // ----- One block -----

  /** The operation is the first of the URL's handler with the receipt. */
  predicate FirstWith(s: State, url: string, receiptID: string, op: nat) {
    url in s.handlers && var ops := s.handlers[url].operations;
      exists i :: 0 <= i < |ops| && ops[i] == Operation(op, receiptID) &&
        forall j | 0 <= j < i :: ops[j].receiptID != receiptID
  }

  /** The operation is one of the URL's handler. */
  predicate HeldAt(s: State, url: string, op: nat) {
    url in s.handlers && Holds(s.handlers[url].operations, op)
  }

  /** The block dispatches the operation's completion with this outcome. */
  predicate Tells(s: State, step: Step, op: nat, outcome: Outcome)
    requires Enabled(s, step)
  {
    match outcome
    case FromCache => step.Download? && step.cached && step.url !in s.handlers && op == |s.owners|
    case RequestCancelled => step.Cancel? && FirstWith(s, s.requests[step.r].url, step.receiptID, op)
    case Succeeded =>
      step.Remove? && s.requests[step.r].stage == ToRemove(true) && HeldAt(s, s.requests[step.r].url, op)
    case Failed =>
      step.Remove? && s.requests[step.r].stage == ToRemove(false) && HeldAt(s, s.requests[step.r].url, op)
  }

  lemma AppendedOnly(ds: seq<Dispatch>, es: seq<Dispatch>, d: Dispatch)
    ensures d in ds + es <==> d in ds || d in es
  {
  }

  lemma CancelTells(s: State, r: nat, receiptID: string, op: nat, outcome: Outcome)
    requires r < |s.requests|
    ensures Dispatch(op, outcome) in CancelBlock(s, r, receiptID).dispatched <==>
      Dispatch(op, outcome) in s.dispatched || Tells(s, Cancel(r, receiptID), op, outcome)
  {
    var url := s.requests[r].url;
    if url in s.handlers {
      var ops := s.handlers[url].operations;
      var i := FirstIndex(ops, receiptID);
      if i < |ops| {
        assert ops[i] == Operation(ops[i].op, receiptID);
      }
    }
  }

  lemma RemoveTells(s: State, r: nat, op: nat, outcome: Outcome)
    requires Enabled(s, Remove(r))
    ensures Dispatch(op, outcome) in RemoveBlock(s, r).dispatched <==>
      Dispatch(op, outcome) in s.dispatched || Tells(s, Remove(r), op, outcome)
  {
    var q := s.requests[r];
    if q.url in s.handlers {
      var ops, told := s.handlers[q.url].operations, if q.stage.success then Succeeded else Failed;
      var ds := Dispatches(ops, told);
      if j :| 0 <= j < |ops| && ops[j].op == op {
        assert ds[j] == Dispatch(op, told);
      }
      AppendedOnly(s.dispatched, ds, Dispatch(op, outcome));
    }
  }

  /** A block dispatches exactly what it tells. */
  lemma BlockTells(s: State, step: Step, op: nat, outcome: Outcome)
    requires Enabled(s, step)
    ensures Dispatch(op, outcome) in Next(s, step).dispatched <==>
      Dispatch(op, outcome) in s.dispatched || Tells(s, step, op, outcome)
  {
    match step
    case Cancel(r, receiptID) => CancelTells(s, r, receiptID, op, outcome);
    case Remove(r) => RemoveTells(s, r, op, outcome);
    case StartNext(r) => StartFirstLeaves(ToStage(s, r, Over));
    case _ =>
  }

  // ----- Results -----

  /** The result with which the request ended in the first n steps, if it did. */
  function Result(steps: seq<Step>, n: nat, r: nat): (success: Option<bool>)
    requires n <= |steps|
    ensures success.Some? ==> exists e :: 0 <= e < n && steps[e] == End(r, success.value)
    ensures success.None? ==> forall e, b | 0 <= e < n :: steps[e] != End(r, b)
  {
    if n == 0 then None
    else if steps[n - 1].End? && steps[n - 1].r == r then Some(steps[n - 1].success)
    else Result(steps, n - 1, r)
  }

  /** What the request's stage says of its result. */
  predicate StageIs(q: Request, success: Option<bool>) {
    match q.stage
    case Waiting => success.None?
    case ToFetch(b) => success == Some(b)
    case ToRemove(b) => success == Some(b)
    case _ => success.Some?
  }

  lemma StageMoves(s: State, step: Step, r: nat, success: Option<bool>)
    requires Enabled(s, step) && r < |s.requests| && StageIs(s.requests[r], success)
    ensures r < |Next(s, step).requests|
    ensures StageIs(Next(s, step).requests[r], if step.End? && step.r == r then Some(step.success) else success)
  {
    match step
    case Cancel(k, receiptID) => assert CancelBlock(s, k, receiptID).requests[r].stage == s.requests[r].stage;
    case StartNext(k) => StartFirstPasses(ToStage(s, k, Over), r);
    case _ =>
  }

  lemma NewOnesWait(s: State, step: Step, r: nat)
    requires Enabled(s, step) && |s.requests| <= r < |Next(s, step).requests|
    ensures !step.End? && Next(s, step).requests[r].stage.Waiting?
  {
    if step.StartNext? {
      StartFirstLeaves(ToStage(s, step.r, Over));
    }
  }

  /** Until its handler is removed, a request that has ended carries its result. */
  lemma {:induction false} StageIsResult(states: seq<State>, steps: seq<Step>, n: nat, r: nat)
    requires IsRun(states, steps) && n < |states|
    ensures if r < |states[n].requests| then StageIs(states[n].requests[r], Result(steps, n, r))
            else Result(steps, n, r) == None
    decreases n
  {
    if n > 0 {
      StageIsResult(states, steps, n - 1, r);
      if r < |states[n - 1].requests| {
        StageMoves(states[n - 1], steps[n - 1], r, Result(steps, n - 1, r));
      } else if r < |states[n].requests| {
        NewOnesWait(states[n - 1], steps[n - 1], r);
      }
    }
  }

  // ----- Whole runs -----

  /** Step m of the run has the operation's completion dispatched with this outcome: it is answered from the cache
      when it is accepted, or it is the first with the receipt that is cancelled, or its handler is removed after the
      request ended with that result. */
  predicate Cause(s: State, steps: seq<Step>, m: nat, op: nat, outcome: Outcome)
    requires m < |steps| && Enabled(s, steps[m])
  {
    var step := steps[m];
    match outcome
    case FromCache => step.Download? && step.cached && step.url !in s.handlers && op == |s.owners|
    case RequestCancelled => step.Cancel? && FirstWith(s, s.requests[step.r].url, step.receiptID, op)
    case Succeeded => step.Remove? && Result(steps, m, step.r) == Some(true) && HeldAt(s, s.requests[step.r].url, op)
    case Failed => step.Remove? && Result(steps, m, step.r) == Some(false) && HeldAt(s, s.requests[step.r].url, op)
  }

  ghost predicate Caused(states: seq<State>, steps: seq<Step>, n: nat, op: nat, outcome: Outcome)
    requires IsRun(states, steps) && n <= |steps|
  {
    exists m :: 0 <= m < n && Cause(states[m], steps, m, op, outcome)
  }

  lemma TellsIsCause(states: seq<State>, steps: seq<Step>, m: nat, op: nat, outcome: Outcome)
    requires IsRun(states, steps) && m < |steps|
    ensures Tells(states[m], steps[m], op, outcome) <==> Cause(states[m], steps, m, op, outcome)
  {
    if steps[m].Remove? {
      StageIsResult(states, steps, m, steps[m].r);
    }
  }

  /** In every interleaving a completion is told exactly what happened: success or failure if the request to whose
      handler the operation was attached ended so, a cached image if there was one when it was accepted, and
      cancellation if it was cancelled. */
  lemma {:induction false} ToldExactly(states: seq<State>, steps: seq<Step>, n: nat, op: nat, outcome: Outcome)
    requires IsRun(states, steps) && n < |states|
    ensures Dispatch(op, outcome) in states[n].dispatched <==> Caused(states, steps, n, op, outcome)
    decreases n
  {
    if n > 0 {
      ToldExactly(states, steps, n - 1, op, outcome);
      BlockTells(states[n - 1], steps[n - 1], op, outcome);
      TellsIsCause(states, steps, n - 1, op, outcome);
      CausedOneMore(states, steps, n, op, outcome);
    }
  }

  lemma CausedOneMore(states: seq<State>, steps: seq<Step>, n: nat, op: nat, outcome: Outcome)
    requires IsRun(states, steps) && 0 < n <= |steps|
    ensures Caused(states, steps, n, op, outcome) <==>
      Caused(states, steps, n - 1, op, outcome) || Cause(states[n - 1], steps, n - 1, op, outcome)
  {
  }

  /** The operations of a handler are told in the order in which they were accepted. */
  lemma RemovesInOrder(s: State, r: nat)
    requires Inv(s) && Enabled(s, Remove(r))
    ensures var ds := RemoveBlock(s, r).dispatched;
            s.dispatched <= ds && forall i, j | |s.dispatched| <= i < j < |ds| :: ds[i].op < ds[j].op
  {
    RemovesItsOwn(s, r);
    assert HandlerOk(s, s.requests[r].url);
  }

  // ----- Cancelling a queued request -----

  /** No operation of the URL's handler would be left. */
  predicate LeavesNone(s: State, url: string, receiptID: string) {
    url in s.handlers && var ops := s.handlers[url].operations;
      forall i | 0 <= i < |ops| :: FirstWith(s, url, receiptID, ops[i].op)
  }

  lemma LeavesNoneExactly(s: State, url: string, receiptID: string)
    requires Inv(s) && url in s.handlers
    ensures LeavesNone(s, url, receiptID) <==> CancelOperation(s, url, receiptID).handlers[url].operations == []
  {
    var ops := s.handlers[url].operations;
    assert HandlerOk(s, url);
    var i := FirstIndex(ops, receiptID);
    if |ops| > 0 {
      var other := if i == 0 then |ops| - 1 else 0;
      assert FirstWith(s, url, receiptID, ops[other].op) ==> i < |ops|;
    }
    if i < |ops| {
      assert ops[i] == Operation(ops[i].op, receiptID);
    }
  }

  /** A request is cancelled with its operation exactly when it is still suspended and no operation would be left;
      then its handler goes too. */
  lemma CancelsExactly(s: State, r: nat, receiptID: string)
    requires Inv(s) && r < |s.requests|
    ensures var s', q := CancelBlock(s, r, receiptID), s.requests[r];
            if q.task.Suspended? && LeavesNone(s, q.url, receiptID)
            then s'.requests == s.requests[r := q.(task := Cancelled)] && s'.handlers == s.handlers - {q.url}
            else s'.requests == s.requests && s'.handlers.Keys == s.handlers.Keys
  {
    var url := s.requests[r].url;
    if url in s.handlers {
      LeavesNoneExactly(s, url, receiptID);
      var s1 := CancelOperation(s, url, receiptID);
      assert s1.handlers - {url} == s.handlers - {url};
    }
  }

  /** A request that was cancelled before it started never starts. */
  lemma {:induction false} CancelledNeverStarts(states: seq<State>, steps: seq<Step>, m: nat, n: nat, r: nat)
    requires IsRun(states, steps) && m <= n < |states| && r < |states[m].requests|
    requires states[m].requests[r].task.Cancelled? && !states[m].requests[r].started
    ensures r < |states[n].requests| && !states[n].requests[r].started
    ensures states[n].requests[r].task.Cancelled? || states[n].requests[r].task.Ended?
    decreases n
  {
    if n > m {
      CancelledNeverStarts(states, steps, m, n - 1, r);
      StaysUnstarted(states[n - 1], steps[n - 1], r);
    }
  }

  lemma StaysUnstarted(s: State, step: Step, r: nat)
    requires Enabled(s, step) && r < |s.requests| && !s.requests[r].started
    requires s.requests[r].task.Cancelled? || s.requests[r].task.Ended?
    ensures var s' := Next(s, step);
            && r < |s'.requests| && !s'.requests[r].started
            && (s'.requests[r].task.Cancelled? || s'.requests[r].task.Ended?)
  {
    match step
    case Cancel(k, receiptID) => CancelPasses(s, k, receiptID, r);
    case StartNext(k) => StartFirstPasses(ToStage(s, k, Over), r);
    case _ =>
  }
}

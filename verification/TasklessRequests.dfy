/** Requests without a task, and what their operations wait for. */
module TasklessRequests {
  import opened Downloads
  import opened DownloadInvariants
  import opened DownloadLimits

  // A request whose URL request the session's adapter refused gets no task. If there is room it starts, and only its
  // completion runs; if there is none it is queued, and the loop that empties the queue passes it over. Then its
  // operations wait for good, unless they are cancelled.

  /** A request without a task that is not started is never touched again. */
  lemma TasklessStays(s: State, step: Step, r: nat)
    requires Inv(s) && Enabled(s, step) && r < |s.requests| && s.requests[r].task.Absent? && !s.requests[r].started
    ensures r < |Next(s, step).requests| && Next(s, step).requests[r] == s.requests[r]
  {
    assert RequestOk(s, r);
    match step
    case StartNext(k) => StartFirstPasses(ToStage(s, k, Over), r);
    case Download(url, receiptID, cached, adapted) => DownloadPasses(s, url, receiptID, cached, adapted, r);
    case Cancel(k, receiptID) => CancelPasses(s, k, receiptID, r);
    case _ => assert step.r != r;
  }

  lemma DownloadPasses(s: State, url: string, receiptID: string, cached: bool, adapted: bool, r: nat)
    requires r < |s.requests|
    ensures var s' := DownloadBlock(s, url, receiptID, cached, adapted);
            r < |s'.requests| && s'.requests[r] == s.requests[r]
  {
  }

  lemma StartedStays(s: State, step: Step, r: nat)
    requires Enabled(s, step) && r < |s.requests| && s.requests[r].started && s.requests[r].task.Absent?
    ensures r < |Next(s, step).requests| && Next(s, step).requests[r].started && Next(s, step).requests[r].task.Absent?
  {
    if step.StartNext? {
      StartFirstPasses(ToStage(s, step.r, Over), r);
    }
  }

  /** A download that needs a new request and gets one without a task: the request is started, now or ever,
      exactly when there is room at that moment. Otherwise its handler stays for good, with every operation that
      joins it and is not cancelled. */
  lemma {:induction false} TasklessStartsExactly(states: seq<State>, steps: seq<Step>, m: nat, n: nat)
    requires IsRun(states, steps) && m < |steps| && m < n < |states|
    requires var d := steps[m]; d.Download? && d.url !in states[m].handlers && !d.cached && !d.adapted
    ensures var s, r := states[n], |states[m].requests|;
            && r < |s.requests| && s.requests[r].task.Absent?
            && (s.requests[r].started <==> states[m].active < states[m].maximum)
            && (!s.requests[r].started ==> Live(s, r))
    decreases n
  {
    var r := |states[m].requests|;
    RunKeeps(states, steps, n);
    if n > m + 1 {
      TasklessStartsExactly(states, steps, m, n - 1);
      RunKeeps(states, steps, n - 1);
      if states[n - 1].requests[r].started {
        StartedStays(states[n - 1], steps[n - 1], r);
      } else {
        TasklessStays(states[n - 1], steps[n - 1], r);
      }
    }
    assert RequestOk(states[n], r);
  }

  /** An operation that waits for a request without a task, or has been told that it was cancelled. */
  predicate WaitsOrCancelled(s: State, op: nat)
    requires op < |s.owners|
  {
    Attached(s, op) || Dispatch(op, RequestCancelled) in s.dispatched
  }

  lemma CancelLeavesOrTells(s: State, k: nat, receiptID: string, r: nat, op: nat)
    requires Inv(s) && k < |s.requests| && r < |s.requests| && Live(s, r) && s.requests[r].task.Absent?
    requires op < |s.owners| && s.owners[op] == s.requests[r].url && Attached(s, op)
    ensures CancelBlock(s, k, receiptID).owners == s.owners && WaitsOrCancelled(CancelBlock(s, k, receiptID), op)
  {
    var url := s.requests[k].url;
    if url in s.handlers {
      var ops := s.handlers[url].operations;
      var i, s1 := FirstIndex(ops, receiptID), CancelOperation(s, url, receiptID);
      assert HandlerOk(s, url) && RequestOk(s, k);
      if i < |ops| {
        HoldsWithout(ops, i, op);
        assert s1.dispatched[|s.dispatched|] == Dispatch(ops[i].op, RequestCancelled);
      }
      assert WaitsOrCancelled(s1, op);
    }
  }

  lemma DownloadLeaves(s: State, url: string, receiptID: string, cached: bool, adapted: bool, op: nat)
    requires op < |s.owners| && WaitsOrCancelled(s, op)
    ensures var s' := DownloadBlock(s, url, receiptID, cached, adapted);
            s.owners <= s'.owners && WaitsOrCancelled(s', op)
  {
    if url in s.handlers {
      HoldsAppend(s.handlers[url].operations, Operation(|s.owners|, receiptID), op);
    }
  }

  /** Whatever happens, an operation of a request without a task that was not started stays, or is cancelled. */
  lemma TasklessStepWaits(s: State, step: Step, r: nat, op: nat)
    requires Inv(s) && Enabled(s, step) && r < |s.requests| && s.requests[r].task.Absent? && !s.requests[r].started
    requires op < |s.owners| && s.owners[op] == s.requests[r].url && WaitsOrCancelled(s, op)
    ensures s.owners <= Next(s, step).owners && WaitsOrCancelled(Next(s, step), op)
  {
    assert RequestOk(s, r);
    match step
    case Download(url, receiptID, cached, adapted) => DownloadLeaves(s, url, receiptID, cached, adapted, op);
    case Cancel(k, receiptID) =>
      if Attached(s, op) {
        CancelLeavesOrTells(s, k, receiptID, r, op);
      }
    case Remove(k) =>
      RemovesItsOwn(s, k);
    case StartNext(k) => StartFirstLeaves(ToStage(s, k, Over));
    case _ =>
  }

  /** So over a whole run: once such a request is not started, each of its operations waits, or its one completion is
      that it was cancelled. */
  lemma {:induction false} TasklessOperationWaits(states: seq<State>, steps: seq<Step>, m: nat, n: nat, r: nat, op: nat)
    requires IsRun(states, steps) && m <= n < |states| && r < |states[m].requests| && op < |states[m].owners|
    requires states[m].requests[r].task.Absent? && !states[m].requests[r].started
    requires states[m].owners[op] == states[m].requests[r].url && Attached(states[m], op)
    ensures var s := states[n];
            && r < |s.requests| && s.requests[r] == states[m].requests[r]
            && op < |s.owners| && s.owners[op] == states[m].owners[op]
            && (Attached(s, op) || Dispatch(op, RequestCancelled) in s.dispatched)
    decreases n
  {
    if n > m {
      TasklessOperationWaits(states, steps, m, n - 1, r, op);
      RunKeeps(states, steps, n - 1);
      TasklessStays(states[n - 1], steps[n - 1], r);
      TasklessStepWaits(states[n - 1], steps[n - 1], r, op);
    }
  }

  // ----- A run in which an operation waits for good -----

  /** b has no task and is queued behind a. a completes up to the count. */
  lemma FirstCompletes(a: string, b: string, id: string) returns (s: State, steps: seq<Step>)
    requires a != b
    ensures Leads(s, steps)
    ensures s == State(1, false, 0, [1], map[b := Handler(1, 1, [Operation(1, id)])],
                       [Request(a, 0, Ended, true, ToStartNext), Request(b, 1, Absent, false, Waiting)], [a, b],
                       [Dispatch(0, Succeeded)])
  {
    OneQueued(a, b, id, false);
    steps := [Download(a, id, false, true), Download(b, id, false, false)];
    var q := Request(b, 1, Absent, false, Waiting);
    var s2 := AfterA(a, b, id, q);
    var s3 := s2.(requests := [Request(a, 0, Ended, true, ToFetch(true)), q]);
    StepLeads(s2, steps, End(0, true), s3);
    var s4 := s2.(requests := [Request(a, 0, Ended, true, ToRemove(true)), q]);
    StepLeads(s3, steps + [End(0, true)], Fetch(0), s4);
    var s5 := State(1, false, 1, [1], map[b := Handler(1, 1, [Operation(1, id)])],
                    [Request(a, 0, Ended, true, ToDecrement), q], [a, b], [Dispatch(0, Succeeded)]);
    steps := steps + [End(0, true)] + [Fetch(0)];
    assert Dispatches([Operation(0, id)], Succeeded) == [Dispatch(0, Succeeded)];
    assert s4.handlers - {a} == s5.handlers;
    StepLeads(s4, steps, Remove(0), s5);
    s := s5.(active := 0, requests := [Request(a, 0, Ended, true, ToStartNext), q]);
    StepLeads(s5, steps + [Remove(0)], Decrement(0), s);
    steps := steps + [Remove(0)] + [Decrement(0)];
  }

  /** Then b leaves the queue without having started: all is quiet, and b's operation waits. */
  lemma TasklessWaits(a: string, b: string, id: string) returns (s: State, steps: seq<Step>)
    requires a != b
    ensures Leads(s, steps) && s.maximum == 1 && s.queue == [] && Quiet(s) && |s.requests| == 2 && Waits(s, 1)
    ensures s.owners == [a, b] && Attached(s, 1) && s.dispatched == [Dispatch(0, Succeeded)]
  {
    var s6, before := FirstCompletes(a, b, id);
    var n := ToStage(s6, 0, Over);
    assert StartFirst(n) == StartFirst(n.(queue := [])) == n.(queue := []);
    s, steps := n.(queue := []), before + [StartNext(0)];
    StepLeads(s6, before, StartNext(0), s);
    assert s.handlers[b].operations[0].op == 1;
  }
}

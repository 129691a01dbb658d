/** What holds of the downloader in every interleaving of its blocks. */
module DownloadInvariants {
  import opened Downloads

  // No operation is lost or completed twice, and requests stay in the queue only while others are under way.

  // ----- Operations -----

  predicate Holds(ops: seq<Operation>, op: nat) {
    exists j :: 0 <= j < |ops| && ops[j].op == op
  }

  /** In the order in which they were accepted, so all different. */
  predicate Ordered(ops: seq<Operation>) {
    forall i, j | 0 <= i < j < |ops| :: ops[i].op < ops[j].op
  }

  /** The operation is attached to the live handler of its URL. */
  predicate Attached(s: State, op: nat)
    requires op < |s.owners|
  {
    s.owners[op] in s.handlers && Holds(s.handlers[s.owners[op]].operations, op)
  }

  /** How often the operation's completion was dispatched. */
  function Times(op: nat, ds: seq<Dispatch>): (n: nat)
    decreases |ds|
  {
    if ds == [] then 0 else (if ds[0].op == op then 1 else 0) + Times(op, ds[1..])
  }

  lemma {:induction false} TimesAppend(op: nat, ds: seq<Dispatch>, es: seq<Dispatch>)
    ensures Times(op, ds + es) == Times(op, ds) + Times(op, es)
    decreases |ds|
  {
    if ds == [] {
      assert ds + es == es;
    } else {
      TimesAppend(op, ds[1..], es);
      assert (ds + es)[1..] == ds[1..] + es;
    }
  }

  lemma TimesAppendOne(op: nat, ds: seq<Dispatch>, d: Dispatch)
    ensures Times(op, ds + [d]) == Times(op, ds) + if d.op == op then 1 else 0
  {
    TimesAppend(op, ds, [d]);
    assert [d][1..] == [];
  }

  lemma {:induction false} TimesDispatches(op: nat, ops: seq<Operation>, outcome: Outcome)
    requires Ordered(ops)
    ensures Times(op, Dispatches(ops, outcome)) == if Holds(ops, op) then 1 else 0
    decreases |ops|
  {
    if ops != [] {
      var rest := ops[1..];
      TimesDispatches(op, rest, outcome);
      assert Dispatches(ops, outcome)[1..] == Dispatches(rest, outcome);
      if Holds(rest, op) {
        var j :| 0 <= j < |rest| && rest[j].op == op;
        assert ops[j + 1].op == op;
      }
      if Holds(ops, op) && ops[0].op != op {
        var j :| 0 <= j < |ops| && ops[j].op == op;
        assert rest[j - 1].op == op;
      }
    }
  }

  lemma HoldsWithout(ops: seq<Operation>, i: nat, op: nat)
    requires Ordered(ops) && i < |ops|
    ensures Ordered(Without(ops, i))
    ensures Holds(Without(ops, i), op) <==> Holds(ops, op) && op != ops[i].op
  {
    var rest := Without(ops, i);
    if j :| 0 <= j < |ops| && ops[j].op == op && j != i {
      assert rest[if j < i then j else j - 1].op == op;
    }
  }

  lemma HoldsAppend(ops: seq<Operation>, o: Operation, op: nat)
    ensures Holds(ops + [o], op) <==> Holds(ops, op) || op == o.op
  {
    var more := ops + [o];
    if j :| 0 <= j < |ops| && ops[j].op == op {
      assert more[j].op == op;
    }
    assert more[|ops|] == o;
  }

  // ----- The invariant -----

  /** The request's handler is the live one of its URL. */
  predicate Live(s: State, r: nat)
    requires r < |s.requests|
  {
    s.requests[r].url in s.handlers && s.handlers[s.requests[r].url].request == r
  }

  predicate RequestOk(s: State, r: nat)
    requires r < |s.requests|
  {
    var q := s.requests[r];
    && q.handlerID == r
    && (q.task.Absent? && !q.started ==> q.stage.Waiting? && Live(s, r))
    && (q.task.Suspended? ==> q.stage.Waiting? && !q.started && r in s.queue && Live(s, r))
    && (q.task.Running? ==> q.stage.Waiting? && q.started)
    && (q.task.Cancelled? ==> q.stage.Waiting?)
    && (q.task.Ended? ==> !q.stage.Waiting?)
    && (q.stage.ToRemove? ==> Live(s, r))
  }

  predicate HandlerOk(s: State, url: string)
    requires url in s.handlers
  {
    var h := s.handlers[url];
    && h.request < |s.requests| && h.handlerID == h.request
    && s.requests[h.request].url == url
    && !s.requests[h.request].stage.ToDecrement? && !s.requests[h.request].stage.ToStartNext?
    && !s.requests[h.request].stage.Over?
    && Ordered(h.operations)
    && forall j | 0 <= j < |h.operations| :: h.operations[j].op < |s.owners| && s.owners[h.operations[j].op] == url
  }

  /** An operation is attached, or was dispatched exactly once. */
  predicate OperationOk(s: State, op: nat)
    requires op < |s.owners|
  {
    Times(op, s.dispatched) == if Attached(s, op) then 0 else 1
  }

  predicate QueueOk(s: State) {
    && (forall i | 0 <= i < |s.queue| :: s.queue[i] < |s.requests| && !s.requests[s.queue[i]].started)
    && forall i, j | 0 <= i < j < |s.queue| :: s.queue[i] != s.queue[j]
  }

  predicate RequestsOk(s: State) { forall r | 0 <= r < |s.requests| :: RequestOk(s, r) }

  predicate HandlersOk(s: State) { forall url | url in s.handlers :: HandlerOk(s, url) }

  predicate OperationsOk(s: State) {
    && (forall op | 0 <= op < |s.owners| :: OperationOk(s, op))
    && forall i | 0 <= i < |s.dispatched| :: s.dispatched[i].op < |s.owners|
  }

  /** A completion that has still to start the next request. */
  predicate Owes(q: Request) { q.stage.ToStartNext? }

  /** A request that was started and has not been counted off. */
  predicate InFlight(q: Request) { q.started && !q.stage.ToStartNext? && !q.stage.Over? }

  function Count(p: Request -> bool, qs: seq<Request>): (n: nat)
    decreases |qs|
  {
    if qs == [] then 0 else Count(p, qs[..|qs| - 1]) + if p(qs[|qs| - 1]) then 1 else 0
  }

  predicate CountsOk(s: State) {
    && s.active <= s.maximum
    && s.active <= Count(InFlight, s.requests)
    && (s.queue != [] ==> s.active + Count(Owes, s.requests) >= s.maximum)
  }

  predicate Inv(s: State) {
    RequestsOk(s) && HandlersOk(s) && OperationsOk(s) && QueueOk(s) && CountsOk(s)
  }

  lemma {:induction false} CountUpdate(p: Request -> bool, qs: seq<Request>, r: nat, q: Request)
    requires r < |qs|
    ensures Count(p, qs[r := q]) + (if p(qs[r]) then 1 else 0) == Count(p, qs) + if p(q) then 1 else 0
    decreases |qs|
  {
    var n := |qs| - 1;
    if r == n {
      assert qs[r := q][..n] == qs[..n];
    } else {
      CountUpdate(p, qs[..n], r, q);
      assert qs[r := q][..n] == qs[..n][r := q];
    }
  }

  lemma CountAppend(p: Request -> bool, qs: seq<Request>, q: Request)
    ensures Count(p, qs + [q]) == Count(p, qs) + if p(q) then 1 else 0
  {
    assert (qs + [q])[..|qs|] == qs;
  }

  // ----- What a block leaves alone -----

  /** A block that leaves the logs and the handlers leaves every operation where it is. */
  lemma OperationsStay(s: State, s': State)
    requires OperationsOk(s) && s'.handlers == s.handlers && s'.owners == s.owners && s'.dispatched == s.dispatched
    ensures OperationsOk(s')
  {
    forall op | 0 <= op < |s'.owners|
      ensures OperationOk(s', op)
    {
      assert OperationOk(s, op);
    }
  }

  /** The requests are the same, but for more at the end and for r, which a handler still may have. */
  predicate SameFor(s: State, s': State, r: nat) {
    && |s'.requests| >= |s.requests|
    && (forall k | 0 <= k < |s.requests| && k != r :: s'.requests[k] == s.requests[k])
    && (r < |s.requests| ==> s'.requests[r].url == s.requests[r].url)
    && (r < |s.requests| && Live(s, r) ==>
          !s'.requests[r].stage.ToDecrement? && !s'.requests[r].stage.ToStartNext? && !s'.requests[r].stage.Over?)
  }

  /** So every handler that is still the same is all right. */
  lemma HandlersStay(s: State, s': State, r: nat, url: string)
    requires HandlersOk(s) && SameFor(s, s', r) && s.owners <= s'.owners
    requires url in s.handlers && url in s'.handlers && s'.handlers[url] == s.handlers[url]
    ensures HandlerOk(s', url)
  {
    assert HandlerOk(s, url);
  }

  lemma AllHandlersStay(s: State, s': State, r: nat)
    requires HandlersOk(s) && SameFor(s, s', r) && s'.owners == s.owners && s'.handlers == s.handlers
    ensures HandlersOk(s')
  {
    forall url | url in s'.handlers
      ensures HandlerOk(s', url)
    {
      HandlersStay(s, s', r, url);
    }
  }

  /** A request that is the same is all right, if its place in the queue and its handler are left. */
  lemma RequestStays(s: State, s': State, k: nat)
    requires k < |s.requests| <= |s'.requests| && s'.requests[k] == s.requests[k] && RequestOk(s, k)
    requires k in s.queue ==> k in s'.queue
    requires Live(s, k) ==> Live(s', k)
    ensures RequestOk(s', k)
  {
  }

  lemma OtherRequestsStay(s: State, s': State, r: nat)
    requires RequestsOk(s) && SameFor(s, s', r) && s'.queue == s.queue && s'.handlers == s.handlers
    ensures forall k | 0 <= k < |s.requests| && k != r :: RequestOk(s', k)
  {
    forall k | 0 <= k < |s.requests| && k != r
      ensures RequestOk(s', k)
    {
      assert RequestOk(s, k);
      RequestStays(s, s', k);
    }
  }

  /** A change of one request that the counts do not see. */
  lemma CountsStay(s: State, r: nat, q: Request)
    requires r < |s.requests| && Owes(q) == Owes(s.requests[r]) && InFlight(q) == InFlight(s.requests[r])
    ensures Count(Owes, s.requests[r := q]) == Count(Owes, s.requests)
    ensures Count(InFlight, s.requests[r := q]) == Count(InFlight, s.requests)
  {
    CountUpdate(InFlight, s.requests, r, q);
    CountUpdate(Owes, s.requests, r, q);
  }

  // ----- Download -----

  /** Appending to a live handler. */
  lemma JoinKeeps(s: State, url: string, receiptID: string)
    requires Inv(s) && url in s.handlers
    ensures Inv(DownloadBlock(s, url, receiptID, false, false))
  {
    var s' := DownloadBlock(s, url, receiptID, false, false);
    var ops, o := s.handlers[url].operations, Operation(|s.owners|, receiptID);
    assert HandlerOk(s, url);
    forall r | 0 <= r < |s'.requests|
      ensures RequestOk(s', r)
    {
      assert RequestOk(s, r);
      RequestStays(s, s', r);
    }
    forall u | u in s'.handlers
      ensures HandlerOk(s', u)
    {
      if u != url {
        HandlersStay(s, s', |s.requests|, u);
      }
    }
    forall op | 0 <= op < |s'.owners|
      ensures OperationOk(s', op)
    {
      HoldsAppend(ops, o, op);
      if op < |s.owners| {
        assert OperationOk(s, op);
      } else {
        NotYetDispatched(s, op);
      }
    }
  }

  lemma {:induction false} NeverIn(op: nat, ds: seq<Dispatch>)
    requires forall i | 0 <= i < |ds| :: ds[i].op != op
    ensures Times(op, ds) == 0
    decreases |ds|
  {
    if ds != [] {
      NeverIn(op, ds[1..]);
    }
  }

  lemma NotYetDispatched(s: State, op: nat)
    requires OperationsOk(s) && op >= |s.owners|
    ensures Times(op, s.dispatched) == 0
  {
    NeverIn(op, s.dispatched);
  }

  /** An image from the cache: the new operation is dispatched at once. */
  lemma CachedKeeps(s: State, url: string, receiptID: string)
    requires Inv(s) && url !in s.handlers
    ensures Inv(DownloadBlock(s, url, receiptID, true, false))
  {
    var s' := DownloadBlock(s, url, receiptID, true, false);
    OtherRequestsStay(s, s', |s.requests|);
    forall u | u in s'.handlers
      ensures HandlerOk(s', u)
    {
      HandlersStay(s, s', |s.requests|, u);
    }
    forall op | 0 <= op < |s'.owners|
      ensures OperationOk(s', op)
    {
      TimesAppendOne(op, s.dispatched, Dispatch(|s.owners|, FromCache));
      if op < |s.owners| {
        assert OperationOk(s, op);
      } else {
        NotYetDispatched(s, op);
      }
    }
  }

  /** The state of a new request before it is started or queued. */
  lemma NewRequestKeeps(s: State, url: string, receiptID: string, adapted: bool)
    requires Inv(s) && url !in s.handlers
    ensures var n := NewRequest(s, url, receiptID, adapted);
            && HandlersOk(n) && OperationsOk(n) && QueueOk(n) && CountsOk(n) && Live(n, |s.requests|)
            && (forall r | 0 <= r < |s.requests| :: RequestOk(n, r))
  {
    var n := NewRequest(s, url, receiptID, adapted);
    CountAppend(InFlight, s.requests, n.requests[|s.requests|]);
    CountAppend(Owes, s.requests, n.requests[|s.requests|]);
    forall r | 0 <= r < |s.requests|
      ensures RequestOk(n, r)
    {
      assert RequestOk(s, r);
      RequestStays(s, n, r);
    }
    forall u | u in n.handlers
      ensures HandlerOk(n, u)
    {
      if u != url {
        HandlersStay(s, n, |s.requests|, u);
      }
    }
    forall op | 0 <= op < |n.owners|
      ensures OperationOk(n, op)
    {
      var ops := [Operation(|s.owners|, receiptID)];
      assert ops[0].op == |s.owners|;
      assert op < |s.owners| ==> OperationOk(s, op);
      if op == |s.owners| {
        NotYetDispatched(s, op);
      }
    }
  }

  /** Starting a request that is not in the queue, when there is room. */
  lemma StartKeeps(s: State, r: nat)
    requires HandlersOk(s) && OperationsOk(s) && QueueOk(s) && s.active < s.maximum && r < |s.requests|
    requires forall k | 0 <= k < |s.requests| && k != r :: RequestOk(s, k)
    requires var q := s.requests[r];
             q.handlerID == r && (q.task.Suspended? || q.task.Absent?) && q.stage.Waiting? && !q.started
    requires r !in s.queue && s.active <= Count(InFlight, s.requests)
    requires s.queue != [] ==> s.active + 1 + Count(Owes, s.requests) >= s.maximum
    ensures Inv(Start(s, r))
  {
    var s' := Start(s, r);
    CountUpdate(InFlight, s.requests, r, s'.requests[r]);
    CountUpdate(Owes, s.requests, r, s'.requests[r]);
    forall k | 0 <= k < |s'.requests|
      ensures RequestOk(s', k)
    {
      if k != r {
        RequestStays(s, s', k);
      }
    }
    AllHandlersStay(s, s', r);
    OperationsStay(s, s');
  }

  lemma EnqueueKeepsQueue(s: State, r: nat)
    requires QueueOk(s) && r < |s.requests| && !s.requests[r].started && r !in s.queue
    ensures QueueOk(Enqueue(s, r)) && r in Enqueue(s, r).queue && forall k | k in s.queue :: k in Enqueue(s, r).queue
  {
  }

  lemma EnqueueNewKeeps(s: State, url: string, receiptID: string, adapted: bool)
    requires Inv(s) && url !in s.handlers && s.active >= s.maximum
    ensures Inv(DownloadBlock(s, url, receiptID, false, adapted))
  {
    var n, r := NewRequest(s, url, receiptID, adapted), |s.requests|;
    NewRequestKeeps(s, url, receiptID, adapted);
    var s' := Enqueue(n, r);
    EnqueueKeepsQueue(n, r);
    forall k | 0 <= k < |s'.requests|
      ensures RequestOk(s', k)
    {
      if k != r {
        RequestStays(n, s', k);
      }
    }
    AllHandlersStay(n, s', |n.requests|);
    OperationsStay(n, s');
  }

  lemma DownloadKeeps(s: State, url: string, receiptID: string, cached: bool, adapted: bool)
    requires Inv(s)
    ensures Inv(DownloadBlock(s, url, receiptID, cached, adapted))
  {
    if url in s.handlers {
      JoinKeeps(s, url, receiptID);
    } else if cached {
      CachedKeeps(s, url, receiptID);
    } else if s.active < s.maximum {
      NewRequestKeeps(s, url, receiptID, adapted);
      StartKeeps(NewRequest(s, url, receiptID, adapted), |s.requests|);
    } else {
      EnqueueNewKeeps(s, url, receiptID, adapted);
    }
  }

  // ----- Cancel -----

  lemma CancelledOperationOk(s: State, url: string, receiptID: string, op: nat)
    requires Inv(s) && url in s.handlers && op < |s.owners|
    ensures OperationOk(CancelOperation(s, url, receiptID), op)
  {
    var ops := s.handlers[url].operations;
    var i := FirstIndex(ops, receiptID);
    assert HandlerOk(s, url) && OperationOk(s, op);
    if i < |ops| {
      HoldsWithout(ops, i, op);
      TimesAppendOne(op, s.dispatched, Dispatch(ops[i].op, RequestCancelled));
      assert Holds(ops, ops[i].op);
    }
  }

  lemma CancelOperationKeeps(s: State, url: string, receiptID: string)
    requires Inv(s) && url in s.handlers
    ensures Inv(CancelOperation(s, url, receiptID))
  {
    var s', ops := CancelOperation(s, url, receiptID), s.handlers[url].operations;
    var i := FirstIndex(ops, receiptID);
    assert HandlerOk(s, url);
    if i < |ops| {
      forall r | 0 <= r < |s'.requests|
        ensures RequestOk(s', r)
      {
        assert RequestOk(s, r);
        RequestStays(s, s', r);
      }
      HoldsWithout(ops, i, 0);
      forall u | u in s'.handlers
        ensures HandlerOk(s', u)
      {
        if u != url {
          HandlersStay(s, s', |s.requests|, u);
        }
      }
      forall op | 0 <= op < |s'.owners|
        ensures OperationOk(s', op)
      {
        CancelledOperationOk(s, url, receiptID, op);
      }
    }
  }

  /** Without its handler, request r is no longer waiting; nobody else's handler goes. */
  lemma HandlerGoes(s: State, s': State, r: nat)
    requires RequestsOk(s) && HandlersOk(s) && r < |s.requests| && Live(s, r)
    requires s'.handlers == s.handlers - {s.requests[r].url} && s'.queue == s.queue && s'.owners == s.owners
    requires |s'.requests| == |s.requests|
    requires forall k | 0 <= k < |s.requests| && k != r :: s'.requests[k] == s.requests[k]
    ensures HandlersOk(s') && forall k | 0 <= k < |s.requests| && k != r :: RequestOk(s', k)
  {
    forall k | 0 <= k < |s.requests| && k != r
      ensures RequestOk(s', k)
    {
      assert RequestOk(s, k);
      RequestStays(s, s', k);
    }
    forall u | u in s'.handlers
      ensures HandlerOk(s', u)
    {
      assert HandlerOk(s, u);
    }
  }

  /** The handler that goes with a suspended request is that request's own, and has no operation left. */
  lemma DropRequestKeeps(s: State, r: nat)
    requires Inv(s) && r < |s.requests| && s.requests[r].url in s.handlers
    ensures Inv(DropRequest(s, r))
  {
    var s', q := DropRequest(s, r), s.requests[r];
    if s.handlers[q.url].operations == [] && q.task.Suspended? {
      assert RequestOk(s, r);
      CountsStay(s, r, s'.requests[r]);
      HandlerGoes(s, s', r);
      forall op | 0 <= op < |s'.owners|
        ensures OperationOk(s', op)
      {
        assert OperationOk(s, op);
      }
    }
  }

  lemma CancelKeeps(s: State, r: nat, receiptID: string)
    requires Inv(s) && r < |s.requests|
    ensures Inv(CancelBlock(s, r, receiptID))
  {
    var url := s.requests[r].url;
    if url in s.handlers {
      CancelOperationKeeps(s, url, receiptID);
      DropRequestKeeps(CancelOperation(s, url, receiptID), r);
    }
  }

  /** Cancelling touches no request but a suspended one. */
  lemma CancelPasses(s: State, k: nat, receiptID: string, r: nat)
    requires r < |s.requests| && k < |s.requests| && !s.requests[r].task.Suspended?
    ensures var s' := CancelBlock(s, k, receiptID); |s'.requests| == |s.requests| && s'.requests[r] == s.requests[r]
  {
  }

  // ----- Completion -----

  /** A change of a request that its handler, the queue and the counts do not see. */
  lemma SetRequestKeeps(s: State, r: nat, q: Request)
    requires Inv(s) && r < |s.requests| && RequestOk(SetRequest(s, r, q), r)
    requires q.url == s.requests[r].url && q.started == s.requests[r].started
    requires !Owes(q) && !Owes(s.requests[r]) && InFlight(q) == InFlight(s.requests[r])
    requires Live(s, r) ==> !q.stage.ToDecrement? && !q.stage.Over?
    ensures Inv(SetRequest(s, r, q))
  {
    var s' := SetRequest(s, r, q);
    CountsStay(s, r, q);
    OtherRequestsStay(s, s', r);
    AllHandlersStay(s, s', r);
    OperationsStay(s, s');
  }

  lemma FetchKeeps(s: State, r: nat)
    requires Inv(s) && Enabled(s, Fetch(r))
    ensures Inv(FetchBlock(s, r))
  {
    var q := s.requests[r];
    assert RequestOk(s, r);
    if q.url in s.handlers {
      assert HandlerOk(s, q.url);
    }
    SetRequestKeeps(s, r, FetchBlock(s, r).requests[r]);
  }

  /** Between the two blocks of a completion nothing can take the handler's place: what is removed is the
      request's own handler. */
  lemma RemovesItsOwn(s: State, r: nat)
    requires Inv(s) && Enabled(s, Remove(r))
    ensures Live(s, r) && s.handlers[s.requests[r].url].handlerID == s.requests[r].handlerID
  {
    assert RequestOk(s, r);
    assert HandlerOk(s, s.requests[r].url);
  }

  lemma RemoveOperationsKeeps(s: State, r: nat)
    requires Inv(s) && Enabled(s, Remove(r)) && Live(s, r)
    ensures OperationsOk(RemoveBlock(s, r))
  {
    var s', q := RemoveBlock(s, r), s.requests[r];
    var ops, outcome := s.handlers[q.url].operations, if q.stage.success then Succeeded else Failed;
    assert HandlerOk(s, q.url);
    forall op | 0 <= op < |s'.owners|
      ensures OperationOk(s', op)
    {
      assert OperationOk(s, op);
      TimesAppend(op, s.dispatched, Dispatches(ops, outcome));
      TimesDispatches(op, ops, outcome);
      if Holds(ops, op) {
        var j :| 0 <= j < |ops| && ops[j].op == op;
        assert s.owners[op] == q.url;
      }
    }
  }

  lemma RemoveKeeps(s: State, r: nat)
    requires Inv(s) && Enabled(s, Remove(r))
    ensures Inv(RemoveBlock(s, r))
  {
    var s' := RemoveBlock(s, r);
    RemovesItsOwn(s, r);
    RemoveOperationsKeeps(s, r);
    assert RequestOk(s, r);
    CountsStay(s, r, s'.requests[r]);
    HandlerGoes(s, s', r);
  }

  lemma DecrementKeeps(s: State, r: nat)
    requires Inv(s) && Enabled(s, Decrement(r))
    ensures Inv(DecrementBlock(s, r))
  {
    var s' := DecrementBlock(s, r);
    assert RequestOk(s, r);
    NotLive(s, r);
    CountUpdate(InFlight, s.requests, r, s'.requests[r]);
    CountUpdate(Owes, s.requests, r, s'.requests[r]);
    OtherRequestsStay(s, s', r);
    AllHandlersStay(s, s', r);
    OperationsStay(s, s');
  }

  /** A request that has given up its handler has none. */
  lemma NotLive(s: State, r: nat)
    requires HandlersOk(s) && r < |s.requests|
    requires s.requests[r].stage.ToDecrement? || s.requests[r].stage.ToStartNext? || s.requests[r].stage.Over?
    ensures !Live(s, r)
  {
    if s.requests[r].url in s.handlers {
      assert HandlerOk(s, s.requests[r].url);
    }
  }

  // ----- Starting the next -----

  /** Everything but the count for a non-empty queue, which may be one start short. */
  predicate AlmostOk(s: State) {
    && RequestsOk(s) && HandlersOk(s) && OperationsOk(s) && QueueOk(s)
    && s.active < s.maximum && s.active <= Count(InFlight, s.requests)
    && (s.queue != [] ==> s.active + 1 + Count(Owes, s.requests) >= s.maximum)
  }

  /** The request at the head of the queue leaves it. */
  lemma PopKeeps(s: State)
    requires AlmostOk(s) && s.queue != []
    ensures var n, r := s.(queue := s.queue[1..]), s.queue[0];
            && HandlersOk(n) && OperationsOk(n) && QueueOk(n) && r < |s.requests| && r !in n.queue
            && (forall k | 0 <= k < |n.requests| && k != r :: RequestOk(n, k))
            && (!s.requests[r].task.Suspended? ==> RequestOk(n, r))
  {
    var n, r := s.(queue := s.queue[1..]), s.queue[0];
    assert RequestOk(s, r);
    forall k | 0 <= k < |n.requests| && k != r
      ensures RequestOk(n, k)
    {
      assert RequestOk(s, k);
      if k in s.queue {
        var i :| 0 <= i < |s.queue| && s.queue[i] == k;
        assert n.queue[i - 1] == k;
      }
      RequestStays(s, n, k);
    }
    AllHandlersStay(s, n, |s.requests|);
    OperationsStay(s, n);
  }

  lemma {:induction false} StartFirstKeeps(s: State)
    requires AlmostOk(s)
    ensures Inv(StartFirst(s))
    decreases |s.queue|
  {
    if s.queue != [] {
      var r, n := s.queue[0], s.(queue := s.queue[1..]);
      PopKeeps(s);
      assert RequestOk(s, r);
      if s.requests[r].task.Suspended? {
        StartKeeps(n, r);
      } else {
        StartFirstKeeps(n);
      }
    }
  }

  /** The loop touches only the queue, the counter and a suspended request that it starts. */
  lemma {:induction false} StartFirstLeaves(s: State)
    ensures var s' := StartFirst(s);
            && s'.handlers == s.handlers && s'.owners == s.owners && s'.dispatched == s.dispatched
            && |s'.requests| == |s.requests|
    decreases |s.queue|
  {
    if s.queue != [] {
      StartFirstLeaves(s.(queue := s.queue[1..]));
    }
  }

  lemma {:induction false} StartFirstPasses(s: State, r: nat)
    requires r < |s.requests|
    ensures |StartFirst(s).requests| == |s.requests|
    ensures var q := s.requests[r];
            StartFirst(s).requests[r] == q
            || (q.task.Suspended? && StartFirst(s).requests[r] == q.(task := Running, started := true))
    decreases |s.queue|
  {
    if s.queue != [] {
      StartFirstPasses(s.(queue := s.queue[1..]), r);
    }
  }

  lemma StartNextKeeps(s: State, r: nat)
    requires Inv(s) && Enabled(s, StartNext(r))
    ensures Inv(StartNextBlock(s, r))
  {
    var n := ToStage(s, r, Over);
    assert RequestOk(s, r);
    NotLive(s, r);
    CountUpdate(InFlight, s.requests, r, n.requests[r]);
    CountUpdate(Owes, s.requests, r, n.requests[r]);
    OtherRequestsStay(s, n, r);
    AllHandlersStay(s, n, r);
    OperationsStay(s, n);
    if s.active < s.maximum {
      StartFirstKeeps(n);
    }
  }

  // ----- Runs -----

  lemma StepKeeps(s: State, step: Step)
    requires Inv(s) && Enabled(s, step)
    ensures Inv(Next(s, step))
  {
    match step
    case Download(url, receiptID, cached, adapted) => DownloadKeeps(s, url, receiptID, cached, adapted);
    case Cancel(r, receiptID) => CancelKeeps(s, r, receiptID);
    case CancelDirectly(r) => assert RequestOk(s, r); SetRequestKeeps(s, r, Next(s, step).requests[r]);
    case End(r, _) => assert RequestOk(s, r); SetRequestKeeps(s, r, Next(s, step).requests[r]);
    case Fetch(r) => FetchKeeps(s, r);
    case Remove(r) => RemoveKeeps(s, r);
    case Decrement(r) => DecrementKeeps(s, r);
    case StartNext(r) => StartNextKeeps(s, r);
  }

  ghost predicate IsRun(states: seq<State>, steps: seq<Step>) {
    && |states| == |steps| + 1 && (exists maximum, lifo :: states[0] == Initial(maximum, lifo))
    && forall i | 0 <= i < |steps| :: Enabled(states[i], steps[i]) && states[i + 1] == Next(states[i], steps[i])
  }

  lemma {:induction false} RunKeeps(states: seq<State>, steps: seq<Step>, n: nat)
    requires IsRun(states, steps) && n < |states|
    ensures Inv(states[n])
    decreases n
  {
    if n > 0 {
      RunKeeps(states, steps, n - 1);
      StepKeeps(states[n - 1], steps[n - 1]);
    }
  }

  /** In every interleaving an accepted operation is attached to the live handler of its URL and to no other, and
      not dispatched; or it is attached to none, and its completion was dispatched exactly once. */
  lemma OperationsAreConserved(states: seq<State>, steps: seq<Step>, n: nat, op: nat)
    requires IsRun(states, steps) && n < |states| && op < |states[n].owners|
    ensures var s := states[n];
            if Attached(s, op) then
              Times(op, s.dispatched) == 0
              && forall url | url in s.handlers && Holds(s.handlers[url].operations, op) :: url == s.owners[op]
            else
              Times(op, s.dispatched) == 1
              && forall url | url in s.handlers :: !Holds(s.handlers[url].operations, op)
  {
    var s := states[n];
    RunKeeps(states, steps, n);
    assert OperationOk(s, op);
    forall url | url in s.handlers && Holds(s.handlers[url].operations, op)
      ensures url == s.owners[op]
    {
      assert HandlerOk(s, url);
    }
  }

  /** The counter of active requests stays within the maximum, and when requests are queued it and the completions
      that have still to start the next one make up the maximum. */
  lemma QueueIsServed(states: seq<State>, steps: seq<Step>, n: nat)
    requires IsRun(states, steps) && n < |states|
    ensures var s := states[n];
            && s.active <= s.maximum
            && (s.queue != [] ==> s.active + Count(Owes, s.requests) >= s.maximum)
  {
    RunKeeps(states, steps, n);
  }

  /** The request's operations wait: its handler is live, but it was neither started nor cancelled, and so no
      completion of its own is to come. */
  predicate Waits(s: State, r: nat)
    requires r < |s.requests|
  {
    Live(s, r) && !s.requests[r].started && s.requests[r].stage.Waiting? && !s.requests[r].task.Cancelled?
  }

  /** No request is under way, and no completion has still to start the next one. */
  predicate Quiet(s: State) {
    forall k | 0 <= k < |s.requests| :: !InFlight(s.requests[k]) && !Owes(s.requests[k])
  }

  lemma {:induction false} QuietCounts(p: Request -> bool, qs: seq<Request>)
    requires forall k | 0 <= k < |qs| :: !p(qs[k])
    ensures Count(p, qs) == 0
    decreases |qs|
  {
    if qs != [] {
      QuietCounts(p, qs[..|qs| - 1]);
    }
  }

  /** So requests wait only as long as another one is under way. When all is quiet the queue is empty, and exactly
      the requests wait that have no task and were not started: the loop that empties the queue passes them over. */
  lemma NoneIsStranded(states: seq<State>, steps: seq<Step>, n: nat, r: nat)
    requires IsRun(states, steps) && n < |states| && r < |states[n].requests|
    requires states[n].maximum > 0 && Quiet(states[n])
    ensures states[n].queue == []
    ensures Waits(states[n], r) <==> states[n].requests[r].task.Absent? && !states[n].requests[r].started
  {
    var s := states[n];
    RunKeeps(states, steps, n);
    QuietCounts(InFlight, s.requests);
    QuietCounts(Owes, s.requests);
    assert RequestOk(s, r);
    if s.requests[r].url in s.handlers {
      assert HandlerOk(s, s.requests[r].url);
    }
  }

  /** A completion whose handler is no longer the live one dispatches nothing and leaves every handler alone. */
  lemma StaleCompletion(s: State, r: nat)
    requires Inv(s) && Enabled(s, Fetch(r)) && !Live(s, r)
    ensures FetchBlock(s, r) == ToStage(s, r, ToDecrement)
    ensures var d := DecrementBlock(FetchBlock(s, r), r);
            d.handlers == s.handlers && d.dispatched == s.dispatched && d.requests == s.requests[r := d.requests[r]]
  {
    var q := s.requests[r];
    assert RequestOk(s, r);
    if q.url in s.handlers {
      assert HandlerOk(s, q.url);
    }
  }

  lemma Extend(states: seq<State>, steps: seq<Step>, step: Step, s: State)
    requires IsRun(states, steps) && Enabled(states[|steps|], step) && s == Next(states[|steps|], step)
    ensures IsRun(states + [s], steps + [step])
  {
    var more, all := states + [s], steps + [step];
    assert more[0] == states[0];
    forall i | 0 <= i < |all|
      ensures Enabled(more[i], all[i]) && more[i + 1] == Next(more[i], all[i])
    {
      if i < |steps| {
        assert more[i] == states[i] && more[i + 1] == states[i + 1] && all[i] == steps[i];
      }
    }
  }

  /** A run that one step after the other leads to a state. */
  ghost predicate Leads(s: State, steps: seq<Step>) {
    exists states :: IsRun(states, steps) && states[|steps|] == s
  }

  lemma StepLeads(s: State, steps: seq<Step>, step: Step, s': State)
    requires Leads(s, steps) && Enabled(s, step) && s' == Next(s, step)
    ensures Leads(s', steps + [step])
  {
    var states :| IsRun(states, steps) && states[|steps|] == s;
    Extend(states, steps, step, s');
    assert (states + [s'])[|steps + [step]|] == s';
  }
}

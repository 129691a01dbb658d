/** The image downloader as a state machine whose steps are the blocks its serial queue runs. */
module Downloads {
  /** The state of a request's URLSession task. A request whose URL request the session's adapter refused has
      none; resuming it only lets its completion run. */
  datatype Task = Absent | Suspended | Running | Cancelled | Ended

  /** Where a request's completion closure is: each stage from ToFetch to ToStartNext is a block still to run. */
  datatype Stage = Waiting | ToFetch(success: bool) | ToRemove(success: bool) | ToDecrement | ToStartNext | Over

  datatype Request = Request(url: string, handlerID: nat, task: Task, started: bool, stage: Stage)

  /** op numbers the operations in the order in which they were accepted. */
  datatype Operation = Operation(op: nat, receiptID: string)

  datatype Handler = Handler(handlerID: nat, request: nat, operations: seq<Operation>)

  datatype Outcome = FromCache | Succeeded | Failed | RequestCancelled

  datatype Dispatch = Dispatch(op: nat, outcome: Outcome)

  /** The downloader, with the session's requests, and two logs: the URL of every accepted operation, and the
      completions dispatched to the main queue. */
  datatype State = State(
    maximum: nat, lifo: bool, active: nat, queue: seq<nat>, handlers: map<string, Handler>,
    requests: seq<Request>, owners: seq<string>, dispatched: seq<Dispatch>)

  datatype Step =
    | Download(url: string, receiptID: string, cached: bool, adapted: bool)
    | Cancel(r: nat, receiptID: string)
    | CancelDirectly(r: nat)
    | End(r: nat, success: bool)
    | Fetch(r: nat)
    | Remove(r: nat)
    | Decrement(r: nat)
    | StartNext(r: nat)

  predicate Enabled(s: State, step: Step) {
    match step
    case Download(_, _, _, _) => true
    case Cancel(r, _) => r < |s.requests|
    case CancelDirectly(r) => r < |s.requests| && (s.requests[r].task.Suspended? || s.requests[r].task.Running?)
    case End(r, success) =>
      r < |s.requests| && s.requests[r].stage.Waiting? &&
      (s.requests[r].task.Running? || (s.requests[r].task.Cancelled? && !success)
       || (s.requests[r].task.Absent? && s.requests[r].started && !success))
    case Fetch(r) => r < |s.requests| && s.requests[r].stage.ToFetch?
    case Remove(r) => r < |s.requests| && s.requests[r].stage.ToRemove?
    case Decrement(r) => r < |s.requests| && s.requests[r].stage.ToDecrement?
    case StartNext(r) => r < |s.requests| && s.requests[r].stage.ToStartNext?
  }

  // ----- The blocks -----

  function SetRequest(s: State, r: nat, q: Request): (s': State)
    requires r < |s.requests|
  {
    s.(requests := s.requests[r := q])
  }

  /** start: resume the task, and count it. */
  function Start(s: State, r: nat): (s': State)
    requires r < |s.requests|
  {
    var q := s.requests[r];
    SetRequest(s, r, q.(task := if q.task.Absent? then Absent else Running, started := true)).(active := s.active + 1)
  }

  function Enqueue(s: State, r: nat): (s': State) {
    s.(queue := if s.lifo then [r] + s.queue else s.queue + [r])
  }

  /** A new operation, logged under its URL. */
  function Accept(s: State, url: string): (s': State) {
    s.(owners := s.owners + [url])
  }

  /** A new request for the URL, whose handler has the one operation. */
  function NewRequest(s: State, url: string, receiptID: string, adapted: bool): (s': State) {
    var r := |s.requests|;
    Accept(s, url).(
      requests := s.requests + [Request(url, r, if adapted then Suspended else Absent, false, Waiting)],
      handlers := s.handlers[url := Handler(r, r, [Operation(|s.owners|, receiptID)])])
  }

  /** The block of download. cached tells whether the policy allows the cache and the image is there, adapted
      whether a new request gets a task. */
  function DownloadBlock(s: State, url: string, receiptID: string, cached: bool, adapted: bool): (s': State) {
    var op := |s.owners|;
    if url in s.handlers then
      var h := s.handlers[url];
      Accept(s, url).(handlers := s.handlers[url := h.(operations := h.operations + [Operation(op, receiptID)])])
    else if cached then
      Accept(s, url).(dispatched := s.dispatched + [Dispatch(op, FromCache)])
    else
      var n := NewRequest(s, url, receiptID, adapted);
      if s.active < s.maximum then Start(n, |s.requests|) else Enqueue(n, |s.requests|)
  }

  /** The position of the first operation with the receipt. */
  function FirstIndex(ops: seq<Operation>, receiptID: string): (i: nat)
    ensures i <= |ops|
    ensures i < |ops| ==> ops[i].receiptID == receiptID
    ensures forall j | 0 <= j < i :: ops[j].receiptID != receiptID
    decreases |ops|
  {
    if ops == [] || ops[0].receiptID == receiptID then 0 else 1 + FirstIndex(ops[1..], receiptID)
  }

  function Without(ops: seq<Operation>, i: nat): (r: seq<Operation>)
    requires i < |ops|
  {
    ops[..i] + ops[i + 1..]
  }

  /** cancelRequest, first part: the operation leaves the handler and is told so. */
  function CancelOperation(s: State, url: string, receiptID: string): (s': State)
    requires url in s.handlers
  {
    var h := s.handlers[url];
    var i := FirstIndex(h.operations, receiptID);
    if i == |h.operations| then s
    else s.(handlers := s.handlers[url := h.(operations := Without(h.operations, i))],
            dispatched := s.dispatched + [Dispatch(h.operations[i].op, RequestCancelled)])
  }

  /** cancelRequest, second part: with no operation left, a request that is still suspended goes. */
  function DropRequest(s: State, r: nat): (s': State)
    requires r < |s.requests| && s.requests[r].url in s.handlers
  {
    var q := s.requests[r];
    if s.handlers[q.url].operations == [] && q.task.Suspended? then
      SetRequest(s, r, q.(task := Cancelled)).(handlers := s.handlers - {q.url})
    else s
  }

  function CancelBlock(s: State, r: nat, receiptID: string): (s': State)
    requires r < |s.requests|
  {
    var url := s.requests[r].url;
    if url !in s.handlers then s else DropRequest(CancelOperation(s, url, receiptID), r)
  }

  function Dispatches(ops: seq<Operation>, outcome: Outcome): (d: seq<Dispatch>) {
    seq(|ops|, i requires 0 <= i < |ops| => Dispatch(ops[i].op, outcome))
  }

  function ToStage(s: State, r: nat, stage: Stage): (s': State)
    requires r < |s.requests|
  {
    SetRequest(s, r, s.requests[r].(stage := stage))
  }

  /** safelyFetchResponseHandler, and the test of the handler's identity. */
  function FetchBlock(s: State, r: nat): (s': State)
    requires r < |s.requests| && s.requests[r].stage.ToFetch?
  {
    var q := s.requests[r];
    ToStage(s, r, if q.url in s.handlers && s.handlers[q.url].handlerID == q.handlerID then ToRemove(q.stage.success)
                  else ToDecrement)
  }

  /** safelyRemoveResponseHandler, and the dispatch of the removed handler's operations. */
  function RemoveBlock(s: State, r: nat): (s': State)
    requires r < |s.requests| && s.requests[r].stage.ToRemove?
  {
    var q, n := s.requests[r], ToStage(s, r, ToDecrement);
    if q.url !in s.handlers then n
    else
      n.(handlers := s.handlers - {q.url},
         dispatched := s.dispatched
           + Dispatches(s.handlers[q.url].operations, if q.stage.success then Succeeded else Failed))
  }

  /** safelyDecrementActiveRequestCount */
  function DecrementBlock(s: State, r: nat): (s': State)
    requires r < |s.requests|
  {
    ToStage(s, r, ToStartNext).(active := if s.active > 0 then s.active - 1 else s.active)
  }

  /** The loop of safelyStartNextRequestIfNecessary: the first suspended request of the queue starts. */
  function StartFirst(s: State): (s': State)
    decreases |s.queue|
  {
    if s.queue == [] then s
    else
      var r, n := s.queue[0], s.(queue := s.queue[1..]);
      if r < |s.requests| && s.requests[r].task.Suspended? then Start(n, r) else StartFirst(n)
  }

  function StartNextBlock(s: State, r: nat): (s': State)
    requires r < |s.requests|
  {
    var n := ToStage(s, r, Over);
    if s.active < s.maximum then StartFirst(n) else n
  }

  function Next(s: State, step: Step): (s': State)
    requires Enabled(s, step)
  {
    match step
    case Download(url, receiptID, cached, adapted) => DownloadBlock(s, url, receiptID, cached, adapted)
    case Cancel(r, receiptID) => CancelBlock(s, r, receiptID)
    case CancelDirectly(r) => SetRequest(s, r, s.requests[r].(task := Cancelled))
    case End(r, success) =>
      var q := s.requests[r];
      SetRequest(s, r, q.(task := if q.task.Absent? then Absent else Ended, stage := ToFetch(success)))
    case Fetch(r) => FetchBlock(s, r)
    case Remove(r) => RemoveBlock(s, r)
    case Decrement(r) => DecrementBlock(s, r)
    case StartNext(r) => StartNextBlock(s, r)
  }

  function Initial(maximum: nat, lifo: bool): (s: State) {
    State(maximum, lifo, 0, [], map[], [], [], [])
  }
}

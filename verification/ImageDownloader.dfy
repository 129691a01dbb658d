/** ImageDownloader as an object. Each method is one block of the synchronization queue. */
module ImageDownloader {
  import opened Words
  import opened Downloads

  class Downloader {
    const maximumActiveDownloads: nat
    const lifo: bool
    var activeRequestCount: nat
    var queuedRequests: seq<nat>
    var responseHandlers: map<string, Handler>
    /** The session's requests. */
    var requests: seq<Request>
    /** The URL of every operation accepted so far. */
    var owners: seq<string>
    /** The completions handed to the main queue. */
    var mainQueue: seq<Dispatch>

    ghost function View(): (s: State)
      reads this
    {
      State(maximumActiveDownloads, lifo, activeRequestCount, queuedRequests, responseHandlers,
            requests, owners, mainQueue)
    }

    constructor (maximum: nat, lifo: bool)
      ensures View() == Initial(maximum, lifo)
    {
      maximumActiveDownloads := maximum;
      this.lifo := lifo;
      activeRequestCount := 0;
      queuedRequests, requests, owners, mainQueue := [], [], [], [];
      responseHandlers := map[];
    }

    /** start */
    method StartRequest(r: nat)
      requires r < |requests|
      modifies this`requests, this`activeRequestCount
      ensures View() == Start(old(View()), r)
    {
      var task := if requests[r].task.Absent? then Absent else Running;
      requests := requests[r := requests[r].(task := task, started := true)];
      activeRequestCount := activeRequestCount + 1;
    }

    /** enqueue */
    method EnqueueRequest(r: nat)
      modifies this`queuedRequests
      ensures View() == Enqueue(old(View()), r)
    {
      if lifo {
        queuedRequests := [r] + queuedRequests;
      } else {
        queuedRequests := queuedRequests + [r];
      }
    }

    /** dequeue */
    method Dequeue() returns (r: Option<nat>)
      modifies this`queuedRequests
      ensures if old(queuedRequests) == [] then r.None? && queuedRequests == []
              else r == Some(old(queuedRequests)[0]) && queuedRequests == old(queuedRequests)[1..]
    {
      r := None;
      if queuedRequests != [] {
        r := Some(queuedRequests[0]);
        queuedRequests := queuedRequests[1..];
      }
    }

    /** download: the request the operation is attached to, or none if the image came from the cache. */
    method Download(url: string, receiptID: string, cached: bool, adapted: bool) returns (request: Option<nat>)
      modifies this
      ensures View() == DownloadBlock(old(View()), url, receiptID, cached, adapted)
      ensures request == if url in responseHandlers then Some(responseHandlers[url].request) else None
    {
      var op := |owners|;
      owners := owners + [url];
      if url in responseHandlers {
        var h := responseHandlers[url];
        responseHandlers := responseHandlers[url := h.(operations := h.operations + [Operation(op, receiptID)])];
        return Some(h.request);
      }
      if cached {
        mainQueue := mainQueue + [Dispatch(op, FromCache)];
        return None;
      }
      var r := |requests|;
      requests := requests + [Request(url, r, if adapted then Suspended else Absent, false, Waiting)];
      responseHandlers := responseHandlers[url := Handler(r, r, [Operation(op, receiptID)])];
      if activeRequestCount < maximumActiveDownloads {
        StartRequest(r);
      } else {
        EnqueueRequest(r);
      }
      return Some(r);
    }

    /** operations.firstIndex */
    method Find(ops: seq<Operation>, receiptID: string) returns (i: nat)
      ensures i == FirstIndex(ops, receiptID)
    {
      i := 0;
      while i < |ops| && ops[i].receiptID != receiptID
        invariant i <= |ops| && FirstIndex(ops, receiptID) == i + FirstIndex(ops[i..], receiptID)
      {
        assert ops[i..][1..] == ops[i + 1..];
        i := i + 1;
      }
    }

    /** cancelRequest */
    method CancelRequest(r: nat, receiptID: string)
      requires r < |requests|
      modifies this
      ensures View() == CancelBlock(old(View()), r, receiptID)
    {
      var url := requests[r].url;
      if url !in responseHandlers {
        return;
      }
      var h := responseHandlers[url];
      var i := Find(h.operations, receiptID);
      if i < |h.operations| {
        responseHandlers := responseHandlers[url := h.(operations := h.operations[..i] + h.operations[i + 1..])];
        mainQueue := mainQueue + [Dispatch(h.operations[i].op, RequestCancelled)];
      }
      if responseHandlers[url].operations == [] && requests[r].task.Suspended? {
        requests := requests[r := requests[r].(task := Cancelled)];
        responseHandlers := responseHandlers - {url};
      }
    }

    /** The completion's first block, safelyFetchResponseHandler. */
    method FetchResponseHandler(r: nat)
      requires Enabled(View(), Fetch(r))
      modifies this`requests
      ensures View() == FetchBlock(old(View()), r)
    {
      var q := requests[r];
      if q.url in responseHandlers && responseHandlers[q.url].handlerID == q.handlerID {
        requests := requests[r := q.(stage := ToRemove(q.stage.success))];
      } else {
        requests := requests[r := q.(stage := ToDecrement)];
      }
    }

    /** Its second block, safelyRemoveResponseHandler, and the loop over the operations. */
    method RemoveResponseHandler(r: nat)
      requires Enabled(View(), Remove(r))
      modifies this`requests, this`responseHandlers, this`mainQueue
      ensures View() == RemoveBlock(old(View()), r)
    {
      var q := requests[r];
      requests := requests[r := q.(stage := ToDecrement)];
      if q.url !in responseHandlers {
        return;
      }
      var ops := responseHandlers[q.url].operations;
      var outcome := if q.stage.success then Succeeded else Failed;
      responseHandlers := responseHandlers - {q.url};
      for i := 0 to |ops|
        modifies this`mainQueue
        invariant mainQueue == old(mainQueue) + Dispatches(ops, outcome)[..i]
      {
        mainQueue := mainQueue + [Dispatch(ops[i].op, outcome)];
      }
      assert Dispatches(ops, outcome)[..|ops|] == Dispatches(ops, outcome);
    }

    /** safelyDecrementActiveRequestCount */
    method DecrementActiveRequestCount(r: nat)
      requires Enabled(View(), Decrement(r))
      modifies this`requests, this`activeRequestCount
      ensures View() == DecrementBlock(old(View()), r)
    {
      requests := requests[r := requests[r].(stage := ToStartNext)];
      if activeRequestCount > 0 {
        activeRequestCount := activeRequestCount - 1;
      }
    }

    /** safelyStartNextRequestIfNecessary */
    method StartNextRequest(r: nat)
      requires Enabled(View(), StartNext(r))
      modifies this`requests, this`activeRequestCount, this`queuedRequests
      ensures View() == StartNextBlock(old(View()), r)
    {
      requests := requests[r := requests[r].(stage := Over)];
      if activeRequestCount >= maximumActiveDownloads {
        return;
      }
      ghost var goal := StartFirst(View());
      while queuedRequests != []
        invariant StartFirst(View()) == goal
        invariant requests == old(requests)[r := old(requests)[r].(stage := Over)]
        decreases |queuedRequests|
      {
        var next := Dequeue();
        if next.Some? && next.value < |requests| && requests[next.value].task.Suspended? {
          StartRequest(next.value);
          return;
        }
      }
    }
  }
}

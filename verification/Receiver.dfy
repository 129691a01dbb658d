/** The receiving side of the DTLS handshake transport. */
module Receiver {
  import opened Words
  import opened Handshake
  import opened Reassembly

  // A window of message slots, filled by fragments in any order and emptied in sequence.

  datatype RecordType = ChangeCipherSpec | ApplicationData | HandshakeRecord | OtherRecord

  /** A record as dtls_open_record hands it over. */
  datatype Record = Record(typ: RecordType, payload: seq<byte>)

  /** The receive state. The number of slots is SSL_MAX_HANDSHAKE_FLIGHT. */
  datatype Inbox = Inbox(
    slots: seq<Option<Message>>, readSeq: nat, hasMessage: bool, hasCcs: bool,
    maxLen: nat, epoch: nat, nullCipher: bool)
  {
    function Index(seqNum: nat): (i: nat)
      requires |slots| > 0
      ensures i < |slots|
    {
      seqNum % |slots|
    }

    /** dtls1_is_current_message_complete */
    predicate CurrentComplete()
      requires |slots| > 0
    {
      var m := slots[Index(readSeq)];
      m.Some? && m.value.Complete()
    }
  }

  /** Every occupied slot holds a message of the window, in its own place. */
  ghost predicate WindowOk(p: Inbox) {
    && |p.slots| > 0
    && forall i | 0 <= i < |p.slots| && p.slots[i].Some? :: SlotOk(p, i)
  }

  ghost predicate SlotOk(p: Inbox, i: nat)
    requires i < |p.slots| && p.slots[i].Some?
  {
    var m := p.slots[i].value;
    m.Valid() && m.seqNum % |p.slots| == i && p.readSeq <= m.seqNum < p.readSeq + |p.slots|
  }

  /** ssl_open_record_success, ssl_open_record_discard, ssl_open_record_error */
  datatype Verdict = Success | Discard | Error

  /** dtls1_get_incoming_message: the slot's message, or a new one; none if the window or the message does not fit. */
  function Lookup(p: Inbox, f: Fragment): (r: Option<Message>)
    requires WindowOk(p) && f.seqNum >= p.readSeq
    ensures r.Some? ==> r.value.Valid() && r.value.typ == f.typ && r.value.msgLen == f.msgLen
    ensures r.Some? ==> f.seqNum < p.readSeq + |p.slots|
  {
    var s := p.slots[p.Index(f.seqNum)];
    assert s.Some? ==> SlotOk(p, p.Index(f.seqNum));
    if f.seqNum - p.readSeq >= |p.slots| then None
    else if s.None? then Some(Start(f.typ, f.seqNum, f.msgLen))
    else if s.value.typ != f.typ || s.value.msgLen != f.msgLen then None
    else s
  }

  /** Put a message in its slot. */
  function Put(p: Inbox, i: nat, m: Message): (p': Inbox)
    requires i < |p.slots|
  {
    p.(slots := p.slots[i := Some(m)])
  }

  /** The body of dtls1_open_handshake's loop, for one fragment. */
  function Accept(p: Inbox, f: Fragment): (r: (Inbox, bool))
    requires WindowOk(p)
    ensures |r.0.slots| == |p.slots| && r.0.readSeq == p.readSeq
  {
    if f.off > f.msgLen || f.off + |f.body| > f.msgLen || f.msgLen > p.maxLen then (p, false)
    else if p.epoch == 1 && f.seqNum != p.readSeq then (p, false)
    else if f.seqNum < p.readSeq || f.seqNum > p.readSeq + |p.slots| then (p, true)
    else
      // Lookup tests the window again, one sequence number tighter.
      match Lookup(p, f)
      case None => (p, false)
      case Some(m) => (Put(p, p.Index(f.seqNum), if m.Complete() then m else m.Add(f.off, f.body)), true)
  }

  lemma SameResidue(n: int, a: nat, b: nat)
    requires n > 0 && a % n == b % n && a <= b < a + n
    ensures a == b
  {
    DivMod(a, n);
    DivMod(b, n);
    var qa, qb := a / n, b / n;
    if qa < qb {
      MulMono(qa + 1, qb, n);
    } else {
      MulMono(qb, qa, n);
    }
  }

  lemma SameSlotSameMessage(n: int, a: nat, b: nat, low: nat)
    requires n > 0 && a % n == b % n && low <= a < low + n && low <= b < low + n
    ensures a == b
  {
    if a <= b {
      SameResidue(n, a, b);
    } else {
      SameResidue(n, b, a);
    }
  }

  /** The assertion that a slot's message has the fragment's sequence number never fires. */
  lemma SlotMatchesFragment(p: Inbox, f: Fragment)
    requires WindowOk(p) && p.readSeq <= f.seqNum < p.readSeq + |p.slots|
    requires p.slots[p.Index(f.seqNum)].Some?
    ensures p.slots[p.Index(f.seqNum)].value.seqNum == f.seqNum
  {
    var i := p.Index(f.seqNum);
    assert SlotOk(p, i);
    SameSlotSameMessage(|p.slots|, p.slots[i].value.seqNum, f.seqNum, p.readSeq);
  }

  /** Fragments keep the window invariant. */
  lemma AcceptKeepsWindow(p: Inbox, f: Fragment)
    requires WindowOk(p)
    ensures WindowOk(Accept(p, f).0)
  {
    var p' := Accept(p, f).0;
    forall i | 0 <= i < |p'.slots| && p'.slots[i].Some?
      ensures SlotOk(p', i)
    {
      assert p.slots[i].Some? ==> SlotOk(p, i);
    }
  }

  /** The loop over the fragments of a record. On an error the earlier fragments stay. */
  function AcceptAll(p: Inbox, s: seq<byte>): (r: (Inbox, Verdict))
    requires WindowOk(p)
    ensures WindowOk(r.0)
    decreases |s|
  {
    if s == [] then (p, Success)
    else
      match ParseFragment(s)
      case Err => (p, Error)
      case Ok(f, rest) =>
        AcceptKeepsWindow(p, f);
        var (p', ok) := Accept(p, f);
        if ok then AcceptAll(p', rest) else (p', Error)
  }

  /** dtls1_open_handshake, after the record has been opened. */
  function Open(p: Inbox, r: Record): (out: (Inbox, Verdict))
    requires WindowOk(p)
    ensures WindowOk(out.0)
  {
    match r.typ
    case ApplicationData => (p, if p.nullCipher then Error else Discard)
    case ChangeCipherSpec =>
      if !p.nullCipher || r.payload != [1] then (p, Error) else (p.(hasCcs := true), Success)
    case HandshakeRecord => AcceptAll(p, r.payload)
    case OtherRecord => (p, Error)
  }

  /** The inbox, and whether reading has failed. */
  datatype Reader = Reader(inbox: Inbox, failed: bool)

  /** ssl_open_handshake: an error is final, nothing is read after it. */
  function Read(p: Reader, r: Record): (out: (Reader, Verdict))
    requires WindowOk(p.inbox)
    ensures WindowOk(out.0.inbox)
  {
    if p.failed then (p, Error)
    else
      var (q, verdict) := Open(p.inbox, r);
      (Reader(q, verdict.Error?), verdict)
  }

  /** dtls1_open_change_cipher_spec: takes the flag down, after reading a record if it is not up. */
  function OpenChangeCipherSpec(p: Inbox, r: Record): (out: (Inbox, Verdict))
    requires WindowOk(p)
    ensures WindowOk(out.0)
  {
    var (q, verdict) := if p.hasCcs then (p, Success) else Open(p, r);
    if !verdict.Success? then (q, verdict)
    else if q.hasCcs then (q.(hasCcs := false), Success)
    else (q, Discard)
  }

  /** ssl_open_change_cipher_spec */
  function ReadChangeCipherSpec(p: Reader, r: Record): (out: (Reader, Verdict))
    requires WindowOk(p.inbox)
    ensures WindowOk(out.0.inbox)
  {
    if p.failed then (p, Error)
    else
      var (q, verdict) := OpenChangeCipherSpec(p.inbox, r);
      (Reader(q, verdict.Error?), verdict)
  }

  /** dtls1_get_message: the current message with its header, once it is complete. */
  function GetMessage(p: Inbox): (r: Option<seq<byte>>)
    requires WindowOk(p)
  {
    if p.CurrentComplete() then Some(p.slots[p.Index(p.readSeq)].value.Raw()) else None
  }

  /** What dtls1_get_message notes: that the current message was handed out. */
  function Noted(p: Inbox): (p': Inbox)
    requires WindowOk(p)
    ensures WindowOk(p')
  {
    if p.CurrentComplete() then p.(hasMessage := true) else p
  }

  /** dtls1_next_message */
  function NextMessage(p: Inbox): (p': Inbox)
    requires WindowOk(p) && p.CurrentComplete()
    ensures WindowOk(p')
  {
    var i := p.Index(p.readSeq);
    var p' := p.(slots := p.slots[i := None], readSeq := p.readSeq + 1, hasMessage := false);
    assert WindowOk(p') by {
      NextKeepsWindow(p, p');
    }
    p'
  }

  lemma NextKeepsWindow(p: Inbox, p': Inbox)
    requires WindowOk(p)
    requires p' == p.(slots := p.slots[p.Index(p.readSeq) := None], readSeq := p.readSeq + 1, hasMessage := false)
    ensures WindowOk(p')
  {
    forall j | 0 <= j < |p'.slots| && p'.slots[j].Some?
      ensures SlotOk(p', j)
    {
      assert p.slots[j].Some? && SlotOk(p, j);
    }
  }

  lemma PutKeepsWindow(p: Inbox, i: nat, m: Message)
    requires WindowOk(p) && i < |p.slots| && m.Valid()
    requires m.seqNum % |p.slots| == i && p.readSeq <= m.seqNum < p.readSeq + |p.slots|
    ensures WindowOk(Put(p, i, m))
  {
    var p' := Put(p, i, m);
    forall j | 0 <= j < |p'.slots| && p'.slots[j].Some?
      ensures SlotOk(p', j)
    {
      assert j != i ==> SlotOk(p, j);
    }
  }

  // ----- What a slot keeps -----

  /** Until it is released, a completed message does not change: no fragment touches it. */
  lemma CompletedStays(p: Inbox, f: Fragment, i: nat)
    requires WindowOk(p) && i < |p.slots| && p.slots[i].Some? && p.slots[i].value.Complete()
    ensures i < |Accept(p, f).0.slots| && Accept(p, f).0.slots[i] == p.slots[i]
  {
  }

  lemma {:induction false} CompletedStaysThroughRecord(p: Inbox, s: seq<byte>, i: nat)
    requires WindowOk(p) && i < |p.slots| && p.slots[i].Some? && p.slots[i].value.Complete()
    ensures var p' := AcceptAll(p, s).0; i < |p'.slots| && p'.slots[i] == p.slots[i]
    decreases |s|
  {
    if s != [] {
      match ParseFragment(s)
      case Err =>
      case Ok(f, rest) =>
        CompletedStays(p, f, i);
        AcceptKeepsWindow(p, f);
        if Accept(p, f).1 {
          CompletedStaysThroughRecord(Accept(p, f).0, rest, i);
        }
    }
  }

  /** The two window tests differ at exactly one sequence number, which is an error and not dropped. */
  lemma WindowEdge(p: Inbox, f: Fragment)
    requires WindowOk(p) && p.epoch != 1
    requires f.off + |f.body| <= f.msgLen <= p.maxLen
    ensures f.seqNum == p.readSeq + |p.slots| ==> Accept(p, f) == (p, false)
    ensures f.seqNum < p.readSeq || f.seqNum > p.readSeq + |p.slots| ==> Accept(p, f) == (p, true)
  {
  }
}

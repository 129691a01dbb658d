/** The DTLS handshake transport end to end, over a network that loses, repeats and reorders. */
module Transport {
  import opened Words
  import opened Handshake
  import opened Reassembly
  import opened Receiver
  import opened Sender
  import opened Flights

  // Whatever the network does, the receiver hands on the sender's messages in order, each once.

  datatype HandshakeMessage = HandshakeMessage(typ: byte, body: seq<byte>)

  /** network holds every record of every packet that was ever written: any of them may arrive next, or again,
      or never. history and delivered log what the sender was given and what the receiver handed on. */
  datatype State = State(
    outbox: Outbox, history: seq<HandshakeMessage>, network: set<Record>, reader: Reader,
    delivered: seq<seq<byte>>)

  /** The link, with its MTU, may differ from call to call; bio is the outcome of each write. */
  datatype Step =
    | AddMessage(link: Link, typ: byte, body: seq<byte>)
    | AddChangeCipherSpec(link: Link)
    | FlushFlight(link: Link, bio: nat -> bool)
    | RetransmitFlight(link: Link, bio: nat -> bool)
    | Arrive(record: Record)
    | Consume

  ghost predicate Enabled(s: State, step: Step) {
    match step
    // The body has a 24-bit length, and sequence numbers do not wrap.
    case AddMessage(_, _, body) => |body| < 0x100_0000 && s.outbox.writeSeq < 0x1_0000
    case AddChangeCipherSpec(_) => true
    case FlushFlight(link, _) => LinkOk(link)
    case RetransmitFlight(link, _) => LinkOk(link)
    case Arrive(record) => record in s.network
    case Consume => |s.reader.inbox.slots| > 0 && s.reader.inbox.CurrentComplete()
  }

  function Elements(rs: seq<Record>): (s: set<Record>) {
    set r | r in rs
  }

  /** dtls1_init_message, dtls1_finish_message and dtls1_add_message */
  function Added(s: State, link: Link, typ: byte, body: seq<byte>): (s': State) {
    var data := FinishMessage(InitMessage(typ, s.outbox.writeSeq, body)).value;
    var (o, ok) := AddOutgoing(s.outbox, link, Outgoing(false, data));
    s.(outbox := o, history := if ok then s.history + [HandshakeMessage(typ, body)] else s.history)
  }

  function Wrote(s: State, r: Sent): (s': State) {
    s.(outbox := r.o, network := s.network + Elements(Records(r.packets)))
  }

  ghost function Next(s: State, step: Step): (s': State)
    requires WindowOk(s.reader.inbox) && Enabled(s, step)
  {
    match step
    case AddMessage(link, typ, body) => Added(s, link, typ, body)
    case AddChangeCipherSpec(link) => s.(outbox := AddOutgoing(s.outbox, link, Outgoing(true, [])).0)
    case FlushFlight(link, bio) => Wrote(s, Flush(s.outbox, link, bio, 0))
    case RetransmitFlight(link, bio) => Wrote(s, Retransmit(s.outbox, link, bio, 0))
    case Arrive(record) => s.(reader := Read(s.reader, record).0)
    case Consume =>
      s.(reader := s.reader.(inbox := NextMessage(s.reader.inbox)),
         delivered := s.delivered + [GetMessage(s.reader.inbox).value])
  }

  ghost predicate Initial(s: State) {
    && s.outbox == Outbox([], 0, 0, false, 0) && s.history == [] && s.network == {} && s.delivered == []
    && !s.reader.failed && WindowOk(s.reader.inbox) && s.reader.inbox.readSeq == 0
    && forall i | 0 <= i < |s.reader.inbox.slots| :: s.reader.inbox.slots[i].None?
  }

  /** A run: each step from the state the one before left. */
  ghost predicate IsRun(states: seq<State>, steps: seq<Step>) {
    && |states| == |steps| + 1 && Initial(states[0])
    && forall i | 0 <= i < |steps| ::
         && WindowOk(states[i].reader.inbox) && Enabled(states[i], steps[i])
         && states[i + 1] == Next(states[i], steps[i])
  }

  // ----- The invariant -----

  /** A fragment of a message of the history. */
  predicate FragmentOk(f: Fragment, h: seq<HandshakeMessage>) {
    && Fits(f) && f.seqNum < |h|
    && f.typ == h[f.seqNum].typ && f.msgLen == |h[f.seqNum].body|
    && f.off + |f.body| <= f.msgLen && f.body == h[f.seqNum].body[f.off..f.off + |f.body|]
  }

  predicate RecordOk(r: Record, h: seq<HandshakeMessage>) {
    r == CCS ||
    (r.typ.HandshakeRecord? &&
     match ParseFragment(r.payload)
     case Err => false
     case Ok(f, rest) => rest == [] && FragmentOk(f, h))
  }

  /** A message of the flight is one of the history, whole. */
  ghost predicate OutgoingOk(m: Outgoing, h: seq<HandshakeMessage>) {
    m.isCcs || (WellFormed(m) && FragmentOk(Parsed(m), h) && |Parsed(m).body| == Parsed(m).msgLen)
  }

  ghost predicate OutboxOk(o: Outbox, h: seq<HandshakeMessage>) {
    && |h| == o.writeSeq <= 0x1_0000
    && (forall i | 0 <= i < |o.messages| :: OutgoingOk(o.messages[i], h))
    && FlightOk(o.messages) && CursorOk(o.messages, o.At()) && Distinct(o.messages)
  }

  /** What is in of a message under reassembly is the sender's. */
  predicate MessageOk(m: Message, h: seq<HandshakeMessage>) {
    && m.seqNum < |h| && m.typ == h[m.seqNum].typ && m.msgLen == |h[m.seqNum].body|
    && forall i | i in m.bytes :: i < m.msgLen && m.bytes[i] == h[m.seqNum].body[i]
  }

  ghost predicate InboxOk(p: Inbox, h: seq<HandshakeMessage>) {
    WindowOk(p) && forall i | 0 <= i < |p.slots| && p.slots[i].Some? :: MessageOk(p.slots[i].value, h)
  }

  function WholeMessage(h: seq<HandshakeMessage>, i: nat): (s: seq<byte>)
    requires i < |h|
  {
    Whole(h[i].typ, i, h[i].body)
  }

  /** delivered is a prefix of the history: in order, each message once, byte for byte. */
  predicate IsPrefix(delivered: seq<seq<byte>>, h: seq<HandshakeMessage>) {
    |delivered| <= |h| && forall i | 0 <= i < |delivered| :: delivered[i] == WholeMessage(h, i)
  }

  ghost predicate Inv(s: State) {
    && OutboxOk(s.outbox, s.history)
    && (forall r | r in s.network :: RecordOk(r, s.history))
    && InboxOk(s.reader.inbox, s.history)
    && IsPrefix(s.delivered, s.history) && |s.delivered| == s.reader.inbox.readSeq
  }

  // ----- Adding to the flight -----

  lemma HistoryGrows(h: seq<HandshakeMessage>, m: HandshakeMessage)
    ensures forall f | FragmentOk(f, h) :: FragmentOk(f, h + [m])
    ensures forall r | RecordOk(r, h) :: RecordOk(r, h + [m])
    ensures forall p | InboxOk(p, h) :: InboxOk(p, h + [m])
    ensures forall o | OutgoingOk(o, h) :: OutgoingOk(o, h + [m])
    ensures forall d | IsPrefix(d, h) :: IsPrefix(d, h + [m])
  {
  }

  lemma NewMessage(typ: byte, seqNum: nat, body: seq<byte>)
    requires seqNum < 0x1_0000 && |body| < 0x100_0000
    ensures FinishMessage(InitMessage(typ, seqNum, body)) == Some(Whole(typ, seqNum, body))
    ensures ParseFragment(Whole(typ, seqNum, body)) == Ok(Fragment(typ, |body|, seqNum, 0, body), [])
  {
    FinishedMessage(typ, seqNum, body);
    ParseInvertsSerialize(Fragment(typ, |body|, seqNum, 0, body), []);
    assert Whole(typ, seqNum, body) + [] == Whole(typ, seqNum, body);
  }

  /** The flight after a message has been added, with the history it then stands for. */
  lemma AddedIsOk(o: Outbox, l: Link, m: Outgoing, h: seq<HandshakeMessage>, h': seq<HandshakeMessage>)
    requires OutboxOk(o, h) && OutgoingOk(m, h') && |h'| <= 0x1_0000
    requires if m.isCcs then h' == h else |h'| == |h| + 1 && h' == h + [h'[|h|]] && Parsed(m).seqNum == |h|
    ensures var (o', ok) := AddOutgoing(o, l, m); OutboxOk(o', if ok then h' else h)
  {
    if !m.isCcs {
      HistoryGrows(h, h'[|h|]);
    }
  }

  lemma AddMessageKeeps(s: State, link: Link, typ: byte, body: seq<byte>)
    requires Inv(s) && Enabled(s, AddMessage(link, typ, body))
    ensures Inv(Added(s, link, typ, body))
  {
    var m, seqNum := HandshakeMessage(typ, body), s.outbox.writeSeq;
    var h := s.history + [m];
    NewMessage(typ, seqNum, body);
    AddedIsOk(s.outbox, link, Outgoing(false, Whole(typ, seqNum, body)), s.history, h);
    HistoryGrows(s.history, m);
  }

  lemma AddChangeCipherSpecKeeps(s: State, link: Link)
    requires Inv(s)
    ensures Inv(Next(s, AddChangeCipherSpec(link)))
  {
    AddedIsOk(s.outbox, link, Outgoing(true, []), s.history, s.history);
  }

  // ----- Writing packets -----

  lemma PartOk(f: Fragment, offset: nat, n: nat, h: seq<HandshakeMessage>)
    requires FragmentOk(f, h) && f.off == 0 && |f.body| == f.msgLen && offset + n <= f.msgLen
    ensures RecordOk(FragmentRecord(f, offset, n), h)
  {
    var part := f.(off := offset, body := f.body[offset..offset + n]);
    assert f.body == h[f.seqNum].body;
    assert FragmentOk(part, h);
    ParseInvertsSerialize(part, []);
    assert Serialize(part) + [] == Serialize(part);
  }

  lemma FollowedRecordOk(ms: seq<Outgoing>, c: Cursor, r: Record, h: seq<HandshakeMessage>)
    requires FlightOk(ms) && (forall i | 0 <= i < |ms| :: OutgoingOk(ms[i], h)) && Follow(ms, c, r).Some?
    ensures RecordOk(r, h)
  {
    if !ms[c.written].isCcs {
      assert OutgoingOk(ms[c.written], h);
      PartOk(Parsed(ms[c.written]), c.offset, |r.payload| - HEADER_LENGTH, h);
    }
  }

  lemma {:induction false} FollowedRecordsOk(ms: seq<Outgoing>, c: Cursor, rs: seq<Record>, h: seq<HandshakeMessage>)
    requires FlightOk(ms) && (forall i | 0 <= i < |ms| :: OutgoingOk(ms[i], h)) && FollowAll(ms, c, rs).Some?
    ensures forall r | r in rs :: RecordOk(r, h)
    decreases |rs|
  {
    if rs != [] {
      FollowedRecordOk(ms, c, rs[0], h);
      FollowedRecordsOk(ms, Follow(ms, c, rs[0]).value, rs[1..], h);
    }
  }

  /** Whatever the MTU, and wherever writes fail, what is written are fragments of the history's messages. */
  lemma WriteKeeps(s: State, o: Outbox, link: Link, bio: nat -> bool)
    requires Inv(s) && LinkOk(link) && OutboxOk(o, s.history)
    ensures Inv(Wrote(s, Send(o, link, bio, 0)))
  {
    SendFollows(o, link, bio, 0);
    FollowedRecordsOk(o.messages, o.At(), Records(Send(o, link, bio, 0).packets), s.history);
  }

  // ----- Arriving -----

  lemma AddIsOk(m: Message, f: Fragment, h: seq<HandshakeMessage>)
    requires m.Valid() && MessageOk(m, h) && FragmentOk(f, h) && f.seqNum == m.seqNum
    ensures MessageOk(m.Add(f.off, f.body), h)
  {
    var body := h[m.seqNum].body;
    forall i | i in m.Add(f.off, f.body).bytes
      ensures i < m.msgLen && m.Add(f.off, f.body).bytes[i] == body[i]
    {
      if i in Piece(f.off, f.body) {
        assert f.body[i - f.off] == body[f.off..f.off + |f.body|][i - f.off];
      }
    }
  }

  lemma LookupIsOk(p: Inbox, f: Fragment, h: seq<HandshakeMessage>)
    requires InboxOk(p, h) && FragmentOk(f, h) && f.seqNum >= p.readSeq && Lookup(p, f).Some?
    ensures MessageOk(Lookup(p, f).value, h) && Lookup(p, f).value.seqNum == f.seqNum
  {
    if p.slots[p.Index(f.seqNum)].Some? {
      SlotMatchesFragment(p, f);
    }
  }

  lemma PutIsOk(p: Inbox, i: nat, m: Message, h: seq<HandshakeMessage>)
    requires InboxOk(p, h) && i < |p.slots| && MessageOk(m, h) && WindowOk(Put(p, i, m))
    ensures InboxOk(Put(p, i, m), h)
  {
  }

  lemma AcceptKeeps(p: Inbox, f: Fragment, h: seq<HandshakeMessage>)
    requires InboxOk(p, h) && FragmentOk(f, h)
    ensures InboxOk(Accept(p, f).0, h)
  {
    AcceptKeepsWindow(p, f);
    if f.seqNum >= p.readSeq && Lookup(p, f).Some? {
      var m := Lookup(p, f).value;
      LookupIsOk(p, f, h);
      AddIsOk(m, f, h);
      if Accept(p, f).0 != p {
        PutIsOk(p, p.Index(f.seqNum), if m.Complete() then m else m.Add(f.off, f.body), h);
      }
    }
  }

  /** A record of the network changes the inbox as its fragment does, and only reads as one fragment. */
  lemma OpenIsAccept(p: Inbox, r: Record, h: seq<HandshakeMessage>)
    requires WindowOk(p) && RecordOk(r, h) && r.typ.HandshakeRecord?
    ensures Open(p, r).0 == Accept(p, ParseFragment(r.payload).value).0
  {
    var f := ParseFragment(r.payload).value;
    AcceptKeepsWindow(p, f);
    assert AcceptAll(Accept(p, f).0, []).0 == Accept(p, f).0;
  }

  lemma OpenKeeps(p: Inbox, r: Record, h: seq<HandshakeMessage>)
    requires InboxOk(p, h) && RecordOk(r, h)
    ensures InboxOk(Open(p, r).0, h) && Open(p, r).0.readSeq == p.readSeq && |Open(p, r).0.slots| == |p.slots|
  {
    if r.typ.HandshakeRecord? {
      OpenIsAccept(p, r, h);
      AcceptKeeps(p, ParseFragment(r.payload).value, h);
    } else {
      assert Open(p, r).0.slots == p.slots;
    }
  }

  // ----- Consuming -----

  /** A complete message under reassembly is the sender's message. */
  lemma CompleteIsWhole(m: Message, h: seq<HandshakeMessage>)
    requires MessageOk(m, h) && m.Complete()
    ensures m.Raw() == WholeMessage(h, m.seqNum)
  {
    assert m.Body() == h[m.seqNum].body;
  }

  lemma ConsumeKeeps(s: State)
    requires Inv(s) && s.reader.inbox.CurrentComplete()
    ensures Inv(Next(s, Consume))
  {
    var p, h := s.reader.inbox, s.history;
    var i := p.Index(p.readSeq);
    assert SlotOk(p, i);
    SameSlotSameMessage(|p.slots|, p.slots[i].value.seqNum, p.readSeq, p.readSeq);
    CompleteIsWhole(p.slots[i].value, h);
    assert IsPrefix(s.delivered + [GetMessage(p).value], h);
  }

  // ----- Runs -----

  /** Every step keeps the invariant. */
  lemma StepKeeps(s: State, step: Step)
    requires Inv(s) && Enabled(s, step)
    ensures Inv(Next(s, step))
  {
    match step
    case AddMessage(link, typ, body) => AddMessageKeeps(s, link, typ, body);
    case AddChangeCipherSpec(link) => AddChangeCipherSpecKeeps(s, link);
    case FlushFlight(link, bio) => WriteKeeps(s, s.outbox.(complete := true), link, bio);
    case RetransmitFlight(link, bio) => WriteKeeps(s, s.outbox.(written := 0, offset := 0), link, bio);
    case Arrive(record) => if !s.reader.failed { OpenKeeps(s.reader.inbox, record, s.history); }
    case Consume => ConsumeKeeps(s);
  }

  /** In every reachable state, for any MTUs, any write failures, rewinds and retransmissions, and any loss,
      repetition and reordering on the way, the receiver has handed on a prefix of the sender's messages. */
  lemma {:induction false} DeliveredIsPrefix(states: seq<State>, steps: seq<Step>, n: nat)
    requires IsRun(states, steps) && n < |states|
    ensures Inv(states[n]) && IsPrefix(states[n].delivered, states[n].history)
    decreases n
  {
    if n > 0 {
      DeliveredIsPrefix(states, steps, n - 1);
      StepKeeps(states[n - 1], steps[n - 1]);
    }
  }
}

/** A sender that waits for its turn is never refused a record, and never stuck. */
module TakingTurns {
  import opened Words
  import opened Handshake
  import opened Receiver
  import opened Sender
  import opened Flights
  import opened Transport
  import opened Completion

  // ----- Runs in which the sender waits -----

  // A flight ends with the sender waiting for the peer, and the peer answers once it has taken all of it. A sender
  // that begins a new flight only then keeps every record within the window. One that does not wait can end the
  // receiver's reading.

  /** A new flight begins only when the receiver has taken all of the last one. */
  predicate InTurn(s: State) {
    s.outbox.complete ==> |s.delivered| == |s.history|
  }

  /** The sender waits for its turn, its flights are no longer than the window, and no body is longer than the
      receiver takes. */
  predicate Polite(s: State, step: Step) {
    match step
    case AddMessage(link, _, body) =>
      InTurn(s) && link.flight <= |s.reader.inbox.slots| && |body| <= s.reader.inbox.maxLen
    case AddChangeCipherSpec(link) => InTurn(s) && link.flight <= |s.reader.inbox.slots|
    case _ => true
  }

  ghost predicate IsPoliteRun(states: seq<State>, steps: seq<Step>) {
    && IsRun(states, steps) && states[0].reader.inbox.epoch != 1 && states[0].reader.inbox.nullCipher
    && forall i | 0 <= i < |steps| :: Polite(states[i], steps[i])
  }

  /** Message k is in the flight. */
  ghost predicate Aboard(ms: seq<Outgoing>, k: nat)
    requires FlightOk(ms)
  {
    exists i :: 0 <= i < |ms| && !ms[i].isCcs && Parsed(ms[i]).seqNum == k
  }

  ghost predicate FlightInv(s: State) {
    && Inv(s) && !s.reader.failed && s.reader.inbox.epoch != 1 && s.reader.inbox.nullCipher
    && (forall i | 0 <= i < |s.history| :: |s.history[i].body| <= s.reader.inbox.maxLen)
    && |s.history| <= |s.delivered| + |s.outbox.messages| && |s.outbox.messages| <= |s.reader.inbox.slots|
    && forall k | |s.delivered| <= k < |s.history| :: Aboard(s.outbox.messages, k)
  }

  lemma StillAboard(ms: seq<Outgoing>, m: Outgoing, k: nat)
    requires FlightOk(ms) && WellFormed(m)
    requires Aboard(ms, k) || (!m.isCcs && Parsed(m).seqNum == k)
    ensures FlightOk(ms + [m]) && Aboard(ms + [m], k)
  {
    var all := ms + [m];
    if i :| 0 <= i < |ms| && !ms[i].isCcs && Parsed(ms[i]).seqNum == k {
      assert all[i] == ms[i];
    } else {
      assert all[|ms|] == m;
    }
  }

  lemma AddMessageKeepsFlight(s: State, link: Link, typ: byte, body: seq<byte>)
    requires FlightInv(s) && Enabled(s, AddMessage(link, typ, body)) && Polite(s, AddMessage(link, typ, body))
    ensures FlightInv(Added(s, link, typ, body))
  {
    var s', seqNum := Added(s, link, typ, body), s.outbox.writeSeq;
    AddMessageKeeps(s, link, typ, body);
    NewMessage(typ, seqNum, body);
    var ms, m := if s.outbox.complete then [] else s.outbox.messages, Outgoing(false, Whole(typ, seqNum, body));
    if s'.outbox.messages == ms + [m] {
      forall k | |s.delivered| <= k < |s'.history|
        ensures Aboard(s'.outbox.messages, k)
      {
        StillAboard(ms, m, k);
      }
    }
  }

  lemma AddChangeCipherSpecKeepsFlight(s: State, link: Link)
    requires FlightInv(s) && Polite(s, AddChangeCipherSpec(link))
    ensures FlightInv(Next(s, AddChangeCipherSpec(link)))
  {
    var s' := Next(s, AddChangeCipherSpec(link));
    StepKeeps(s, AddChangeCipherSpec(link));
    var ms, m := if s.outbox.complete then [] else s.outbox.messages, Outgoing(true, []);
    if s'.outbox.messages == ms + [m] {
      forall k | |s.delivered| <= k < |s'.history|
        ensures Aboard(s'.outbox.messages, k)
      {
        StillAboard(ms, m, k);
      }
    }
  }

  lemma ArriveKeepsFlight(s: State, r: Record)
    requires FlightInv(s) && RecordOk(r, s.history)
    ensures FlightInv(s.(reader := Read(s.reader, r).0))
  {
    OpenKeepsSetting(s.reader.inbox, r, s.history);
    OpenFailsExactly(s.reader.inbox, r, s.history);
  }

  /** Every step of a waiting sender, of the network and of the receiver keeps the window wide enough. */
  lemma PoliteStepKeeps(s: State, step: Step)
    requires FlightInv(s) && Enabled(s, step) && Polite(s, step)
    ensures FlightInv(Next(s, step))
  {
    match step
    case AddMessage(link, typ, body) => AddMessageKeepsFlight(s, link, typ, body);
    case AddChangeCipherSpec(link) => AddChangeCipherSpecKeepsFlight(s, link);
    case FlushFlight(link, bio) =>
      StepKeeps(s, step);
      SendFollows(s.outbox.(complete := true), link, bio, 0);
    case RetransmitFlight(link, bio) =>
      StepKeeps(s, step);
      SendFollows(s.outbox.(written := 0, offset := 0), link, bio, 0);
    case Arrive(record) => ArriveKeepsFlight(s, record);
    case Consume => StepKeeps(s, step);
  }

  /** So no record is ever refused in such a run, whatever the network does. */
  lemma {:induction false} PoliteRunReads(states: seq<State>, steps: seq<Step>, n: nat)
    requires IsPoliteRun(states, steps) && n < |states|
    ensures FlightInv(states[n]) && Roomy(states[n]) && !states[n].reader.failed
    decreases n
  {
    if n > 0 {
      PoliteRunReads(states, steps, n - 1);
      PoliteStepKeeps(states[n - 1], steps[n - 1]);
    }
  }

  /** And in each of its states, once every record of a whole sending of a flight has arrived, each message of the
      flight is handed on or complete. */
  lemma PoliteFlightCompletes(states: seq<State>, steps: seq<Step>, n: nat, ms: seq<Outgoing>, rs: seq<Record>,
                              es: seq<Event>, i: nat)
    requires IsPoliteRun(states, steps) && n < |states|
    requires Arrives(states[n], ms, rs, es) && i < |ms| && !ms[i].isCcs
    ensures WindowOk(states[n].reader.inbox)
    ensures var t := After(states[n], es);
            && !t.reader.failed && |t.reader.inbox.slots| > 0 && Parsed(ms[i]).seqNum < |t.history|
            && Completed(t, Parsed(ms[i]).seqNum)
  {
    PoliteRunReads(states, steps, n);
    RoomyFlightCompletes(states[n], ms, rs, es, i);
  }

  // ----- The handshake can go on -----

  predicate Taken(k: nat) { true }

  lemma ExtendRun(states: seq<State>, steps: seq<Step>, step: Step, s: State)
    requires IsRun(states, steps) && Inv(states[|steps|])
    requires Enabled(states[|steps|], step) && s == Next(states[|steps|], step)
    ensures IsRun(states + [s], steps + [step])
  {
    var more, all := states + [s], steps + [step];
    forall i | 0 <= i < |all|
      ensures WindowOk(more[i].reader.inbox) && Enabled(more[i], all[i]) && more[i + 1] == Next(more[i], all[i])
    {
      if i < |steps| {
        assert more[i] == states[i] && more[i + 1] == states[i + 1] && all[i] == steps[i];
      }
    }
  }

  /** One more step of a waiting sender, the network or the receiver. */
  lemma ExtendPoliteRun(states: seq<State>, steps: seq<Step>, step: Step, s: State)
    requires IsPoliteRun(states, steps) && Inv(states[|steps|])
    requires Enabled(states[|steps|], step) && s == Next(states[|steps|], step) && Polite(states[|steps|], step)
    ensures IsPoliteRun(states + [s], steps + [step])
  {
    ExtendRun(states, steps, step, s);
    forall i | 0 <= i < |steps + [step]|
      ensures Polite((states + [s])[i], (steps + [step])[i])
    {
    }
  }

  /** One run goes on as another. */
  ghost predicate GoesOn(states: seq<State>, steps: seq<Step>, more: seq<State>, all: seq<Step>) {
    IsPoliteRun(more, all) && states <= more && steps <= all
  }

  lemma {:induction false} AfterAppend(s: State, es: seq<Event>, e: Event)
    requires WindowOk(s.reader.inbox)
    ensures After(s, es + [e]) == Happen(After(s, es), e)
    decreases |es|
  {
    if es == [] {
      assert After(Happen(s, e), []) == Happen(s, e);
    } else {
      AfterAppend(Happen(s, es[0]), es[1..], e);
      assert (es + [e])[1..] == es[1..] + [e];
    }
  }

  /** Everything of a sending arrives. */
  lemma {:induction false} ArriveAll(states: seq<State>, steps: seq<Step>, rs: seq<Record>)
    returns (more: seq<State>, all: seq<Step>)
    requires IsPoliteRun(states, steps) && forall r | r in rs :: r in states[|steps|].network
    ensures GoesOn(states, steps, more, all)
    ensures WindowOk(states[|steps|].reader.inbox) && more[|all|] == After(states[|steps|], Arrivals(rs))
    ensures forall r | r in rs :: Arrive(r) in all
    decreases |rs|
  {
    PoliteRunReads(states, steps, |steps|);
    more, all := states, steps;
    if rs != [] {
      var s := states[|steps|];
      var s' := Next(s, Arrive(rs[0]));
      ExtendPoliteRun(states, steps, Arrive(rs[0]), s');
      assert Arrivals(rs)[1..] == Arrivals(rs[1..]);
      more, all := ArriveAll(states + [s'], steps + [Arrive(rs[0])], rs[1..]);
    }
  }

  /** The next message of a flight that has arrived is complete. */
  lemma NextIsComplete(s: State, ms: seq<Outgoing>, rs: seq<Record>, es: seq<Event>)
    requires FlightInv(s) && ms == s.outbox.messages && Arrives(s, ms, rs, es)
    requires |After(s, es).delivered| < |s.history|
    ensures After(s, es).reader.inbox.CurrentComplete()
  {
    AfterKeeps(s, es);
    var k := |After(s, es).delivered|;
    assert Aboard(ms, k);
    var i :| 0 <= i < |ms| && !ms[i].isCcs && Parsed(ms[i]).seqNum == k;
    RoomyFlightCompletes(s, ms, rs, es, i);
  }

  /** The receiver takes one message after the other. */
  lemma {:induction false} TakeAll(states: seq<State>, steps: seq<Step>, s: State, ms: seq<Outgoing>, rs: seq<Record>,
                                   es: seq<Event>)
    returns (more: seq<State>, all: seq<Step>)
    requires IsPoliteRun(states, steps) && FlightInv(s) && ms == s.outbox.messages && Arrives(s, ms, rs, es)
    requires states[|steps|] == After(s, es)
    ensures GoesOn(states, steps, more, all)
    ensures more[|all|].history == s.history && |more[|all|].delivered| == |s.history|
    decreases |s.history| - |After(s, es).delivered|
  {
    AfterKeeps(s, es);
    var t := After(s, es);
    more, all := states, steps;
    if |t.delivered| < |s.history| {
      NextIsComplete(s, ms, rs, es);
      AfterAppend(s, es, HandOn);
      ExtendPoliteRun(states, steps, Consume, Next(t, Consume));
      more, all := TakeAll(states + [Next(t, Consume)], steps + [Consume], s, ms, rs, es + [HandOn]);
    }
  }

  /** A retransmission that meets no failing write puts the whole flight on the network. */
  lemma ResendAll(s: State, link: Link) returns (s': State, rs: seq<Record>)
    requires FlightInv(s) && LinkOk(link) && link.mtu >= HEADER_LENGTH + 1 + link.overhead
    ensures s' == Next(s, RetransmitFlight(link, Taken)) && FlightInv(s')
    ensures s'.history == s.history && s'.outbox.messages == s.outbox.messages
    ensures Arrives(s', s'.outbox.messages, rs, Arrivals(rs)) && forall r | r in rs :: r in s'.network
  {
    var step, o := RetransmitFlight(link, Taken), s.outbox.(written := 0, offset := 0);
    s' := Next(s, step);
    PoliteStepKeeps(s, step);
    SendFollows(o, link, Taken, 0);
    SendCompletes(o, link, Taken, 0);
    rs := Records(Send(o, link, Taken, 0).packets);
    ArrivalsAreEvents(rs, s'.history, s'.network);
  }

  lemma ArrivalsAreEvents(rs: seq<Record>, h: seq<HandshakeMessage>, network: set<Record>)
    requires (forall r | r in rs :: r in network) && forall r | r in network :: RecordOk(r, h)
    ensures EventsOk(Arrivals(rs), h) && forall r | r in rs :: Arrival(r) in Arrivals(rs)
  {
    forall r | r in rs
      ensures Arrival(r) in Arrivals(rs)
    {
      var i :| 0 <= i < |rs| && rs[i] == r;
      assert Arrivals(rs)[i] == Arrival(r);
    }
  }

  /** A run of a waiting sender can go on with a whole sending of its flight arriving. */
  lemma ResendAndArrive(states: seq<State>, steps: seq<Step>, link: Link)
    returns (more: seq<State>, all: seq<Step>, s: State, rs: seq<Record>)
    requires IsPoliteRun(states, steps) && LinkOk(link) && link.mtu >= HEADER_LENGTH + 1 + link.overhead
    ensures GoesOn(states, steps, more, all) && FlightInv(s) && more[|all|] == After(s, Arrivals(rs))
    ensures Arrives(s, s.outbox.messages, rs, Arrivals(rs)) && s.history == states[|steps|].history
    ensures HasCcs(states[|steps|].outbox.messages) ==> Arrive(CCS) in all
  {
    PoliteRunReads(states, steps, |steps|);
    s, rs := ResendAll(states[|steps|], link);
    var step := RetransmitFlight(link, Taken);
    ExtendPoliteRun(states, steps, step, s);
    more, all := ArriveAll(states + [s], steps + [step], rs);
    CcsGoesOut(s.outbox.messages, Cursor(0, 0), rs);
  }

  lemma Prefix<T>(a: seq<T>, b: seq<T>, x: T)
    requires a <= b && x in a
    ensures x in b
  {
  }

  /** However many packets were lost, repeated and reordered so far, and wherever sending stopped, a run of a waiting
      sender can go on so that the receiver takes everything, and sees the ChangeCipherSpec of the flight if it has
      one: there is no state in which the handshake is stuck. */
  lemma CanFinish(states: seq<State>, steps: seq<Step>, link: Link) returns (more: seq<State>, all: seq<Step>)
    requires IsPoliteRun(states, steps) && LinkOk(link) && link.mtu >= HEADER_LENGTH + 1 + link.overhead
    ensures GoesOn(states, steps, more, all)
    ensures var t := more[|all|];
            && t.history == states[|steps|].history && |t.delivered| == |t.history| && IsPrefix(t.delivered, t.history)
    ensures HasCcs(states[|steps|].outbox.messages) ==> Arrive(CCS) in all
  {
    var before, first, s, rs := ResendAndArrive(states, steps, link);
    more, all := TakeAll(before, first, s, s.outbox.messages, rs, Arrivals(rs));
    if Arrive(CCS) in first {
      Prefix(first, all, Arrive(CCS));
    }
    PoliteRunReads(more, all, |all|);
  }

  // ----- A run in which the sender does not wait -----

  function EmptyMessage(typ: byte, seqNum: nat): (r: Record) {
    FragmentRecord(Fragment(typ, 0, seqNum, 0, []), 0, 0)
  }

  lemma EmptyMessageParses(typ: byte, seqNum: nat)
    requires seqNum < 0x1_0000
    ensures ParseFragment(EmptyMessage(typ, seqNum).payload) == Ok(Fragment(typ, 0, seqNum, 0, []), [])
  {
    var f := Fragment(typ, 0, seqNum, 0, []);
    ParseInvertsSerialize(f, []);
    assert Serialize(f) + [] == EmptyMessage(typ, seqNum).payload;
  }

  /** A flight of one message without a body goes out as one record. */
  lemma EmptyFlightOut(o: Outbox, link: Link, typ: byte, seqNum: nat)
    requires LinkOk(link) && link.mtu >= HEADER_LENGTH + 1 + link.overhead && seqNum < 0x1_0000
    requires o.messages == [Outgoing(false, Whole(typ, seqNum, []))] && o.At() == Cursor(0, 0)
    ensures EmptyMessage(typ, seqNum) in Records(Send(o, link, Taken, 0).packets)
  {
    NewMessage(typ, seqNum, []);
    SendCompletes(o, link, Taken, 0);
    SendFollows(o, link, Taken, 0);
    var rs := Records(Send(o, link, Taken, 0).packets);
    assert rs[0] in rs && Follow(o.messages, o.At(), rs[0]).Some?;
  }

  /** Adding a message without a body, as a flight of its own, ... */
  lemma AddEmptyMessage(s: State, link: Link, typ: byte) returns (s1: State)
    requires Inv(s) && link.flight > 0 && s.outbox.writeSeq < 0x1_0000
    requires s.outbox.complete || (s.outbox.messages == [] && s.outbox.At() == Cursor(0, 0))
    ensures Enabled(s, AddMessage(link, typ, [])) && s1 == Next(s, AddMessage(link, typ, [])) && Inv(s1)
    ensures s1 == s.(outbox := s1.outbox, history := s.history + [HandshakeMessage(typ, [])])
    ensures var o := s1.outbox;
            && o.messages == [Outgoing(false, Whole(typ, s.outbox.writeSeq, []))] && o.At() == Cursor(0, 0)
            && o.writeSeq == s.outbox.writeSeq + 1
  {
    s1 := Next(s, AddMessage(link, typ, []));
    StepKeeps(s, AddMessage(link, typ, []));
    NewMessage(typ, s.outbox.writeSeq, []);
  }

  /** ... and sending it. */
  lemma FlushEmptyMessage(s: State, link: Link, typ: byte, seqNum: nat) returns (s1: State)
    requires Inv(s) && LinkOk(link) && link.mtu >= HEADER_LENGTH + 1 + link.overhead && seqNum < 0x1_0000
    requires s.outbox.messages == [Outgoing(false, Whole(typ, seqNum, []))] && s.outbox.At() == Cursor(0, 0)
    ensures Enabled(s, FlushFlight(link, Taken)) && s1 == Next(s, FlushFlight(link, Taken)) && Inv(s1)
    ensures s1 == s.(outbox := s1.outbox, network := s1.network)
    ensures s1.outbox.complete && s1.outbox.writeSeq == s.outbox.writeSeq
    ensures s1.network >= s.network + {EmptyMessage(typ, seqNum)}
  {
    s1 := Next(s, FlushFlight(link, Taken));
    StepKeeps(s, FlushFlight(link, Taken));
    var o := s.outbox.(complete := true);
    EmptyFlightOut(o, link, typ, seqNum);
    SendFollows(o, link, Taken, 0);
  }

  /** A record just past the window is refused, and changes nothing else. */
  lemma PastTheWindow(s: State, typ: byte, seqNum: nat)
    requires Inv(s) && !s.reader.failed && s.reader.inbox.epoch != 1
    requires seqNum == |s.delivered| + |s.reader.inbox.slots| < 0x1_0000
    requires RecordOk(EmptyMessage(typ, seqNum), s.history)
    ensures Read(s.reader, EmptyMessage(typ, seqNum)).0 == s.reader.(failed := true)
  {
    var r := EmptyMessage(typ, seqNum);
    EmptyMessageParses(typ, seqNum);
    OpenFailsExactly(s.reader.inbox, r, s.history);
    OpenIsAccept(s.reader.inbox, r, s.history);
    AcceptTouches(s.reader.inbox, Fragment(typ, 0, seqNum, 0, []));
  }

  /** A run goes on with one more empty message. */
  lemma RunSends(states: seq<State>, steps: seq<Step>, link: Link, typ: byte)
    returns (s2: State, more: seq<State>, all: seq<Step>)
    requires IsRun(states, steps) && Inv(states[|steps|])
    requires LinkOk(link) && link.mtu >= HEADER_LENGTH + 1 + link.overhead && link.flight > 0
    requires var o := states[|steps|].outbox;
             o.writeSeq < 0x1_0000 && (o.complete || (o.messages == [] && o.At() == Cursor(0, 0)))
    ensures IsRun(more, all) && more[0] == states[0] && more[|all|] == s2 && Inv(s2)
    ensures var s := states[|steps|];
            && s2.outbox.complete && s2.outbox.writeSeq == s.outbox.writeSeq + 1 && s2.reader == s.reader
            && s2.delivered == s.delivered && s2.history == s.history + [HandshakeMessage(typ, [])]
            && s2.network >= s.network + {EmptyMessage(typ, s.outbox.writeSeq)}
  {
    var s := states[|steps|];
    var s1 := AddEmptyMessage(s, link, typ);
    s2 := FlushEmptyMessage(s1, link, typ, s.outbox.writeSeq);
    ExtendRun(states, steps, AddMessage(link, typ, []), s1);
    ExtendRun(states + [s1], steps + [AddMessage(link, typ, [])], FlushFlight(link, Taken), s2);
    more, all := states + [s1] + [s2], steps + [AddMessage(link, typ, [])] + [FlushFlight(link, Taken)];
  }

  /** The outcome of n flights, each of one message without a body, of which nothing has arrived yet. */
  ghost predicate SentOnly(s0: State, s: State, n: nat) {
    && Inv(s) && s.reader == s0.reader && s.delivered == [] && s.outbox.writeSeq == n
    && (s.outbox.complete || (s.outbox.messages == [] && s.outbox.At() == Cursor(0, 0)))
    && |s.history| == n && (forall k | 0 <= k < n :: s.history[k] == HandshakeMessage(1, []))
    && forall k | 0 <= k < n :: EmptyMessage(1, k) in s.network
  }

  lemma {:induction false} SendEach(s0: State, link: Link, n: nat) returns (states: seq<State>, steps: seq<Step>)
    requires Initial(s0) && n <= 0x1_0000
    requires LinkOk(link) && link.mtu >= HEADER_LENGTH + 1 + link.overhead && link.flight > 0
    ensures IsRun(states, steps) && states[0] == s0 && SentOnly(s0, states[|steps|], n)
  {
    states, steps := [s0], [];
    if n > 0 {
      states, steps := SendEach(s0, link, n - 1);
      var s;
      s, states, steps := RunSends(states, steps, link, 1);
    }
  }

  /** A sender that begins new flights without waiting, and a window of any number of slots: as many messages go out
      as there are slots, and one more, each in a flight of its own, and the record with the last one arrives first.
      From then on nothing is read, and no message is ever handed on, although all of them are on the network. */
  lemma EarlyRecordEndsReading(s0: State, link: Link) returns (states: seq<State>, steps: seq<Step>)
    requires Initial(s0) && s0.reader.inbox.epoch != 1 && |s0.reader.inbox.slots| < 0x1_0000
    requires LinkOk(link) && link.mtu >= HEADER_LENGTH + 1 + link.overhead && link.flight > 0
    ensures IsRun(states, steps) && states[0] == s0
    ensures var s, n := states[|steps|], |s0.reader.inbox.slots|;
            && |s.history| == n + 1 && (forall k | 0 <= k <= n :: s.history[k] == HandshakeMessage(1, []))
            && (forall k | 0 <= k <= n :: EmptyMessage(1, k) in s.network)
            && s.reader == s0.reader.(failed := true) && s.delivered == []
            && forall rs :: After(s, Arrivals(rs)) == s
  {
    var n := |s0.reader.inbox.slots|;
    states, steps := SendEach(s0, link, n + 1);
    var s, r := states[|steps|], EmptyMessage(1, n);
    PastTheWindow(s, 1, n);
    var t := Next(s, Arrive(r));
    ExtendRun(states, steps, Arrive(r), t);
    states, steps := states + [t], steps + [Arrive(r)];
    forall rs
      ensures After(t, Arrivals(rs)) == t
    {
      FailedReadsNothing(t, rs);
    }
  }
}

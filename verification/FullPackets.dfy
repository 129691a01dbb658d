/** How flights are built, how full their packets are, and how many writes they take. */
module FullPackets {
  import opened Words
  import opened Handshake
  import opened Receiver
  import opened Sender

  // ----- Building a flight -----

  function AddEach(o: Outbox, l: Link, ms: seq<Outgoing>): (r: (Outbox, bool))
    decreases |ms|
  {
    if ms == [] then (o, true)
    else
      var (q, ok) := AddOutgoing(o, l, ms[0]);
      if ok then AddEach(q, l, ms[1..]) else (q, false)
  }

  function MessagesIn(ms: seq<Outgoing>): (n: nat)
    decreases |ms|
  {
    if ms == [] then 0 else (if ms[0].isCcs then 0 else 1) + MessagesIn(ms[1..])
  }

  /** Messages added one after the other to a flight in the making join it in order, as long as there is room; only
      handshake messages take a sequence number. */
  lemma {:induction false} FlightGrows(o: Outbox, l: Link, ms: seq<Outgoing>)
    requires !o.complete && |o.messages| + |ms| <= l.flight && forall m | m in ms :: |m.data| <= 0xFFFF_FFFF
    ensures AddEach(o, l, ms) == (o.(messages := o.messages + ms, writeSeq := o.writeSeq + MessagesIn(ms)), true)
    decreases |ms|
  {
    if ms == [] {
      assert o.messages + ms == o.messages;
    } else {
      var q := AddOutgoing(o, l, ms[0]).0;
      FlightGrows(q, l, ms[1..]);
      assert o.messages + [ms[0]] + ms[1..] == o.messages + ms;
    }
  }

  /** After a complete flight they make a flight of their own, to be sent from its start. */
  lemma FlightStartsAfresh(o: Outbox, l: Link, ms: seq<Outgoing>)
    requires o.complete && 0 < |ms| <= l.flight && forall m | m in ms :: |m.data| <= 0xFFFF_FFFF
    ensures AddEach(o, l, ms) == (Outbox(ms, 0, 0, false, o.writeSeq + MessagesIn(ms)), true)
  {
    FlightGrows(Clear(o), l, ms);
    assert AddOutgoing(o, l, ms[0]) == AddOutgoing(Clear(o), l, ms[0]);
    assert [] + ms == ms;
  }

  /** A flight takes no more messages than there is room for. */
  lemma FlightIsBounded(o: Outbox, l: Link, m: Outgoing)
    requires !o.complete
    ensures AddOutgoing(o, l, m).1 <==> |o.messages| < l.flight && |m.data| <= 0xFFFF_FFFF
    ensures !AddOutgoing(o, l, m).1 ==> AddOutgoing(o, l, m).0 == o
  {
  }

  // ----- Full packets -----

  /** A fragment that is not the last of its message fills the space there is. */
  lemma PartialFills(o: Outbox, l: Link, maxOut: nat)
    requires o.written < |o.messages| && SealMessage(o, l, maxOut).Partial?
    ensures |SealMessage(o, l, maxOut).record.payload| + l.overhead == maxOut
  {
  }

  /** Room for the least that the message can send. */
  function Least(m: Outgoing, l: Link): (n: nat) {
    l.overhead + if m.isCcs then 1 else HEADER_LENGTH + 1
  }

  /** No more of the flight would fit behind the records: not the least of the next message, or the last record is a
      fragment that was cut to fill the space. */
  predicate Full(l: Link, rs: seq<Record>, maxOut: int, next: Outgoing) {
    || maxOut - WireLen(l, rs) < Least(next, l)
    || (rs != [] && |rs[|rs| - 1].payload| + l.overhead == maxOut - WireLen(l, rs[..|rs| - 1]))
  }

  lemma FullBehind(l: Link, r: Record, rs: seq<Record>, maxOut: int, next: Outgoing)
    requires Full(l, rs, maxOut - l.sealedLen(|r.payload|), next)
    ensures Full(l, [r] + rs, maxOut, next)
  {
    var all := [r] + rs;
    assert all[1..] == rs;
    if rs != [] {
      assert all[..|all| - 1] == [r] + rs[..|rs| - 1];
      assert ([r] + rs[..|rs| - 1])[1..] == rs[..|rs| - 1];
    }
  }

  /** Sealing got so far through the flight, and if not to its end, nothing more would fit. */
  ghost predicate SealedFull(o: Outbox, l: Link, maxOut: int, r: Sealing) {
    r.o.messages == o.messages &&
    (r.o.written < |o.messages| ==> Full(l, r.packet, maxOut, o.messages[r.o.written]))
  }

  lemma DoneIsFull(o: Outbox, l: Link, maxOut: nat, s: Seal, rest: Sealing)
    requires s.Done? && s.len == l.sealedLen(|s.record.payload|) && SealedFull(o, l, maxOut - s.len, rest)
    ensures SealedFull(o, l, maxOut, rest.(packet := [s.record] + rest.packet))
  {
    if rest.o.written < |o.messages| {
      FullBehind(l, s.record, rest.packet, maxOut, o.messages[rest.o.written]);
    }
  }

  lemma LastIsFull(o: Outbox, l: Link, maxOut: nat)
    requires o.written < |o.messages| && LinkOk(l) && FlightOk(o.messages) && CursorOk(o.messages, o.At())
    requires !SealMessage(o, l, maxOut).Done?
    ensures SealedFull(o, l, maxOut, AddRecord(o, l, maxOut, SealMessage(o, l, maxOut)))
  {
    SealMessageFollows(o, l, maxOut);
    var s := SealMessage(o, l, maxOut);
    if s.Partial? {
      PartialFills(o, l, maxOut);
      assert [s.record][..0] == [];
    }
  }

  lemma AfterDone(o: Outbox, l: Link, maxOut: nat) returns (next: Outbox, s: Seal)
    requires LinkOk(l) && FlightOk(o.messages) && CursorOk(o.messages, o.At())
    requires o.written < |o.messages| && SealMessage(o, l, maxOut).Done?
    ensures s == SealMessage(o, l, maxOut) && s.len == l.sealedLen(|s.record.payload|) <= maxOut
    ensures next == o.(written := o.written + 1, offset := 0) && CursorOk(next.messages, next.At())
    ensures var rest := SealRest(next, l, maxOut - s.len);
            SealRest(o, l, maxOut) == rest.(packet := [s.record] + rest.packet)
  {
    SealMessageFollows(o, l, maxOut);
    s := SealMessage(o, l, maxOut);
    next := o.(written := o.written + 1, offset := s.offset);
  }

  /** A packet that does not bring the flight to its end is full. */
  lemma {:induction false} PacketIsFull(o: Outbox, l: Link, maxOut: nat)
    requires LinkOk(l) && FlightOk(o.messages) && CursorOk(o.messages, o.At())
    ensures SealedFull(o, l, maxOut, SealRest(o, l, maxOut))
    decreases |o.messages| - o.written
  {
    if o.written < |o.messages| {
      if SealMessage(o, l, maxOut).Done? {
        var next, s := AfterDone(o, l, maxOut);
        PacketIsFull(next, l, maxOut - s.len);
        DoneIsFull(o, l, maxOut, s, SealRest(next, l, maxOut - s.len));
      } else {
        LastIsFull(o, l, maxOut);
      }
    }
  }

  // ----- Writes -----

  /** Each packet took one write that succeeded. The sending stopped short of the end of the flight only for a write
      that failed, which was the last, or for an MTU that has no room for the next message. */
  ghost predicate CountsWrites(r: Sent, l: Link, bio: nat -> bool, k: nat) {
    var n := k + |r.packets|;
    && (forall j | k <= j < n :: bio(j))
    && (r.ok ==> r.attempts == n)
    && (!r.ok && r.attempts == n ==> r.o.written < |r.o.messages| && l.mtu < Least(r.o.messages[r.o.written], l))
    && (!r.ok && r.attempts != n ==> r.attempts == n + 1 && !bio(n))
  }

  lemma CountsOneMore(r: Sent, l: Link, bio: nat -> bool, k: nat, packet: seq<Record>)
    requires CountsWrites(r, l, bio, k + 1) && bio(k)
    ensures CountsWrites(r.(packets := [packet] + r.packets), l, bio, k)
  {
  }

  lemma {:induction false} SendCountsWrites(o: Outbox, l: Link, bio: nat -> bool, k: nat)
    requires LinkOk(l) && FlightOk(o.messages) && CursorOk(o.messages, o.At())
    ensures CountsWrites(Send(o, l, bio, k), l, bio, k)
    decreases |o.messages| - o.written, BytesLeft(o)
  {
    if o.written < |o.messages| {
      var s := SealPacket(o, l);
      PacketMakesProgress(o, l);
      if s.ok && bio(k) {
        SealRestFollows(o, l, l.mtu);
        PacketDecreases(o, l, l.mtu);
        SendCountsWrites(s.o, l, bio, k + 1);
        CountsOneMore(Send(s.o, l, bio, k + 1), l, bio, k, s.packet);
      }
    }
  }
}

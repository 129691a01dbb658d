/** What arriving records come to: when reading ends, and when a flight is complete. */
module Completion {
  import opened Words
  import opened Handshake
  import opened Reassembly
  import opened Receiver
  import opened Sender
  import opened Flights
  import opened Transport

  // The first record that the receiver refuses ends all reading. As long as none is refused, every packet of a flight
  // is enough: in any order, with any repetitions, and however the application takes messages in between, they
  // complete every message of the flight that the window has room for.

  /** A record arrives, or the application asks for the next message. */
  datatype Event = Arrival(record: Record) | HandOn

  ghost function Happen(s: State, e: Event): (s': State)
    requires WindowOk(s.reader.inbox)
  {
    match e
    case Arrival(record) => s.(reader := Read(s.reader, record).0)
    case HandOn => if s.reader.inbox.CurrentComplete() then Next(s, Consume) else s
  }

  ghost function After(s: State, es: seq<Event>): (s': State)
    requires WindowOk(s.reader.inbox)
    ensures WindowOk(s'.reader.inbox)
    decreases |es|
  {
    if es == [] then s else After(Happen(s, es[0]), es[1..])
  }

  /** Records of the sender's messages arrive. */
  ghost predicate EventsOk(es: seq<Event>, h: seq<HandshakeMessage>) {
    forall i | 0 <= i < |es| && es[i].Arrival? :: RecordOk(es[i].record, h)
  }

  /** A record that ends the reading of a receiver that has handed on next messages: a ChangeCipherSpec under a
      cipher, a fragment of a message that is too long, in the encrypted epoch one of another message than the
      next, and elsewhere one of the message just past the window. */
  predicate Refused(p: Inbox, next: nat, r: Record) {
    if r.typ.ChangeCipherSpec? then !p.nullCipher
    else
      match ParseFragment(r.payload)
      case Err => true
      case Ok(f, _) =>
        f.msgLen > p.maxLen || if p.epoch == 1 then f.seqNum != next else f.seqNum == next + |p.slots|
  }

  // ----- Errors -----

  /** Whatever is already in fits a fragment of the sender's message, so only the window can refuse it. */
  lemma LookupInWindow(p: Inbox, f: Fragment, h: seq<HandshakeMessage>)
    requires InboxOk(p, h) && FragmentOk(f, h) && f.seqNum >= p.readSeq
    ensures Lookup(p, f).Some? <==> f.seqNum < p.readSeq + |p.slots|
  {
    if f.seqNum < p.readSeq + |p.slots| && p.slots[p.Index(f.seqNum)].Some? {
      SlotMatchesFragment(p, f);
      assert MessageOk(p.slots[p.Index(f.seqNum)].value, h);
    }
  }

  lemma AcceptRefusesExactly(p: Inbox, f: Fragment, h: seq<HandshakeMessage>)
    requires InboxOk(p, h) && FragmentOk(f, h)
    ensures !Accept(p, f).1 <==>
      f.msgLen > p.maxLen || if p.epoch == 1 then f.seqNum != p.readSeq else f.seqNum == p.readSeq + |p.slots|
  {
    if f.seqNum >= p.readSeq {
      LookupInWindow(p, f, h);
    }
  }

  /** A record of the sender is an error exactly when it is refused. */
  lemma OpenFailsExactly(p: Inbox, r: Record, h: seq<HandshakeMessage>)
    requires InboxOk(p, h) && RecordOk(r, h)
    ensures Open(p, r).1.Error? <==> Refused(p, p.readSeq, r)
  {
    if r.typ.HandshakeRecord? {
      var f := ParseFragment(r.payload).value;
      AcceptKeepsWindow(p, f);
      AcceptRefusesExactly(p, f, h);
      assert AcceptAll(Accept(p, f).0, []).1 == Success;
    }
  }

  /** What stays the same whatever happens. */
  ghost predicate SameSetting(s: State, t: State) {
    && t.history == s.history && t.outbox == s.outbox && t.network == s.network
    && |t.reader.inbox.slots| == |s.reader.inbox.slots| && t.reader.inbox.maxLen == s.reader.inbox.maxLen
    && t.reader.inbox.epoch == s.reader.inbox.epoch && t.reader.inbox.nullCipher == s.reader.inbox.nullCipher
    && |t.delivered| >= |s.delivered| && (s.reader.failed ==> t.reader.failed)
  }

  lemma OpenKeepsSetting(p: Inbox, r: Record, h: seq<HandshakeMessage>)
    requires InboxOk(p, h) && RecordOk(r, h)
    ensures var q := Open(p, r).0;
      && InboxOk(q, h) && q.readSeq == p.readSeq && |q.slots| == |p.slots|
      && q.maxLen == p.maxLen && q.epoch == p.epoch && q.nullCipher == p.nullCipher
  {
    OpenKeeps(p, r, h);
    if r.typ.HandshakeRecord? {
      OpenIsAccept(p, r, h);
    }
  }

  lemma HappenKeeps(s: State, e: Event)
    requires Inv(s) && EventsOk([e], s.history)
    ensures Inv(Happen(s, e)) && SameSetting(s, Happen(s, e))
    ensures e.Arrival? ==> Happen(s, e).delivered == s.delivered
    ensures Happen(s, e).reader.failed <==>
      s.reader.failed || (e.Arrival? && Refused(s.reader.inbox, |s.delivered|, e.record))
  {
    match e
    case HandOn =>
      if s.reader.inbox.CurrentComplete() {
        ConsumeKeeps(s);
      }
    case Arrival(r) =>
      assert [e][0] == e;
      OpenKeepsSetting(s.reader.inbox, r, s.history);
      OpenFailsExactly(s.reader.inbox, r, s.history);
  }

  lemma SplitEvents(es: seq<Event>, h: seq<HandshakeMessage>)
    requires es != [] && EventsOk(es, h)
    ensures EventsOk([es[0]], h) && EventsOk(es[1..], h)
  {
  }

  lemma {:induction false} AfterKeeps(s: State, es: seq<Event>)
    requires Inv(s) && EventsOk(es, s.history)
    ensures Inv(After(s, es)) && SameSetting(s, After(s, es))
    decreases |es|
  {
    if es != [] {
      SplitEvents(es, s.history);
      HappenKeeps(s, es[0]);
      AfterKeeps(Happen(s, es[0]), es[1..]);
    }
  }

  /** The k-th event is a record that the receiver refuses, having handed on what it has by then. */
  ghost predicate RefusedAt(s: State, es: seq<Event>, k: nat)
    requires WindowOk(s.reader.inbox) && k < |es|
  {
    es[k].Arrival? && Refused(s.reader.inbox, |After(s, es[..k]).delivered|, es[k].record)
  }

  lemma RefusedLater(s: State, es: seq<Event>, k: nat)
    requires Inv(s) && EventsOk(es, s.history) && 0 < k < |es|
    ensures Inv(Happen(s, es[0])) && RefusedAt(s, es, k) == RefusedAt(Happen(s, es[0]), es[1..], k - 1)
  {
    SplitEvents(es, s.history);
    HappenKeeps(s, es[0]);
    assert es[..k][0] == es[0] && es[..k][1..] == es[1..][..k - 1];
  }

  /** Reading fails exactly when one of the arrivals is refused when it comes. */
  lemma {:induction false} FailsExactly(s: State, es: seq<Event>)
    requires Inv(s) && EventsOk(es, s.history) && !s.reader.failed
    ensures After(s, es).reader.failed <==> exists k :: 0 <= k < |es| && RefusedAt(s, es, k)
    decreases |es|
  {
    if es != [] {
      SplitEvents(es, s.history);
      HappenKeeps(s, es[0]);
      var s', rest := Happen(s, es[0]), es[1..];
      assert es[..0] == [];
      assert s'.reader.failed <==> RefusedAt(s, es, 0);
      if s'.reader.failed {
        AfterKeeps(s', rest);
      } else {
        FailsExactly(s', rest);
        if k :| 0 <= k < |rest| && RefusedAt(s', rest, k) {
          RefusedLater(s, es, k + 1);
        }
        if k :| 0 <= k < |es| && RefusedAt(s, es, k) {
          RefusedLater(s, es, k);
        }
      }
    }
  }

  function Arrivals(rs: seq<Record>): (es: seq<Event>)
    ensures |es| == |rs| && forall i | 0 <= i < |rs| :: es[i] == Arrival(rs[i])
  {
    seq(|rs|, i requires 0 <= i < |rs| => Arrival(rs[i]))
  }

  lemma {:induction false} ArrivalsHandOnNothing(s: State, rs: seq<Record>)
    requires Inv(s) && forall r | r in rs :: RecordOk(r, s.history)
    ensures After(s, Arrivals(rs)).delivered == s.delivered
    decreases |rs|
  {
    if rs != [] {
      var es := Arrivals(rs);
      assert rs[0] in rs && es[1..] == Arrivals(rs[1..]);
      HappenKeeps(s, es[0]);
      ArrivalsHandOnNothing(Happen(s, es[0]), rs[1..]);
    }
  }

  /** While nothing is handed on, no order matters: reading fails exactly when one of the records is refused. */
  lemma ArrivalsFailExactly(s: State, rs: seq<Record>)
    requires Inv(s) && !s.reader.failed && forall r | r in rs :: RecordOk(r, s.history)
    ensures After(s, Arrivals(rs)).reader.failed <==> exists r :: r in rs && Refused(s.reader.inbox, |s.delivered|, r)
  {
    var es := Arrivals(rs);
    assert EventsOk(es, s.history) by {
      assert forall i | 0 <= i < |rs| :: rs[i] in rs;
    }
    forall k | 0 <= k < |es|
      ensures RefusedAt(s, es, k) <==> Refused(s.reader.inbox, |s.delivered|, rs[k])
    {
      assert es[..k] == Arrivals(rs[..k]);
      ArrivalsHandOnNothing(s, rs[..k]);
    }
    FailsExactly(s, es);
    if r :| r in rs && Refused(s.reader.inbox, |s.delivered|, r) {
      var k :| 0 <= k < |rs| && rs[k] == r;
      assert RefusedAt(s, es, k);
    }
  }

  /** After an error nothing more is read, whatever arrives. */
  lemma {:induction false} FailedReadsNothing(s: State, rs: seq<Record>)
    requires WindowOk(s.reader.inbox) && s.reader.failed
    ensures After(s, Arrivals(rs)) == s
    decreases |rs|
  {
    if rs != [] {
      assert Arrivals(rs)[1..] == Arrivals(rs[1..]);
      FailedReadsNothing(s, rs[1..]);
    }
  }

  // ----- What is in stays in -----

  /** Message seqNum was handed on, or is in its slot with at least the bytes from start up to end. */
  predicate Got(s: State, seqNum: nat, start: nat, end: nat)
    requires |s.reader.inbox.slots| > 0
  {
    |s.delivered| > seqNum || HasBytes(s.reader.inbox, seqNum, start, end)
  }

  predicate HasBytes(p: Inbox, seqNum: nat, start: nat, end: nat)
    requires |p.slots| > 0
  {
    var s := p.slots[p.Index(seqNum)];
    s.Some? && s.value.seqNum == seqNum && Range(start, end) <= s.value.bytes.Keys
  }

  /** A fragment changes only its own slot. */
  lemma AcceptTouches(p: Inbox, f: Fragment)
    requires WindowOk(p)
    ensures var q := Accept(p, f).0;
      q == p || (p.readSeq <= f.seqNum < p.readSeq + |p.slots| && Lookup(p, f).Some? &&
                 var m := Lookup(p, f).value;
                 q == Put(p, p.Index(f.seqNum), if m.Complete() then m else m.Add(f.off, f.body)))
  {
  }

  lemma AcceptMonotone(p: Inbox, f: Fragment, h: seq<HandshakeMessage>, seqNum: nat, start: nat, end: nat)
    requires InboxOk(p, h) && FragmentOk(f, h) && HasBytes(p, seqNum, start, end)
    ensures HasBytes(Accept(p, f).0, seqNum, start, end)
  {
    AcceptTouches(p, f);
    if f.seqNum >= p.readSeq && Lookup(p, f).Some? {
      LookupIsOk(p, f, h);
    }
  }

  lemma NextMonotone(p: Inbox, seqNum: nat, start: nat, end: nat)
    requires WindowOk(p) && p.CurrentComplete() && seqNum != p.readSeq && HasBytes(p, seqNum, start, end)
    ensures HasBytes(NextMessage(p), seqNum, start, end)
  {
    var i := p.Index(seqNum);
    assert SlotOk(p, i);
    if i == p.Index(p.readSeq) {
      SameSlotSameMessage(|p.slots|, seqNum, p.readSeq, p.readSeq);
    }
  }

  lemma HappenMonotone(s: State, e: Event, seqNum: nat, start: nat, end: nat)
    requires Inv(s) && EventsOk([e], s.history) && Got(s, seqNum, start, end)
    ensures |Happen(s, e).reader.inbox.slots| > 0 && Got(Happen(s, e), seqNum, start, end)
  {
    HappenKeeps(s, e);
    match e
    case HandOn =>
      var p := s.reader.inbox;
      if p.CurrentComplete() && HasBytes(p, seqNum, start, end) && seqNum != p.readSeq {
        NextMonotone(p, seqNum, start, end);
      }
    case Arrival(r) =>
      assert [e][0] == e;
      if r.typ.HandshakeRecord? && HasBytes(s.reader.inbox, seqNum, start, end) {
        OpenIsAccept(s.reader.inbox, r, s.history);
        AcceptMonotone(s.reader.inbox, ParseFragment(r.payload).value, s.history, seqNum, start, end);
      }
  }

  lemma {:induction false} AfterMonotone(s: State, es: seq<Event>, seqNum: nat, start: nat, end: nat)
    requires Inv(s) && EventsOk(es, s.history) && Got(s, seqNum, start, end)
    ensures Got(After(s, es), seqNum, start, end)
    decreases |es|
  {
    if es != [] {
      SplitEvents(es, s.history);
      HappenKeeps(s, es[0]);
      HappenMonotone(s, es[0], seqNum, start, end);
      AfterMonotone(Happen(s, es[0]), es[1..], seqNum, start, end);
    }
  }

  // ----- What arrives gets in -----

  /** A fragment of a message in the window, if it is not refused, gets in. */
  lemma AcceptAdds(p: Inbox, f: Fragment, h: seq<HandshakeMessage>)
    requires InboxOk(p, h) && FragmentOk(f, h) && p.readSeq <= f.seqNum < p.readSeq + |p.slots| && Accept(p, f).1
    ensures HasBytes(Accept(p, f).0, f.seqNum, f.off, f.off + |f.body|)
  {
    LookupIsOk(p, f, h);
    var m := Lookup(p, f).value;
    assert Range(f.off, f.off + |f.body|) <= Range(0, m.msgLen);
  }

  /** Once all events are over and reading has not failed, each fragment that arrived is in, or its message was
      handed on: if when it all began the window reached that far. */
  lemma {:induction false} ArrivedIsIn(s: State, es: seq<Event>, k: nat, f: Fragment)
    requires Inv(s) && EventsOk(es, s.history) && !After(s, es).reader.failed
    requires k < |es| && es[k].Arrival? && es[k].record.typ.HandshakeRecord?
    requires ParseFragment(es[k].record.payload) == Ok(f, []) && f.seqNum < |s.delivered| + |s.reader.inbox.slots|
    ensures Got(After(s, es), f.seqNum, f.off, f.off + |f.body|)
    decreases |es|
  {
    SplitEvents(es, s.history);
    HappenKeeps(s, es[0]);
    var s', rest := Happen(s, es[0]), es[1..];
    AfterKeeps(s', rest);
    if k == 0 {
      if f.seqNum >= |s.delivered| {
        ArrivalAdds(s, es[0].record, f);
      }
      AfterMonotone(s', rest, f.seqNum, f.off, f.off + |f.body|);
    } else {
      ArrivedIsIn(s', rest, k - 1, f);
    }
  }

  lemma ArrivalAdds(s: State, r: Record, f: Fragment)
    requires Inv(s) && RecordOk(r, s.history) && r.typ.HandshakeRecord? && ParseFragment(r.payload) == Ok(f, [])
    requires |s.delivered| <= f.seqNum < |s.delivered| + |s.reader.inbox.slots|
    requires !Read(s.reader, r).0.failed
    ensures |Read(s.reader, r).0.inbox.slots| > 0
    ensures HasBytes(Read(s.reader, r).0.inbox, f.seqNum, f.off, f.off + |f.body|)
  {
    var p := s.reader.inbox;
    OpenFailsExactly(p, r, s.history);
    AcceptRefusesExactly(p, f, s.history);
    OpenIsAccept(p, r, s.history);
    AcceptAdds(p, f, s.history);
  }

  // ----- What the records of a flight cover -----

  /** Record r is a fragment of a message, over position k of its body (or of an empty body). */
  predicate Over(r: Record, f: Fragment, k: nat) {
    && r.typ.HandshakeRecord? && ParseFragment(r.payload).Ok?
    && var part := ParseFragment(r.payload).value;
       part.seqNum == f.seqNum && part.off <= k && (k < part.off + |part.body| || f.body == [])
  }

  lemma FollowIsOver(ms: seq<Outgoing>, c: Cursor, r: Record, k: nat)
    requires FlightOk(ms) && CursorOk(ms, c) && c.written < |ms| && !ms[c.written].isCcs && Follow(ms, c, r).Some?
    requires c.offset <= k && (k < c.offset + |r.payload| - HEADER_LENGTH || Parsed(ms[c.written]).body == [])
    ensures Over(r, Parsed(ms[c.written]), k)
  {
    var f, n := Parsed(ms[c.written]), |r.payload| - HEADER_LENGTH;
    var part := f.(off := c.offset, body := f.body[c.offset..c.offset + n]);
    ParseInvertsSerialize(part, []);
    assert Serialize(part) + [] == r.payload;
  }

  /** Records from a cursor to the end of the flight go over every position from the cursor on. */
  lemma {:induction false} FlightCovers(ms: seq<Outgoing>, c: Cursor, rs: seq<Record>, i: nat, k: nat)
    requires FlightOk(ms) && CursorOk(ms, c) && FollowAll(ms, c, rs) == Some(Cursor(|ms|, 0))
    requires c.written <= i < |ms| && !ms[i].isCcs && (i == c.written ==> c.offset <= k)
    requires k < |Parsed(ms[i]).body| || (k == 0 && Parsed(ms[i]).body == [])
    ensures exists r :: r in rs && Over(r, Parsed(ms[i]), k)
    decreases |rs|
  {
    var r, next := rs[0], Follow(ms, c, rs[0]).value;
    assert r in rs;
    if i == c.written && (k < c.offset + |r.payload| - HEADER_LENGTH || Parsed(ms[i]).body == []) {
      FollowIsOver(ms, c, r, k);
    } else {
      FollowKeepsCursor(ms, c, r);
      FlightCovers(ms, next, rs[1..], i, k);
      var r' :| r' in rs[1..] && Over(r', Parsed(ms[i]), k);
      assert r' in rs;
    }
  }

  predicate HasCcs(ms: seq<Outgoing>) {
    exists i :: 0 <= i < |ms| && ms[i].isCcs
  }

  /** A flight with a ChangeCipherSpec sends it. */
  lemma {:induction false} CcsGoesOut(ms: seq<Outgoing>, c: Cursor, rs: seq<Record>)
    requires FlightOk(ms) && CursorOk(ms, c) && FollowAll(ms, c, rs) == Some(Cursor(|ms|, 0))
    ensures (exists i :: c.written <= i < |ms| && ms[i].isCcs) ==> CCS in rs
    decreases |rs|
  {
    if rs != [] && !(c.written < |ms| && ms[c.written].isCcs) {
      FollowKeepsCursor(ms, c, rs[0]);
      CcsGoesOut(ms, Follow(ms, c, rs[0]).value, rs[1..]);
      assert CCS in rs[1..] ==> CCS in rs;
    }
  }

  // ----- Main results -----

  /** A flight, a whole sending of it, and events with which all of that arrives. */
  ghost predicate Arrives(s: State, ms: seq<Outgoing>, rs: seq<Record>, es: seq<Event>) {
    && FlightOk(ms) && (forall i | 0 <= i < |ms| :: OutgoingOk(ms[i], s.history))
    && FollowAll(ms, Cursor(0, 0), rs) == Some(Cursor(|ms|, 0))
    && EventsOk(es, s.history) && (forall r | r in rs :: Arrival(r) in es)
  }

  lemma PositionArrives(s: State, ms: seq<Outgoing>, rs: seq<Record>, es: seq<Event>, i: nat, k: nat)
    requires Inv(s) && Arrives(s, ms, rs, es) && !After(s, es).reader.failed
    requires i < |ms| && !ms[i].isCcs && Parsed(ms[i]).seqNum < |s.delivered| + |s.reader.inbox.slots|
    requires k < |Parsed(ms[i]).body| || (k == 0 && Parsed(ms[i]).body == [])
    ensures var f := Parsed(ms[i]); Got(After(s, es), f.seqNum, k, if f.body == [] then k else k + 1)
  {
    FlightCovers(ms, Cursor(0, 0), rs, i, k);
    var r :| r in rs && Over(r, Parsed(ms[i]), k);
    assert Arrival(r) in es;
    var j :| 0 <= j < |es| && es[j] == Arrival(r);
    assert RecordOk(es[j].record, s.history);
    ArrivedIsIn(s, es, j, ParseFragment(r.payload).value);
  }

  /** Message seqNum was handed on, or is complete in its slot; either way it is the sender's. */
  ghost predicate Completed(s: State, seqNum: nat)
    requires |s.reader.inbox.slots| > 0 && seqNum < |s.history|
  {
    var slot := s.reader.inbox.slots[s.reader.inbox.Index(seqNum)];
    if seqNum < |s.delivered| then s.delivered[seqNum] == WholeMessage(s.history, seqNum)
    else slot.Some? && slot.value.Complete() && slot.value.Raw() == WholeMessage(s.history, seqNum)
  }

  /** In any reachable state that can still read: when every record of a whole sending of a flight has arrived,
      in whatever order, with whatever other records of the sender, and however messages are taken in between,
      and no arrival was refused when it came, then each message of the flight that the window reached is handed
      on or complete, and it is the sender's message. */
  lemma FlightCompletes(s: State, ms: seq<Outgoing>, rs: seq<Record>, es: seq<Event>, i: nat)
    requires Inv(s) && !s.reader.failed && Arrives(s, ms, rs, es)
    requires forall k | 0 <= k < |es| :: !RefusedAt(s, es, k)
    requires i < |ms| && !ms[i].isCcs && Parsed(ms[i]).seqNum < |s.delivered| + |s.reader.inbox.slots|
    ensures var t := After(s, es);
            && !t.reader.failed && |t.reader.inbox.slots| > 0 && Parsed(ms[i]).seqNum < |t.history|
            && Completed(t, Parsed(ms[i]).seqNum)
  {
    FailsExactly(s, es);
    AfterKeeps(s, es);
    var f, t := Parsed(ms[i]), After(s, es);
    assert OutgoingOk(ms[i], s.history);
    if f.seqNum >= |t.delivered| {
      PositionArrives(s, ms, rs, es, i, 0);
      var m := t.reader.inbox.slots[t.reader.inbox.Index(f.seqNum)].value;
      forall k | 0 <= k < |f.body|
        ensures k in m.bytes
      {
        PositionArrives(s, ms, rs, es, i, k);
      }
      AllBytesComplete(t.reader.inbox, f.seqNum, t.history);
    }
  }

  lemma AllBytesComplete(p: Inbox, seqNum: nat, h: seq<HandshakeMessage>)
    requires InboxOk(p, h) && HasBytes(p, seqNum, 0, 0) && seqNum < |h|
    requires forall k | 0 <= k < |h[seqNum].body| :: k in p.slots[p.Index(seqNum)].value.bytes
    ensures var m := p.slots[p.Index(seqNum)].value; m.Complete() && m.Raw() == WholeMessage(h, seqNum)
  {
    var m := p.slots[p.Index(seqNum)].value;
    assert SlotOk(p, p.Index(seqNum)) && MessageOk(m, h);
    assert m.bytes.Keys == Range(0, m.msgLen);
    CompleteIsWhole(m, h);
  }

  /** A receiver for which no record of the sender is ever refused: before encryption, with no message too long,
      and no more messages given to the sender than the window reaches. */
  predicate Roomy(s: State) {
    && s.reader.inbox.epoch != 1 && s.reader.inbox.nullCipher
    && (forall i | 0 <= i < |s.history| :: |s.history[i].body| <= s.reader.inbox.maxLen)
    && |s.history| <= |s.delivered| + |s.reader.inbox.slots|
  }

  /** Then nothing that may happen on the way keeps the flight from completing. */
  lemma RoomyFlightCompletes(s: State, ms: seq<Outgoing>, rs: seq<Record>, es: seq<Event>, i: nat)
    requires Inv(s) && !s.reader.failed && Arrives(s, ms, rs, es) && Roomy(s) && i < |ms| && !ms[i].isCcs
    ensures var t := After(s, es);
            && !t.reader.failed && |t.reader.inbox.slots| > 0 && Parsed(ms[i]).seqNum < |t.history|
            && Completed(t, Parsed(ms[i]).seqNum)
  {
    forall k | 0 <= k < |es|
      ensures !RefusedAt(s, es, k)
    {
      if es[k].Arrival? {
        assert RecordOk(es[k].record, s.history);
        assert EventsOk(es[..k], s.history);
        AfterKeeps(s, es[..k]);
      }
    }
    assert OutgoingOk(ms[i], s.history);
    FlightCompletes(s, ms, rs, es, i);
  }
}

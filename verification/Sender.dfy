/** The sending side of the DTLS handshake transport. */
module Sender {
  import opened Words
  import opened Handshake
  import opened Receiver

  // A flight of messages is cut into fragments that fit the MTU, from a cursor that a failed write puts back and a
  // retransmission rewinds.

  /** DTLS_OUTGOING_MESSAGE: a ChangeCipherSpec, or a handshake message with its header. */
  datatype Outgoing = Outgoing(isCcs: bool, data: seq<byte>)

  /** The flight, and the cursor (outgoing_written, outgoing_offset). */
  datatype Outbox = Outbox(messages: seq<Outgoing>, written: nat, offset: nat, complete: bool, writeSeq: nat)
  {
    function At(): (c: Cursor) { Cursor(written, offset) }
  }

  datatype Cursor = Cursor(written: nat, offset: nat)

  /** SSL_MAX_HANDSHAKE_FLIGHT, the MTU, and what sealing adds to a record of a given length. */
  datatype Link = Link(flight: nat, mtu: nat, overhead: nat, prefix: nat, sealedLen: nat -> nat)

  ghost predicate LinkOk(l: Link) {
    && l.prefix <= l.overhead
    && forall n: nat :: n <= l.sealedLen(n) <= n + l.overhead
  }

  const CCS: Record := Record(ChangeCipherSpec, [1])

  // ----- Making messages -----

  /** What dtls1_init_message and the body leave in the builder: a message with a zero total length. */
  function InitMessage(typ: byte, seqNum: nat, body: seq<byte>): (data: seq<byte>) {
    Serialize(Fragment(typ, 0, seqNum, 0, body))
  }

  /** dtls1_finish_message: copy the fragment length into the total message length. */
  function FinishMessage(data: seq<byte>): (r: Option<seq<byte>>) {
    if |data| < HEADER_LENGTH then None else Some(data[..1] + data[9..12] + data[4..])
  }

  lemma FinishedMessage(typ: byte, seqNum: nat, body: seq<byte>)
    ensures FinishMessage(InitMessage(typ, seqNum, body)) == Some(Whole(typ, seqNum, body))
  {
    var data := InitMessage(typ, seqNum, body);
    assert data[..1] == [typ] && data[9..12] == U24(|body|);
    assert data[4..] == U16(seqNum) + U24(0) + U24(|body|) + body;
    assert Whole(typ, seqNum, body) == [typ] + U24(|body|) + (U16(seqNum) + U24(0) + U24(|body|) + body);
  }

  /** dtls_clear_outgoing_messages */
  function Clear(o: Outbox): (o': Outbox) {
    o.(messages := [], written := 0, offset := 0, complete := false)
  }

  /** add_outgoing: a message added after the flight is complete starts a new flight. */
  function AddOutgoing(o: Outbox, l: Link, m: Outgoing): (r: (Outbox, bool)) {
    var q := if o.complete then Clear(o) else o;
    if |q.messages| >= l.flight || |m.data| > 0xFFFF_FFFF then (q, false)
    else (q.(messages := q.messages + [m], writeSeq := if m.isCcs then q.writeSeq else q.writeSeq + 1), true)
  }

  // ----- Sealing -----

  datatype Seal =
    | SealError
    | NoProgress
    | Partial(record: Record, len: nat, offset: nat)
    | Done(record: Record, len: nat, offset: nat)

  /** seal_next_message */
  function SealMessage(o: Outbox, l: Link, maxOut: nat): (r: Seal)
    requires o.written < |o.messages|
  {
    var m := o.messages[o.written];
    if m.isCcs then
      if maxOut < 1 + l.overhead then NoProgress
      else if l.sealedLen(1) > maxOut then SealError
      else Done(CCS, l.sealedLen(1), o.offset)
    else
      match ParseFragment(m.data)
      case Err => SealError
      case Ok(f, rest) =>
        if f.off != 0 || f.msgLen != |f.body| || o.offset > |f.body| || rest != [] then SealError
        else if maxOut < HEADER_LENGTH + 1 + l.overhead || maxOut < l.prefix then NoProgress
        else SealFragment(o.offset, l, maxOut, f)
  }

  /** The part of seal_next_message that assembles a fragment from the offset on. */
  function SealFragment(offset: nat, l: Link, maxOut: nat, f: Fragment): (r: Seal)
    requires offset <= |f.body| && maxOut > HEADER_LENGTH + l.overhead && maxOut >= l.prefix
  {
    var left, room := |f.body| - offset, maxOut - HEADER_LENGTH - l.overhead;
    var todo := if left > room then room else left;
    var record := FragmentRecord(f, offset, todo);
    var len := l.sealedLen(HEADER_LENGTH + todo);
    if HEADER_LENGTH + todo > maxOut - l.prefix || len > maxOut then SealError
    else if todo == left then Done(record, len, 0)
    else Partial(record, len, offset + todo)
  }

  /** The record that carries n bytes of a message from an offset on. */
  function FragmentRecord(f: Fragment, offset: nat, n: nat): (r: Record)
    requires offset + n <= |f.body|
    ensures |r.payload| == HEADER_LENGTH + n
  {
    Record(HandshakeRecord, Serialize(f.(off := offset, body := f.body[offset..offset + n])))
  }

  datatype Sealing = Sealing(ok: bool, packet: seq<Record>, o: Outbox)

  /** The loop of seal_next_packet. */
  function SealRest(o: Outbox, l: Link, maxOut: nat): (r: Sealing)
    decreases |o.messages| - o.written, 1
  {
    if o.written >= |o.messages| then Sealing(true, [], o) else AddRecord(o, l, maxOut, SealMessage(o, l, maxOut))
  }

  /** One turn of the loop, with what seal_next_message returned. */
  function AddRecord(o: Outbox, l: Link, maxOut: nat, s: Seal): (r: Sealing)
    requires o.written < |o.messages|
    decreases |o.messages| - o.written, 0
  {
    match s
    case SealError => Sealing(false, [], o)
    case NoProgress => Sealing(true, [], o)
    case Partial(record, _, offset) => Sealing(true, [record], o.(offset := offset))
    case Done(record, len, offset) =>
      if len > maxOut then Sealing(false, [], o)
      else
        var r := SealRest(o.(written := o.written + 1, offset := offset), l, maxOut - len);
        r.(packet := [record] + r.packet)
  }

  /** seal_next_packet: a packet without a record is an error, the MTU is too small. */
  function SealPacket(o: Outbox, l: Link): (r: Sealing) {
    var r := SealRest(o, l, l.mtu);
    r.(ok := r.ok && r.packet != [])
  }

  // ----- The cursor -----

  /** A handshake message as add_outgoing gets it: one whole fragment. */
  predicate WellFormed(m: Outgoing) {
    m.isCcs || match ParseFragment(m.data)
               case Err => false
               case Ok(f, rest) => f.off == 0 && f.msgLen == |f.body| && rest == []
  }

  function Parsed(m: Outgoing): (f: Fragment)
    requires WellFormed(m) && !m.isCcs
    ensures Fits(f) && f.off == 0 && f.msgLen == |f.body|
  {
    ParseFragment(m.data).value
  }

  predicate FlightOk(ms: seq<Outgoing>) {
    forall i | 0 <= i < |ms| :: WellFormed(ms[i])
  }

  /** A cursor between two records: not past a message's end, and zero at a message's start. */
  predicate CursorOk(ms: seq<Outgoing>, c: Cursor)
    requires FlightOk(ms)
  {
    && c.written <= |ms|
    && (c.offset == 0 || (c.written < |ms| && !ms[c.written].isCcs && c.offset < |Parsed(ms[c.written]).body|))
  }

  /** Where the cursor is after a record, if the record continues the flight exactly at the cursor: the
      ChangeCipherSpec, or a fragment whose offset is the cursor's and that is empty only for an empty message. */
  function Follow(ms: seq<Outgoing>, c: Cursor, r: Record): (c': Option<Cursor>)
    requires FlightOk(ms)
  {
    if c.written >= |ms| then None
    else if ms[c.written].isCcs then
      if c.offset == 0 && r == CCS then Some(Cursor(c.written + 1, 0)) else None
    else
      var f := Parsed(ms[c.written]);
      var n := |r.payload| - HEADER_LENGTH;
      if n < 0 || c.offset + n > |f.body| || (n == 0 && f.body != []) then None
      else if r != FragmentRecord(f, c.offset, n) then None
      else if c.offset + n == |f.body| then Some(Cursor(c.written + 1, 0))
      else Some(Cursor(c.written, c.offset + n))
  }

  function FollowAll(ms: seq<Outgoing>, c: Cursor, rs: seq<Record>): (c': Option<Cursor>)
    requires FlightOk(ms)
    decreases |rs|
  {
    if rs == [] then Some(c)
    else match Follow(ms, c, rs[0]) case None => None case Some(next) => FollowAll(ms, next, rs[1..])
  }

  lemma {:induction false} FollowAllAppend(ms: seq<Outgoing>, c: Cursor, rs: seq<Record>, ts: seq<Record>)
    requires FlightOk(ms) && FollowAll(ms, c, rs).Some?
    ensures FollowAll(ms, c, rs + ts) == FollowAll(ms, FollowAll(ms, c, rs).value, ts)
    decreases |rs|
  {
    if rs == [] {
      assert rs + ts == ts;
    } else {
      FollowAllAppend(ms, Follow(ms, c, rs[0]).value, rs[1..], ts);
      assert (rs + ts)[1..] == rs[1..] + ts;
    }
  }

  /** The sealed length of a packet. */
  function WireLen(l: Link, rs: seq<Record>): (n: nat)
    decreases |rs|
  {
    if rs == [] then 0 else l.sealedLen(|rs[0].payload|) + WireLen(l, rs[1..])
  }

  /** A sealed fragment continues the flight, fits, and moves the cursor to where the flight continues. */
  lemma SealFragmentFollows(o: Outbox, l: Link, maxOut: nat)
    requires LinkOk(l) && FlightOk(o.messages) && CursorOk(o.messages, o.At())
    requires o.written < |o.messages| && !o.messages[o.written].isCcs
    requires maxOut > HEADER_LENGTH + l.overhead
    ensures var r := SealFragment(o.offset, l, maxOut, Parsed(o.messages[o.written]));
            && (r.Done? || r.Partial?) && r.len == l.sealedLen(|r.record.payload|) <= maxOut
            && (r.Done? ==> Follow(o.messages, o.At(), r.record) == Some(Cursor(o.written + 1, 0)) && r.offset == 0)
            && (r.Partial? ==> Follow(o.messages, o.At(), r.record) == Some(Cursor(o.written, r.offset)))
            && (r.Partial? ==> o.offset < r.offset < |Parsed(o.messages[o.written]).body|)
  {
  }

  /** A sealed record continues the flight at the cursor, fits, and moves the cursor to where the flight goes on. */
  ghost predicate Continues(o: Outbox, l: Link, maxOut: nat, s: Seal)
    requires FlightOk(o.messages)
  {
    && !s.SealError?
    && (s.Done? || s.Partial? ==> s.len == l.sealedLen(|s.record.payload|) <= maxOut)
    && (s.Done? ==> Follow(o.messages, o.At(), s.record) == Some(Cursor(o.written + 1, 0)) && s.offset == 0)
    && (s.Partial? ==> Follow(o.messages, o.At(), s.record) == Some(Cursor(o.written, s.offset)))
    && (s.Partial? ==> o.offset < s.offset && CursorOk(o.messages, Cursor(o.written, s.offset)))
  }

  lemma SealMessageFollows(o: Outbox, l: Link, maxOut: nat)
    requires LinkOk(l) && FlightOk(o.messages) && CursorOk(o.messages, o.At()) && o.written < |o.messages|
    ensures Continues(o, l, maxOut, SealMessage(o, l, maxOut))
    ensures SealMessage(o, l, maxOut).NoProgress? <==>
      maxOut < l.overhead + if o.messages[o.written].isCcs then 1 else HEADER_LENGTH + 1
  {
    if !o.messages[o.written].isCcs && maxOut > HEADER_LENGTH + l.overhead {
      SealFragmentFollows(o, l, maxOut);
    }
  }

  /** Sealing succeeds, the records take the cursor to where the outbox's cursor then is, and they fit the space. */
  ghost predicate Follows(o: Outbox, l: Link, maxOut: nat, r: Sealing)
    requires FlightOk(o.messages)
  {
    && r.ok && r.o == o.(written := r.o.written, offset := r.o.offset)
    && CursorOk(o.messages, r.o.At())
    && FollowAll(o.messages, o.At(), r.packet) == Some(r.o.At())
    && WireLen(l, r.packet) <= maxOut
  }

  lemma OneMore(o: Outbox, l: Link, maxOut: nat, record: Record, next: Outbox, r: Sealing)
    requires FlightOk(o.messages) && Follow(o.messages, o.At(), record) == Some(next.At())
    requires next == o.(written := next.written, offset := next.offset)
    requires l.sealedLen(|record.payload|) <= maxOut
    requires Follows(next, l, maxOut - l.sealedLen(|record.payload|), r)
    ensures Follows(o, l, maxOut, r.(packet := [record] + r.packet))
  {
    assert ([record] + r.packet)[1..] == r.packet;
  }

  lemma LastRecord(o: Outbox, l: Link, maxOut: nat, s: Seal)
    requires FlightOk(o.messages) && s.Partial? && Continues(o, l, maxOut, s)
    ensures Follows(o, l, maxOut, Sealing(true, [s.record], o.(offset := s.offset)))
  {
    var next := o.(offset := s.offset);
    OneMore(o, l, maxOut, s.record, next, Sealing(true, [], next));
    assert [s.record] + [] == [s.record];
  }

  lemma {:induction false} SealRestFollows(o: Outbox, l: Link, maxOut: nat)
    requires LinkOk(l) && FlightOk(o.messages) && CursorOk(o.messages, o.At())
    ensures Follows(o, l, maxOut, SealRest(o, l, maxOut))
    decreases |o.messages| - o.written, 1
  {
    if o.written < |o.messages| {
      SealMessageFollows(o, l, maxOut);
      AddRecordFollows(o, l, maxOut, SealMessage(o, l, maxOut));
    }
  }

  lemma {:induction false} AddRecordFollows(o: Outbox, l: Link, maxOut: nat, s: Seal)
    requires LinkOk(l) && FlightOk(o.messages) && CursorOk(o.messages, o.At()) && o.written < |o.messages|
    requires Continues(o, l, maxOut, s)
    ensures Follows(o, l, maxOut, AddRecord(o, l, maxOut, s))
    decreases |o.messages| - o.written, 0
  {
    match s
    case NoProgress =>
    case Partial(_, _, _) => LastRecord(o, l, maxOut, s);
    case Done(record, len, offset) =>
      var next := o.(written := o.written + 1, offset := offset);
      SealRestFollows(next, l, maxOut - len);
      OneMore(o, l, maxOut, record, next, SealRest(next, l, maxOut - len));
  }

  /** With room for the next message a packet is not empty: the only failure is an MTU that is too small. */
  lemma PacketMakesProgress(o: Outbox, l: Link)
    requires LinkOk(l) && FlightOk(o.messages) && CursorOk(o.messages, o.At()) && o.written < |o.messages|
    ensures SealPacket(o, l).ok <==> l.mtu >= l.overhead + if o.messages[o.written].isCcs then 1 else HEADER_LENGTH + 1
    ensures !SealPacket(o, l).ok ==> SealPacket(o, l).o == o
  {
    SealMessageFollows(o, l, l.mtu);
    SealRestFollows(o, l, l.mtu);
    assert SealRest(o, l, l.mtu) == AddRecord(o, l, l.mtu, SealMessage(o, l, l.mtu));
    if !SealPacket(o, l).ok {
      EmptyStays(o, l, l.mtu);
    }
  }

  // ----- Sending -----

  /** What is left of the message at the cursor. */
  function BytesLeft(o: Outbox): (n: int) {
    if o.written >= |o.messages| || ParseFragment(o.messages[o.written].data).Err? then 0
    else |ParseFragment(o.messages[o.written].data).value.body| - o.offset
  }

  /** A fragment that is not the last takes some bytes of its message. */
  lemma PartialDecreases(o: Outbox, l: Link, maxOut: nat)
    requires o.written < |o.messages| && SealMessage(o, l, maxOut).Partial?
    ensures 0 <= BytesLeft(o.(offset := SealMessage(o, l, maxOut).offset)) < BytesLeft(o)
  {
  }

  ghost predicate Later(o: Outbox, o': Outbox) {
    && o'.messages == o.messages
    && o.written <= o'.written <= |o.messages|
    && (o'.written == o.written ==> 0 <= BytesLeft(o') < BytesLeft(o))
  }

  /** Every packet moves the cursor on: a message less, or fewer bytes of it. */
  lemma {:induction false} PacketDecreases(o: Outbox, l: Link, maxOut: nat)
    requires SealRest(o, l, maxOut).ok && SealRest(o, l, maxOut).packet != []
    ensures o.written < |o.messages| && Later(o, SealRest(o, l, maxOut).o)
    decreases |o.messages| - o.written, 1
  {
    var s := SealMessage(o, l, maxOut);
    if s.Partial? {
      PartialDecreases(o, l, maxOut);
    }
    AddRecordDecreases(o, l, maxOut, s);
  }

  lemma {:induction false} AddRecordDecreases(o: Outbox, l: Link, maxOut: nat, s: Seal)
    requires o.written < |o.messages|
    requires s.Partial? ==> 0 <= BytesLeft(o.(offset := s.offset)) < BytesLeft(o)
    requires AddRecord(o, l, maxOut, s).ok && AddRecord(o, l, maxOut, s).packet != []
    ensures Later(o, AddRecord(o, l, maxOut, s).o)
    decreases |o.messages| - o.written, 0
  {
    if s.Done? {
      var next := o.(written := o.written + 1, offset := s.offset);
      if SealRest(next, l, maxOut - s.len).packet != [] {
        PacketDecreases(next, l, maxOut - s.len);
      } else {
        EmptyStays(next, l, maxOut - s.len);
      }
    }
  }

  lemma EmptyStays(o: Outbox, l: Link, maxOut: nat)
    requires SealRest(o, l, maxOut).packet == []
    ensures SealRest(o, l, maxOut).o == o
  {
    if o.written < |o.messages| {
      var s := SealMessage(o, l, maxOut);
      assert SealRest(o, l, maxOut) == AddRecord(o, l, maxOut, s);
    }
  }

  /** packets are those written, in order; ok tells whether the whole flight is out. */
  datatype Sent = Sent(o: Outbox, packets: seq<seq<Record>>, attempts: nat, ok: bool)

  /** The loop of send_flight. bio(k) tells whether the k-th BIO_write takes its packet. */
  function Send(o: Outbox, l: Link, bio: nat -> bool, k: nat): (r: Sent)
    decreases |o.messages| - o.written, BytesLeft(o)
  {
    if o.written >= |o.messages| then Sent(o, [], k, true)
    else
      var s := SealPacket(o, l);
      if !s.ok then Sent(s.o, [], k, false)
      else if !bio(k) then Sent(o, [], k + 1, false)
      else
        assert s.o.written <= |o.messages| by { PacketDecreases(o, l, l.mtu); }
        PacketDecreases(o, l, l.mtu);
        var r := Send(s.o, l, bio, k + 1);
        r.(packets := [s.packet] + r.packets)
  }

  /** dtls1_flush_flight, without the timer. */
  function Flush(o: Outbox, l: Link, bio: nat -> bool, k: nat): (r: Sent) {
    Send(o.(complete := true), l, bio, k)
  }

  /** dtls1_retransmit_outgoing_messages */
  function Retransmit(o: Outbox, l: Link, bio: nat -> bool, k: nat): (r: Sent) {
    Send(o.(written := 0, offset := 0), l, bio, k)
  }

  function Records(packets: seq<seq<Record>>): (rs: seq<Record>)
    decreases |packets|
  {
    if packets == [] then [] else packets[0] + Records(packets[1..])
  }

  /** The packets that were written continue the flight from the old cursor to the new one, which is where the
      next attempt goes on: a failed write leaves no gap. Every packet fits the MTU. */
  lemma {:induction false} SendFollows(o: Outbox, l: Link, bio: nat -> bool, k: nat)
    requires LinkOk(l) && FlightOk(o.messages) && CursorOk(o.messages, o.At())
    ensures var r := Send(o, l, bio, k);
            && r.o == o.(written := r.o.written, offset := r.o.offset)
            && CursorOk(o.messages, r.o.At())
            && FollowAll(o.messages, o.At(), Records(r.packets)) == Some(r.o.At())
            && (r.ok <==> r.o.written == |o.messages|)
    ensures forall p | p in Send(o, l, bio, k).packets :: WireLen(l, p) <= l.mtu
    decreases |o.messages| - o.written, BytesLeft(o)
  {
    var s := SealPacket(o, l);
    SealRestFollows(o, l, l.mtu);
    if o.written < |o.messages| && s.ok && bio(k) {
      PacketDecreases(o, l, l.mtu);
      SendFollows(s.o, l, bio, k + 1);
      var r := Send(s.o, l, bio, k + 1);
      FollowAllAppend(o.messages, o.At(), s.packet, Records(r.packets));
      assert ([s.packet] + r.packets)[1..] == r.packets;
    } else if o.written < |o.messages| {
      PacketMakesProgress(o, l);
    }
  }

  /** With room for a header and a byte, and every write taken, the whole flight goes out. */
  lemma {:induction false} SendCompletes(o: Outbox, l: Link, bio: nat -> bool, k: nat)
    requires LinkOk(l) && FlightOk(o.messages) && CursorOk(o.messages, o.At())
    requires l.mtu >= HEADER_LENGTH + 1 + l.overhead && forall i :: i >= k ==> bio(i)
    ensures Send(o, l, bio, k).ok
    decreases |o.messages| - o.written, BytesLeft(o)
  {
    if o.written < |o.messages| {
      PacketMakesProgress(o, l);
      PacketDecreases(o, l, l.mtu);
      SealRestFollows(o, l, l.mtu);
      SendCompletes(SealPacket(o, l).o, l, bio, k + 1);
    }
  }
}

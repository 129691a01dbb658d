/** The send state of DTLS1_STATE as an object, and the transport it writes packets to. */
module OutgoingMessages {
  import opened Words
  import opened Handshake
  import opened Receiver
  import opened Sender

  /** A datagram transport that takes or refuses each packet. */
  class Bio {
    const takes: nat -> bool
    var attempts: nat
    var sent: seq<seq<Record>>

    constructor (takes: nat -> bool)
      ensures this.takes == takes && attempts == 0 && sent == []
    {
      this.takes := takes;
      attempts := 0;
      sent := [];
    }

    /** BIO_write */
    method Write(packet: seq<Record>) returns (ok: bool)
      modifies this
      ensures ok == takes(old(attempts)) && attempts == old(attempts) + 1
      ensures sent == if ok then old(sent) + [packet] else old(sent)
    {
      ok := takes(attempts);
      attempts := attempts + 1;
      if ok {
        sent := sent + [packet];
      }
    }
  }

  /** dtls1_finish_message: copy the fragment length over the total length. */
  method FinishInPlace(data: array<byte>) returns (ok: bool)
    modifies data
    ensures ok <==> FinishMessage(old(data[..])).Some?
    ensures data[..] == if ok then FinishMessage(old(data[..])).value else old(data[..])
  {
    if data.Length < HEADER_LENGTH {
      return false;
    }
    data[1], data[2], data[3] := data[9], data[10], data[11];
    ok := true;
    assert data[..] == data[..1] + [data[1], data[2], data[3]] + data[4..];
    assert old(data[9..12]) == [old(data[9]), old(data[10]), old(data[11])];
  }

  class Flight {
    const link: Link
    var messages: seq<Outgoing>
    var written: nat
    var offset: nat
    var complete: bool
    var writeSeq: nat

    ghost function View(): (o: Outbox)
      reads this
    {
      Outbox(messages, written, offset, complete, writeSeq)
    }

    constructor (l: Link)
      ensures link == l && View() == Outbox([], 0, 0, false, 0)
    {
      link := l;
      messages := [];
      written, offset, writeSeq := 0, 0, 0;
      complete := false;
    }

    method ClearMessages()
      modifies this
      ensures View() == Clear(old(View()))
    {
      messages := [];
      written := 0;
      offset := 0;
      complete := false;
    }

    /** add_outgoing */
    method Add(isCcs: bool, data: seq<byte>) returns (ok: bool)
      modifies this
      ensures (View(), ok) == AddOutgoing(old(View()), link, Outgoing(isCcs, data))
    {
      if complete {
        ClearMessages();
      }
      if |messages| >= link.flight || |data| > 0xFFFF_FFFF {
        return false;
      }
      if !isCcs {
        writeSeq := writeSeq + 1;
      }
      messages := messages + [Outgoing(isCcs, data)];
      return true;
    }

    /** seal_next_message, for the message at the cursor. */
    method SealNextMessage(maxOut: nat) returns (s: Seal)
      requires written < |messages|
      modifies this`offset
      ensures s == SealMessage(old(View()), link, maxOut)
      ensures offset == if s.Done? || s.Partial? then s.offset else old(offset)
    {
      var msg := messages[written];
      if msg.isCcs {
        if maxOut < 1 + link.overhead {
          return NoProgress;
        }
        if link.sealedLen(1) > maxOut {
          return SealError;
        }
        return Done(CCS, link.sealedLen(1), offset);
      }
      var parsed := ParseFragment(msg.data);
      if parsed.Err? {
        return SealError;
      }
      var hdr, cbs := parsed.value, parsed.rest;
      if hdr.off != 0 || hdr.msgLen != |hdr.body| || offset > |hdr.body| || cbs != [] {
        return SealError;
      }
      if maxOut < HEADER_LENGTH + 1 + link.overhead || maxOut < link.prefix {
        return NoProgress;
      }
      var body := hdr.body[offset..];
      var todo := |body|;
      if todo > maxOut - HEADER_LENGTH - link.overhead {
        todo := maxOut - HEADER_LENGTH - link.overhead;
      }
      if HEADER_LENGTH + todo > maxOut - link.prefix {
        return SealError;
      }
      var frag := [hdr.typ] + U24(hdr.msgLen) + U16(hdr.seqNum) + U24(offset) + U24(todo) + body[..todo];
      assert body[..todo] == hdr.body[offset..offset + todo];
      assert frag == FragmentRecord(hdr, offset, todo).payload;
      var len := link.sealedLen(|frag|);
      if len > maxOut {
        return SealError;
      }
      if todo == |body| {
        offset := 0;
        return Done(Record(HandshakeRecord, frag), len, 0);
      }
      offset := offset + todo;
      return Partial(Record(HandshakeRecord, frag), len, offset);
    }

    /** seal_next_packet */
    method SealNextPacket() returns (ok: bool, packet: seq<Record>)
      modifies this`written, this`offset
      ensures var r := SealPacket(old(View()), link);
              ok == r.ok && View() == r.o && (ok ==> packet == r.packet)
    {
      var maxOut: nat := link.mtu;
      packet := [];
      ghost var whole := SealRest(View(), link, maxOut);
      while written < |messages|
        invariant Extends(packet, SealRest(View(), link, maxOut), whole)
        decreases |messages| - written
      {
        ghost var before := View();
        var s := SealNextMessage(maxOut);
        if !s.Done? {
          StopsHere(packet, before, link, maxOut, whole);
          if s.SealError? {
            return false, packet;
          } else if s.Partial? {
            packet := packet + [s.record];
          }
          break;
        }
        NextRecord(packet, before, link, maxOut, whole);
        packet := packet + [s.record];
        maxOut := maxOut - s.len;
        written := written + 1;
      }
      ok := packet != [];
    }

    /** The records so far and then those of the rest make the whole packet. */
    static ghost predicate Extends(packet: seq<Record>, rest: Sealing, whole: Sealing) {
      whole == rest.(packet := packet + rest.packet)
    }

    /** A turn of the loop that ends the packet. */
    static lemma StopsHere(packet: seq<Record>, o: Outbox, l: Link, maxOut: nat, whole: Sealing)
      requires Extends(packet, SealRest(o, l, maxOut), whole)
      requires o.written < |o.messages| && !SealMessage(o, l, maxOut).Done?
      ensures var s := SealMessage(o, l, maxOut);
              whole == if s.Partial? then Sealing(true, packet + [s.record], o.(offset := s.offset))
                       else Sealing(!s.SealError?, packet, o)
    {
      assert SealRest(o, l, maxOut) == AddRecord(o, l, maxOut, SealMessage(o, l, maxOut));
      assert packet + [] == packet;
    }

    /** A turn of the loop that goes on to the next message. */
    static lemma NextRecord(packet: seq<Record>, o: Outbox, l: Link, maxOut: nat, whole: Sealing)
      requires Extends(packet, SealRest(o, l, maxOut), whole)
      requires o.written < |o.messages| && SealMessage(o, l, maxOut).Done?
      ensures var s := SealMessage(o, l, maxOut);
              && s.len <= maxOut
              && Extends(packet + [s.record],
                         SealRest(o.(written := o.written + 1, offset := s.offset), l, maxOut - s.len), whole)
    {
      var s := SealMessage(o, l, maxOut);
      assert SealRest(o, l, maxOut) == AddRecord(o, l, maxOut, s);
      var rest := SealRest(o.(written := o.written + 1, offset := s.offset), l, maxOut - s.len);
      assert packet + ([s.record] + rest.packet) == packet + [s.record] + rest.packet;
    }

    /** send_flight: it ends, on the messages left and the bytes left of the message at the cursor. */
    method SendFlight(bio: Bio) returns (ok: bool)
      modifies this`written, this`offset, bio
      ensures var r := Send(old(View()), link, bio.takes, old(bio.attempts));
              && View() == r.o && bio.sent == old(bio.sent) + r.packets && bio.attempts == r.attempts && ok == r.ok
    {
      ghost var all := Send(View(), link, bio.takes, bio.attempts);
      ghost var went: seq<seq<Record>> := [];
      while written < |messages|
        invariant bio.sent == old(bio.sent) + went
        invariant all == After(went, Send(View(), link, bio.takes, bio.attempts))
        decreases |messages| - written, BytesLeft(View())
      {
        ghost var before := View();
        PacketMoves(before, link);
        ok := SendNextPacket(bio);
        if !ok {
          return;
        }
        NextTurn(went, before, link, bio.takes, bio.attempts - 1);
        went := went + [SealPacket(before, link).packet];
      }
      return true;
    }

    /** One turn of the loop: a packet that cannot be sealed or is not taken ends the send, and the cursor is where
        the next one goes on. */
    method SendNextPacket(bio: Bio) returns (ok: bool)
      requires written < |messages|
      modifies this`written, this`offset, bio
      ensures var packet, k := SealPacket(old(View()), link), old(bio.attempts);
              if packet.ok && bio.takes(k) then
                ok && View() == packet.o && bio.sent == old(bio.sent) + [packet.packet] && bio.attempts == k + 1
              else
                && !ok && bio.sent == old(bio.sent)
                && Send(old(View()), link, bio.takes, k) == Sent(View(), [], bio.attempts, false)
    {
      var oldWritten, oldOffset := written, offset;
      var sealedOk, packet := SealNextPacket();
      if !sealedOk {
        return false;
      }
      ok := bio.Write(packet);
      if !ok {
        written := oldWritten;
        offset := oldOffset;
      }
    }

    /** What a send that has already written some packets comes to. */
    static ghost function After(went: seq<seq<Record>>, rest: Sent): (r: Sent) {
      rest.(packets := went + rest.packets)
    }

    static lemma NextTurn(went: seq<seq<Record>>, o: Outbox, l: Link, takes: nat -> bool, k: nat)
      requires o.written < |o.messages| && SealPacket(o, l).ok && takes(k)
      ensures After(went, Send(o, l, takes, k))
           == After(went + [SealPacket(o, l).packet], Send(SealPacket(o, l).o, l, takes, k + 1))
    {
      var packet, rest := SealPacket(o, l).packet, Send(SealPacket(o, l).o, l, takes, k + 1);
      assert went + ([packet] + rest.packets) == went + [packet] + rest.packets;
    }

    static lemma PacketMoves(o: Outbox, l: Link)
      ensures SealPacket(o, l).ok ==> o.written < |o.messages| && Later(o, SealPacket(o, l).o)
    {
      if SealPacket(o, l).ok {
        PacketDecreases(o, l, l.mtu);
      }
    }

    /** dtls1_flush_flight, without the timer. */
    method FlushFlight(bio: Bio) returns (ok: bool)
      modifies this, bio
      ensures var r := Flush(old(View()), link, bio.takes, old(bio.attempts));
              && View() == r.o && bio.sent == old(bio.sent) + r.packets && bio.attempts == r.attempts && ok == r.ok
    {
      complete := true;
      ok := SendFlight(bio);
    }

    /** dtls1_retransmit_outgoing_messages */
    method RetransmitFlight(bio: Bio) returns (ok: bool)
      modifies this, bio
      ensures var r := Retransmit(old(View()), link, bio.takes, old(bio.attempts));
              && View() == r.o && bio.sent == old(bio.sent) + r.packets && bio.attempts == r.attempts && ok == r.ok
    {
      written := 0;
      offset := 0;
      ok := SendFlight(bio);
    }
  }
}

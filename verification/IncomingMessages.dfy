/** The receive state of DTLS1_STATE as an object: incoming_messages, handshake_read_seq and the flags. */
module IncomingMessages {
  import opened Words
  import opened Handshake
  import opened Reassembly
  import opened Receiver

  class Incoming {
    const incoming: array<HmFragment?>
    var handshakeReadSeq: nat
    var hasMessage: bool
    var hasChangeCipherSpec: bool
    const maxMessageLen: nat
    const readEpoch: nat
    const nullCipher: bool
    /** The state as a value. */
    ghost var inbox: Inbox
    ghost var Repr: set<object>

    ghost predicate Valid()
      reads this, Repr
    {
      && this in Repr && incoming in Repr && incoming.Length > 0
      && inbox.readSeq == handshakeReadSeq && inbox.hasMessage == hasMessage && inbox.hasCcs == hasChangeCipherSpec
      && inbox.maxLen == maxMessageLen && inbox.epoch == readEpoch && inbox.nullCipher == nullCipher
      && |inbox.slots| == incoming.Length && WindowOk(inbox)
      && (forall i | 0 <= i < incoming.Length :: SlotValid(i))
      && (forall i, j | 0 <= i < j < incoming.Length :: Apart(incoming[i], incoming[j]))
    }

    static ghost predicate Apart(m: HmFragment?, n: HmFragment?) {
      m != null && n != null ==> m.Repr !! n.Repr
    }

    /** Slot i is empty, or holds its message apart from everything else. */
    ghost predicate SlotValid(i: nat)
      requires i < incoming.Length && |inbox.slots| == incoming.Length
      reads this, Repr, incoming
    {
      var m := incoming[i];
      if m == null then inbox.slots[i].None?
      else m in Repr && m.Repr <= Repr - {this, incoming} && m.Valid() && inbox.slots[i] == Some(m.View())
    }

    constructor (flight: nat, maxLen: nat, epoch: nat, isNull: bool)
      requires flight > 0
      ensures Valid() && fresh(Repr)
      ensures inbox == Inbox(seq(flight, _ => None), 0, false, false, maxLen, epoch, isNull)
    {
      incoming := new HmFragment?[flight](_ => null);
      handshakeReadSeq := 0;
      hasMessage := false;
      hasChangeCipherSpec := false;
      maxMessageLen := maxLen;
      readEpoch := epoch;
      nullCipher := isNull;
      inbox := Inbox(seq(flight, _ => None), 0, false, false, maxLen, epoch, isNull);
      Repr := {this, incoming};
    }

    /** dtls1_get_incoming_message: the slot's message, made if there is none; null on a mismatch. */
    method GetIncoming(f: Fragment) returns (frag: HmFragment?)
      requires Valid() && f.seqNum >= handshakeReadSeq
      modifies Repr
      ensures Valid() && fresh(Repr - old(Repr))
      ensures frag == null <==> Lookup(old(inbox), f).None?
      ensures frag == null ==> inbox == old(inbox)
      ensures frag != null ==>
        var i := f.seqNum % incoming.Length;
        incoming[i] == frag && inbox == Put(old(inbox), i, Lookup(old(inbox), f).value)
    {
      if f.seqNum < handshakeReadSeq || f.seqNum - handshakeReadSeq >= incoming.Length {
        return null;
      }
      var idx := f.seqNum % incoming.Length;
      assert SlotValid(idx);
      frag := incoming[idx];
      if frag != null {
        SlotMatchesFragment(inbox, f);
        assert frag.seqNum == f.seqNum;
        if frag.typ != f.typ || frag.msgLen != f.msgLen {
          return null;
        }
        assert Put(inbox, idx, frag.View()) == inbox;
        return frag;
      }
      frag := Create(f, idx);
    }

    /** dtls1_hm_fragment_new, into its slot. */
    method Create(f: Fragment, idx: nat) returns (frag: HmFragment)
      requires Valid() && handshakeReadSeq <= f.seqNum < handshakeReadSeq + incoming.Length
      requires idx == f.seqNum % incoming.Length && incoming[idx] == null
      modifies this`inbox, this`Repr, incoming
      ensures Valid() && fresh(Repr - old(Repr))
      ensures incoming[idx] == frag && inbox == Put(old(inbox), idx, Start(f.typ, f.seqNum, f.msgLen))
    {
      frag := new HmFragment(f.typ, f.seqNum, f.msgLen);
      PutKeepsWindow(inbox, idx, frag.View());
      incoming[idx] := frag;
      inbox := Put(inbox, idx, frag.View());
      Repr := Repr + frag.Repr;
      forall j | 0 <= j < incoming.Length
        ensures SlotValid(j)
      {
        assert old(SlotValid(j));
      }
      forall j, k | 0 <= j < k < incoming.Length
        ensures Apart(incoming[j], incoming[k])
      {
        assert old(SlotValid(j)) && old(SlotValid(k)) && old(Apart(incoming[j], incoming[k]));
      }
    }

    /** Copy a fragment into the message of slot i. */
    method Fill(i: nat, f: Fragment)
      requires Valid() && i < incoming.Length && SlotValid(i) && incoming[i] != null && incoming[i].reassembly != null
      requires f.off + |f.body| <= incoming[i].msgLen
      modifies this`inbox, incoming[i].Repr
      ensures Valid() && Repr == old(Repr)
      ensures inbox == Put(old(inbox), i, old(inbox).slots[i].value.Add(f.off, f.body))
    {
      assert SlotOk(inbox, i);
      var frag := incoming[i];
      frag.CopyIn(f.off, f.body);
      PutKeepsWindow(inbox, i, frag.View());
      inbox := Put(inbox, i, frag.View());
      forall j | 0 <= j < incoming.Length && j != i
        ensures SlotValid(j)
      {
        assert old(SlotValid(j));
        assert if j < i then old(Apart(incoming[j], incoming[i])) else old(Apart(incoming[i], incoming[j]));
      }
      forall j, k | 0 <= j < k < incoming.Length
        ensures Apart(incoming[j], incoming[k])
      {
        assert old(Apart(incoming[j], incoming[k]));
      }
    }

    /** One turn of dtls1_open_handshake's loop. */
    method AcceptFragment(f: Fragment) returns (ok: bool)
      requires Valid()
      modifies Repr
      ensures Valid() && fresh(Repr - old(Repr))
      ensures Accept(old(inbox), f) == (inbox, ok)
    {
      if f.off > f.msgLen || f.off + |f.body| > f.msgLen || f.msgLen > maxMessageLen {
        return false;
      }
      if readEpoch == 1 && f.seqNum != handshakeReadSeq {
        return false;
      }
      if f.seqNum < handshakeReadSeq || f.seqNum > handshakeReadSeq + incoming.Length {
        return true;
      }
      ok := FindAndFill(f);
    }

    method FindAndFill(f: Fragment) returns (ok: bool)
      requires Valid() && f.seqNum >= handshakeReadSeq && f.off + |f.body| <= f.msgLen
      modifies Repr
      ensures Valid() && fresh(Repr - old(Repr))
      ensures match Lookup(old(inbox), f)
              case None => inbox == old(inbox) && !ok
              case Some(m) =>
                var m' := if m.Complete() then m else m.Add(f.off, f.body);
                ok && inbox == Put(old(inbox), f.seqNum % |inbox.slots|, m')
    {
      var frag := GetIncoming(f);
      if frag == null {
        return false;
      }
      assert SlotValid(f.seqNum % incoming.Length);
      if frag.reassembly == null {
        return true;
      }
      Fill(f.seqNum % incoming.Length, f);
      return true;
    }

    method OpenHandshake(r: Record) returns (verdict: Verdict)
      requires Valid()
      modifies Repr
      ensures Valid() && fresh(Repr - old(Repr))
      ensures Open(old(inbox), r) == (inbox, verdict)
    {
      match r.typ
      case ApplicationData =>
        return if nullCipher then Error else Discard;
      case ChangeCipherSpec =>
        if !nullCipher || r.payload != [1] {
          return Error;
        }
        hasChangeCipherSpec := true;
        inbox := inbox.(hasCcs := true);
        forall j | 0 <= j < incoming.Length
          ensures SlotValid(j)
        {
          assert old(SlotValid(j));
        }
        return Success;
      case OtherRecord =>
        return Error;
      case HandshakeRecord =>
        var cbs := r.payload;
        while |cbs| > 0
          invariant Valid() && fresh(Repr - old(Repr))
          invariant AcceptAll(old(inbox), r.payload) == AcceptAll(inbox, cbs)
          decreases |cbs|
        {
          var parsed := ParseFragment(cbs);
          if parsed.Err? {
            return Error;
          }
          var ok := AcceptFragment(parsed.value);
          if !ok {
            return Error;
          }
          cbs := parsed.rest;
        }
        return Success;
    }

    /** dtls1_open_change_cipher_spec */
    method OpenChangeCipherSpec(r: Record) returns (verdict: Verdict)
      requires Valid()
      modifies Repr
      ensures Valid() && fresh(Repr - old(Repr))
      ensures Receiver.OpenChangeCipherSpec(old(inbox), r) == (inbox, verdict)
    {
      if !hasChangeCipherSpec {
        verdict := OpenHandshake(r);
        if !verdict.Success? {
          return;
        }
      }
      if hasChangeCipherSpec {
        TakeFlag();
        return Success;
      }
      return Discard;
    }

    method TakeFlag()
      requires Valid()
      modifies this`inbox, this`hasChangeCipherSpec
      ensures Valid() && inbox == old(inbox).(hasCcs := false)
    {
      hasChangeCipherSpec := false;
      inbox := inbox.(hasCcs := false);
      forall j | 0 <= j < incoming.Length
        ensures SlotValid(j)
      {
        assert old(SlotValid(j));
      }
    }

    method GetMessage() returns (raw: Option<seq<byte>>)
      requires Valid()
      modifies this`inbox, this`hasMessage
      ensures Valid() && Repr == old(Repr)
      ensures raw == Receiver.GetMessage(old(inbox))
      ensures inbox == Noted(old(inbox))
    {
      assert SlotValid(handshakeReadSeq % incoming.Length);
      var frag := incoming[handshakeReadSeq % incoming.Length];
      if frag == null || frag.reassembly != null {
        return None;
      }
      frag.CompleteData();
      raw := Some(frag.data[..]);
      hasMessage := true;
      inbox := inbox.(hasMessage := true);
      forall j | 0 <= j < incoming.Length
        ensures SlotValid(j)
      {
        assert old(SlotValid(j));
      }
    }

    method NextMessage()
      requires Valid() && hasMessage && inbox.CurrentComplete()
      modifies Repr
      ensures Valid() && Repr == old(Repr)
      ensures inbox == Receiver.NextMessage(old(inbox))
    {
      var i := handshakeReadSeq % incoming.Length;
      NextKeepsWindow(inbox, Receiver.NextMessage(inbox));
      incoming[i] := null;
      handshakeReadSeq := handshakeReadSeq + 1;
      hasMessage := false;
      inbox := Receiver.NextMessage(inbox);
      forall j | 0 <= j < incoming.Length
        ensures SlotValid(j)
      {
        assert old(SlotValid(j));
      }
      forall j, k | 0 <= j < k < incoming.Length
        ensures Apart(incoming[j], incoming[k])
      {
        assert old(Apart(incoming[j], incoming[k]));
      }
    }
  }

  /** The reading side of a connection: the receive state, and read_shutdown at ssl_shutdown_error. */
  class Connection {
    const messages: Incoming
    var readError: bool

    ghost function View(): (r: Reader)
      reads this, messages
    {
      Reader(messages.inbox, readError)
    }

    constructor (messages: Incoming)
      ensures this.messages == messages && View() == Reader(messages.inbox, false)
    {
      this.messages := messages;
      readError := false;
    }

    /** ssl_open_handshake */
    method OpenHandshake(r: Record) returns (verdict: Verdict)
      requires messages.Valid() && this !in messages.Repr
      modifies this, messages.Repr
      ensures messages.Valid() && fresh(messages.Repr - old(messages.Repr))
      ensures (View(), verdict) == Read(old(View()), r)
    {
      if readError {
        return Error;
      }
      verdict := messages.OpenHandshake(r);
      if verdict.Error? {
        readError := true;
      }
    }

    /** ssl_open_change_cipher_spec */
    method OpenChangeCipherSpec(r: Record) returns (verdict: Verdict)
      requires messages.Valid() && this !in messages.Repr
      modifies this, messages.Repr
      ensures messages.Valid() && fresh(messages.Repr - old(messages.Repr))
      ensures (View(), verdict) == ReadChangeCipherSpec(old(View()), r)
    {
      if readError {
        return Error;
      }
      verdict := messages.OpenChangeCipherSpec(r);
      if verdict.Error? {
        readError := true;
      }
    }
  }
}

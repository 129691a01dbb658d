/** What reading does with any record, from whomever it comes. */
module Reading {
  import opened Words
  import opened Handshake
  import opened Reassembly
  import opened Receiver

  // ----- One fragment -----

  predicate InWindow(p: Inbox, f: Fragment) {
    p.readSeq <= f.seqNum < p.readSeq + |p.slots|
  }

  /** Its slot already has a message that is not the fragment's. */
  predicate Clashes(p: Inbox, f: Fragment)
    requires |p.slots| > 0
  {
    InWindow(p, f) &&
    var s := p.slots[p.Index(f.seqNum)]; s.Some? && (s.value.typ != f.typ || s.value.msgLen != f.msgLen)
  }

  /** A fragment is an error exactly when it sticks out of its message, the message is too long, it is another than
      the next in the encrypted epoch, it is just past the window, or it contradicts what is in. */
  lemma RefusedExactly(p: Inbox, f: Fragment)
    requires WindowOk(p)
    ensures !Accept(p, f).1 <==>
      || f.off + |f.body| > f.msgLen || f.msgLen > p.maxLen
      || (p.epoch == 1 && f.seqNum != p.readSeq)
      || f.seqNum == p.readSeq + |p.slots|
      || Clashes(p, f)
  {
    if InWindow(p, f) && p.slots[p.Index(f.seqNum)].Some? {
      SlotMatchesFragment(p, f);
    }
  }

  /** The fragment is for a message of the window of which something is still missing. */
  predicate Wanted(p: Inbox, f: Fragment)
    requires |p.slots| > 0
  {
    InWindow(p, f) && var s := p.slots[p.Index(f.seqNum)]; s.None? || !s.value.Complete()
  }

  /** Any other fragment, and any that is an error, leaves everything as it is; ... */
  lemma UnwantedStaysOut(p: Inbox, f: Fragment)
    requires WindowOk(p) && (!Accept(p, f).1 || !Wanted(p, f))
    ensures Accept(p, f).0 == p
  {
    if InWindow(p, f) && p.slots[p.Index(f.seqNum)].Some? && Accept(p, f).1 {
      var i := p.Index(f.seqNum);
      SlotMatchesFragment(p, f);
      assert p.slots[i := p.slots[i]] == p.slots;
    }
  }

  /** ... a wanted one puts exactly its bytes in their place, and touches nothing else. */
  lemma WantedGetsIn(p: Inbox, f: Fragment)
    requires WindowOk(p) && Accept(p, f).1 && Wanted(p, f)
    ensures var q, i := Accept(p, f).0, p.Index(f.seqNum);
            && q == p.(slots := p.slots[i := q.slots[i]]) && q.slots[i].Some?
            && var m := q.slots[i].value;
               && m.typ == f.typ && m.seqNum == f.seqNum && m.msgLen == f.msgLen
               && forall k :: k in m.bytes <==>
                    f.off <= k < f.off + |f.body| || (p.slots[i].Some? && k in p.slots[i].value.bytes)
    ensures var i := p.Index(f.seqNum);
            forall k | k in Accept(p, f).0.slots[i].value.bytes :: Accept(p, f).0.slots[i].value.bytes[k] ==
              if f.off <= k < f.off + |f.body| then f.body[k - f.off] else p.slots[i].value.bytes[k]
  {
    if p.slots[p.Index(f.seqNum)].Some? {
      SlotMatchesFragment(p, f);
    }
  }

  // ----- One record -----

  /** Whatever fits in one record may come in several: a record goes on where one before it ended. */
  lemma {:induction false} RecordsJoin(p: Inbox, s: seq<byte>, t: seq<byte>)
    requires WindowOk(p) && AcceptAll(p, s).1 == Success
    ensures AcceptAll(p, s + t) == AcceptAll(AcceptAll(p, s).0, t)
    decreases |s|
  {
    if s == [] {
      assert s + t == t;
    } else {
      var f, rest := ParseFragment(s).value, ParseFragment(s).rest;
      ParsePrefix(s, t);
      AcceptKeepsWindow(p, f);
      RecordsJoin(Accept(p, f).0, rest, t);
    }
  }

  /** A record with one fragment does what the fragment does. */
  lemma RecordOfOne(p: Inbox, f: Fragment)
    requires WindowOk(p) && Fits(f)
    ensures AcceptAll(p, Serialize(f)) == (Accept(p, f).0, if Accept(p, f).1 then Success else Error)
  {
    ParseInvertsSerialize(f, []);
    assert Serialize(f) + [] == Serialize(f);
    AcceptKeepsWindow(p, f);
    assert AcceptAll(Accept(p, f).0, []) == (Accept(p, f).0, Success);
  }

  /** A ChangeCipherSpec, as the receiver takes it. */
  predicate IsCcs(p: Inbox, r: Record) {
    r.typ.ChangeCipherSpec? && p.nullCipher && r.payload == [1]
  }

  lemma {:induction false} FragmentsLeaveFlags(p: Inbox, s: seq<byte>)
    requires WindowOk(p)
    ensures var q := AcceptAll(p, s).0;
            && q == p.(slots := q.slots) && |q.slots| == |p.slots|
            && AcceptAll(p, s).1 != Discard
    decreases |s|
  {
    if s != [] && ParseFragment(s).Ok? {
      var f, rest := ParseFragment(s).value, ParseFragment(s).rest;
      AcceptKeepsWindow(p, f);
      if Accept(p, f).1 {
        FragmentsLeaveFlags(Accept(p, f).0, rest);
      }
    }
  }

  /** The flag goes up with a ChangeCipherSpec and with nothing else, and only handshake records touch the slots.
      Application data under a cipher is dropped; everything else that is not a handshake record is an error. */
  lemma OpenExactly(p: Inbox, r: Record)
    requires WindowOk(p)
    ensures var (q, verdict) := Open(p, r);
            && q == p.(slots := q.slots, hasCcs := p.hasCcs || IsCcs(p, r))
            && (!r.typ.HandshakeRecord? ==> q.slots == p.slots)
            && (verdict == Discard <==> r.typ.ApplicationData? && !p.nullCipher)
            && (!r.typ.HandshakeRecord? ==> (verdict == Success <==> IsCcs(p, r)))
  {
    if r.typ.HandshakeRecord? {
      FragmentsLeaveFlags(p, r.payload);
    }
  }

  /** The handshake gets to see a ChangeCipherSpec exactly when one is flagged or is read now, and then the flag is
      down again. */
  lemma TakesFlagExactly(p: Inbox, r: Record)
    requires WindowOk(p)
    ensures var (q, verdict) := OpenChangeCipherSpec(p, r);
            && (verdict == Success <==> p.hasCcs || IsCcs(p, r))
            && !q.hasCcs
            && (p.hasCcs ==> q == p.(hasCcs := false))
            && (!p.hasCcs ==> q.slots == Open(p, r).0.slots && (verdict == Error <==> Open(p, r).1 == Error))
  {
    OpenExactly(p, r);
  }

  // ----- Handing messages out -----

  datatype Call = ReadRecord(r: Record) | TakeCcs(r: Record) | Get | Release

  /** The source asserts that a message is released only when it was handed out. */
  predicate CallOk(p: Inbox, c: Call) {
    c.Release? ==> p.hasMessage
  }

  ghost function Called(p: Inbox, c: Call): (q: Inbox)
    requires Handed(p) && CallOk(p, c)
  {
    match c
    case ReadRecord(r) => Open(p, r).0
    case TakeCcs(r) => OpenChangeCipherSpec(p, r).0
    case Get => Noted(p)
    case Release => NextMessage(p)
  }

  /** A message that was handed out is still complete, so that it can be released. */
  ghost predicate Handed(p: Inbox) {
    WindowOk(p) && (p.hasMessage ==> p.CurrentComplete())
  }

  lemma {:induction false} CurrentStaysComplete(p: Inbox, s: seq<byte>)
    requires WindowOk(p) && p.CurrentComplete()
    ensures AcceptAll(p, s).0.readSeq == p.readSeq && |AcceptAll(p, s).0.slots| == |p.slots|
    ensures AcceptAll(p, s).0.CurrentComplete()
  {
    FragmentsLeaveFlags(p, s);
    CompletedStaysThroughRecord(p, s, p.Index(p.readSeq));
  }

  lemma OpenKeepsHanded(p: Inbox, r: Record)
    requires Handed(p)
    ensures Handed(Open(p, r).0)
  {
    OpenExactly(p, r);
    if r.typ.HandshakeRecord? && p.hasMessage {
      CurrentStaysComplete(p, r.payload);
    }
  }

  /** Whatever is read, the assertions of dtls1_next_message hold whenever a message was handed out. */
  lemma CallKeepsHanded(p: Inbox, c: Call)
    requires Handed(p) && CallOk(p, c)
    ensures Handed(Called(p, c))
  {
    match c
    case ReadRecord(r) => OpenKeepsHanded(p, r);
    case TakeCcs(r) => if !p.hasCcs { OpenKeepsHanded(p, r); }
    case Get =>
    case Release =>
  }

  /** has_message says exactly that the current message was handed out. */
  lemma HandsOutExactly(p: Inbox, c: Call)
    requires Handed(p) && CallOk(p, c)
    ensures Called(p, c).hasMessage <==>
      if c.Get? then p.hasMessage || GetMessage(p).Some? else !c.Release? && p.hasMessage
  {
    match c
    case ReadRecord(r) => OpenExactly(p, r);
    case TakeCcs(r) => OpenExactly(p, r);
    case _ =>
  }
}

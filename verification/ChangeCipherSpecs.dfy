/** When the receiver knows of a ChangeCipherSpec. */
module ChangeCipherSpecs {
  import opened Words
  import opened Handshake
  import opened Receiver
  import opened Sender
  import opened Transport
  import opened Completion
  import opened Reading
  import opened TakingTurns

  // Nothing in the model of a run takes the flag down again: that changes the cipher, which ends the epoch.

  /** A record of the sender raises the flag exactly when it is its ChangeCipherSpec. */
  lemma RecordFlags(p: Inbox, r: Record, h: seq<HandshakeMessage>)
    requires WindowOk(p) && RecordOk(r, h) && p.nullCipher
    ensures Open(p, r).0.hasCcs <==> p.hasCcs || r == CCS
    ensures Open(p, r).0.nullCipher
  {
    OpenExactly(p, r);
  }

  lemma EventFlags(s: State, e: Event)
    requires Inv(s) && EventsOk([e], s.history) && s.reader.inbox.nullCipher && !Happen(s, e).reader.failed
    ensures Inv(Happen(s, e)) && Happen(s, e).reader.inbox.nullCipher && Happen(s, e).history == s.history
    ensures Happen(s, e).reader.inbox.hasCcs <==> s.reader.inbox.hasCcs || e == Arrival(CCS)
  {
    HappenKeeps(s, e);
    if e.Arrival? {
      assert [e][0] == e;
      RecordFlags(s.reader.inbox, e.record, s.history);
    }
  }

  /** While reading goes on, the flag is up exactly when it was, or a ChangeCipherSpec arrived. */
  lemma {:induction false} FlaggedExactly(s: State, es: seq<Event>)
    requires Inv(s) && EventsOk(es, s.history) && s.reader.inbox.nullCipher && !After(s, es).reader.failed
    ensures After(s, es).reader.inbox.hasCcs <==> s.reader.inbox.hasCcs || Arrival(CCS) in es
    decreases |es|
  {
    if es != [] {
      SplitEvents(es, s.history);
      HappenKeeps(s, es[0]);
      AfterKeeps(Happen(s, es[0]), es[1..]);
      EventFlags(s, es[0]);
      FlaggedExactly(Happen(s, es[0]), es[1..]);
      assert es == [es[0]] + es[1..];
    }
  }

  /** Once every record of a flight with a ChangeCipherSpec has arrived, and none was refused, the flag is up. */
  lemma FlightRaisesFlag(s: State, ms: seq<Outgoing>, rs: seq<Record>, es: seq<Event>)
    requires Inv(s) && Arrives(s, ms, rs, es) && HasCcs(ms) && s.reader.inbox.nullCipher && !After(s, es).reader.failed
    ensures After(s, es).reader.inbox.hasCcs
  {
    CcsGoesOut(ms, Cursor(0, 0), rs);
    assert Arrival(CCS) in es;
    FlaggedExactly(s, es);
  }

  /** The invariant of FlaggedInRun. */
  ghost predicate Flagged(s: State, steps: seq<Step>) {
    Inv(s) && s.reader.inbox.nullCipher && (!s.reader.failed ==> (s.reader.inbox.hasCcs <==> Arrive(CCS) in steps))
  }

  lemma FlaggedOneMore(s: State, steps: seq<Step>, step: Step)
    requires Flagged(s, steps) && Enabled(s, step)
    ensures Flagged(Next(s, step), steps + [step])
  {
    StepKeeps(s, step);
    if step.Arrive? {
      RecordFlags(s.reader.inbox, step.record, s.history);
    }
  }

  lemma OneStep(states: seq<State>, steps: seq<Step>, n: nat) returns (s: State, step: Step)
    requires IsRun(states, steps) && n < |steps|
    ensures s == states[n] && step == steps[n] && WindowOk(s.reader.inbox) && Enabled(s, step)
    ensures states[n + 1] == Next(s, step) && steps[..n + 1] == steps[..n] + [step]
  {
    s, step := states[n], steps[n];
  }

  /** In every run that begins under the null cipher with the flag down, as long as reading goes on, the flag is up
      exactly when a ChangeCipherSpec arrived. */
  lemma {:induction false} FlaggedInRun(states: seq<State>, steps: seq<Step>, n: nat)
    requires IsRun(states, steps) && n < |states|
    requires states[0].reader.inbox.nullCipher && !states[0].reader.inbox.hasCcs
    ensures Flagged(states[n], steps[..n])
    ensures !states[n].reader.failed ==> (states[n].reader.inbox.hasCcs <==> Arrive(CCS) in steps[..n])
    decreases n
  {
    if n > 0 {
      FlaggedInRun(states, steps, n - 1);
      var s, step := OneStep(states, steps, n - 1);
      FlaggedOneMore(s, steps[..n - 1], step);
    }
  }

  /** So a run of a waiting sender can always go on to a state in which everything was taken and, if the flight has a
      ChangeCipherSpec, the flag is up. */
  lemma CanFinishFlagged(states: seq<State>, steps: seq<Step>, link: Link) returns (more: seq<State>, all: seq<Step>)
    requires IsPoliteRun(states, steps) && LinkOk(link) && link.mtu >= HEADER_LENGTH + 1 + link.overhead
    requires !states[0].reader.inbox.hasCcs && HasCcs(states[|steps|].outbox.messages)
    ensures GoesOn(states, steps, more, all)
    ensures |more[|all|].delivered| == |states[|steps|].history| && more[|all|].reader.inbox.hasCcs
  {
    more, all := CanFinish(states, steps, link);
    PoliteRunReads(more, all, |all|);
    FlaggedInRun(more, all, |all|);
    assert all[..|all|] == all && more[0] == states[0];
  }
}

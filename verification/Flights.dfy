/** What the packets of a flight carry: per message, fragments that join up to exactly its body. */
module Flights {
  import opened Words
  import opened Handshake
  import opened Receiver
  import opened Sender

  /** The bodies of the fragments with a sequence number, one after the other. */
  function Gathered(rs: seq<Record>, seqNum: nat): (s: seq<byte>)
    decreases |rs|
  {
    if rs == [] then [] else Carried(rs[0], seqNum) + Gathered(rs[1..], seqNum)
  }

  function Carried(r: Record, seqNum: nat): (s: seq<byte>) {
    if !r.typ.HandshakeRecord? then []
    else
      match ParseFragment(r.payload)
      case Err => []
      case Ok(f, _) => if f.seqNum == seqNum then f.body else []
  }

  function CcsCount(rs: seq<Record>): (n: nat)
    decreases |rs|
  {
    if rs == [] then 0 else (if rs[0].typ.ChangeCipherSpec? then 1 else 0) + CcsCount(rs[1..])
  }

  /** The number of ChangeCipherSpecs among the first n messages. */
  function CcsBefore(ms: seq<Outgoing>, n: nat): (c: nat)
    requires n <= |ms|
  {
    if n == 0 then 0 else CcsBefore(ms, n - 1) + if ms[n - 1].isCcs then 1 else 0
  }

  ghost predicate Distinct(ms: seq<Outgoing>)
    requires FlightOk(ms)
  {
    forall i, j | 0 <= i < j < |ms| && !ms[i].isCcs && !ms[j].isCcs :: Parsed(ms[i]).seqNum != Parsed(ms[j]).seqNum
  }

  /** The part of message i before a cursor. */
  function Before(ms: seq<Outgoing>, i: nat, c: Cursor): (s: seq<byte>)
    requires FlightOk(ms) && CursorOk(ms, c) && i < |ms| && !ms[i].isCcs
  {
    var body := Parsed(ms[i]).body;
    if i < c.written then body else if i == c.written then body[..c.offset] else []
  }

  lemma FragmentCarries(r: Record, f: Fragment, offset: nat, n: nat, seqNum: nat)
    requires Fits(f) && offset + n <= |f.body| && r == FragmentRecord(f, offset, n)
    ensures Carried(r, seqNum) == if f.seqNum == seqNum then f.body[offset..offset + n] else []
  {
    var part := f.(off := offset, body := f.body[offset..offset + n]);
    ParseInvertsSerialize(part, []);
    assert Serialize(part) + [] == r.payload;
  }

  /** A handshake record that continues the flight is the fragment at the cursor. */
  lemma FollowsFragment(ms: seq<Outgoing>, c: Cursor, r: Record) returns (f: Fragment, n: nat)
    requires FlightOk(ms) && Follow(ms, c, r).Some? && !ms[c.written].isCcs
    ensures f == Parsed(ms[c.written]) && n == |r.payload| - HEADER_LENGTH
    ensures c.offset + n <= |f.body| && r == FragmentRecord(f, c.offset, n)
  {
    f, n := Parsed(ms[c.written]), |r.payload| - HEADER_LENGTH;
  }

  lemma FollowKeepsCursor(ms: seq<Outgoing>, c: Cursor, r: Record)
    requires FlightOk(ms) && CursorOk(ms, c) && Follow(ms, c, r).Some?
    ensures CursorOk(ms, Follow(ms, c, r).value)
  {
  }

  lemma FollowCarries(ms: seq<Outgoing>, c: Cursor, r: Record, i: nat)
    requires FlightOk(ms) && CursorOk(ms, c) && Distinct(ms) && i < |ms| && !ms[i].isCcs
    requires Follow(ms, c, r).Some? && CursorOk(ms, Follow(ms, c, r).value)
    ensures Before(ms, i, c) + Carried(r, Parsed(ms[i]).seqNum) == Before(ms, i, Follow(ms, c, r).value)
  {
    if i == c.written {
      FollowCarriesOwn(ms, c, r);
    } else {
      FollowCarriesNone(ms, c, r, i);
      FollowLeaves(ms, c, r, i);
    }
  }

  lemma FollowCarriesNone(ms: seq<Outgoing>, c: Cursor, r: Record, i: nat)
    requires FlightOk(ms) && Distinct(ms) && i < |ms| && !ms[i].isCcs && i != c.written && Follow(ms, c, r).Some?
    ensures Carried(r, Parsed(ms[i]).seqNum) == []
  {
    if !ms[c.written].isCcs {
      DistinctAt(ms, i, c.written);
      var f, n := FollowsFragment(ms, c, r);
      FragmentCarries(r, f, c.offset, n, Parsed(ms[i]).seqNum);
    }
  }

  lemma DistinctAt(ms: seq<Outgoing>, i: nat, j: nat)
    requires FlightOk(ms) && Distinct(ms) && i < |ms| && j < |ms| && i != j && !ms[i].isCcs && !ms[j].isCcs
    ensures Parsed(ms[i]).seqNum != Parsed(ms[j]).seqNum
  {
  }

  lemma FollowLeaves(ms: seq<Outgoing>, c: Cursor, r: Record, i: nat)
    requires FlightOk(ms) && CursorOk(ms, c) && i < |ms| && !ms[i].isCcs && i != c.written
    requires Follow(ms, c, r).Some? && CursorOk(ms, Follow(ms, c, r).value)
    ensures Before(ms, i, c) == Before(ms, i, Follow(ms, c, r).value)
  {
    FollowCountsCcs(ms, c, r);
  }

  lemma FollowCarriesOwn(ms: seq<Outgoing>, c: Cursor, r: Record)
    requires FlightOk(ms) && CursorOk(ms, c) && c.written < |ms| && !ms[c.written].isCcs
    requires Follow(ms, c, r).Some? && CursorOk(ms, Follow(ms, c, r).value)
    ensures Before(ms, c.written, c) + Carried(r, Parsed(ms[c.written]).seqNum)
         == Before(ms, c.written, Follow(ms, c, r).value)
  {
    var f, n := Parsed(ms[c.written]), |r.payload| - HEADER_LENGTH;
    OwnBefore(ms, c, r);
    calc {
      Before(ms, c.written, c) + Carried(r, f.seqNum);
      { OwnCarried(ms, c, r); }
      f.body[..c.offset] + f.body[c.offset..c.offset + n];
      { Extend(f.body, c.offset, n); }
      f.body[..c.offset + n];
      Before(ms, c.written, Follow(ms, c, r).value);
    }
  }

  lemma OwnCarried(ms: seq<Outgoing>, c: Cursor, r: Record)
    requires FlightOk(ms) && c.written < |ms| && !ms[c.written].isCcs && Follow(ms, c, r).Some?
    ensures var f, n := Parsed(ms[c.written]), |r.payload| - HEADER_LENGTH;
            n >= 0 && c.offset + n <= |f.body| && Carried(r, f.seqNum) == f.body[c.offset..c.offset + n]
  {
    var f, n := FollowsFragment(ms, c, r);
    FragmentCarries(r, f, c.offset, n, f.seqNum);
  }

  lemma OwnBefore(ms: seq<Outgoing>, c: Cursor, r: Record)
    requires FlightOk(ms) && CursorOk(ms, c) && c.written < |ms| && !ms[c.written].isCcs
    requires Follow(ms, c, r).Some? && CursorOk(ms, Follow(ms, c, r).value)
    ensures var body, n := Parsed(ms[c.written]).body, |r.payload| - HEADER_LENGTH;
            && n >= 0 && c.offset + n <= |body|
            && Before(ms, c.written, c) == body[..c.offset]
            && Before(ms, c.written, Follow(ms, c, r).value) == body[..c.offset + n]
  {
  }

  lemma Extend(s: seq<byte>, i: nat, n: nat)
    requires i + n <= |s|
    ensures s[..i] + s[i..i + n] == s[..i + n]
    ensures i + n == |s| ==> s[..i + n] == s
  {
  }

  /** Records that take the cursor from one place to another carry exactly the bytes in between, of every message. */
  lemma {:induction false} RecordsCarry(ms: seq<Outgoing>, c: Cursor, rs: seq<Record>, c': Cursor, i: nat)
    requires FlightOk(ms) && CursorOk(ms, c) && Distinct(ms) && i < |ms| && !ms[i].isCcs
    requires FollowAll(ms, c, rs) == Some(c')
    ensures CursorOk(ms, c')
    ensures Before(ms, i, c) + Gathered(rs, Parsed(ms[i]).seqNum) == Before(ms, i, c')
    decreases |rs|
  {
    if rs != [] {
      var next := Follow(ms, c, rs[0]).value;
      FollowKeepsCursor(ms, c, rs[0]);
      FollowCarries(ms, c, rs[0], i);
      RecordsCarry(ms, next, rs[1..], c', i);
      var seqNum := Parsed(ms[i]).seqNum;
      calc {
        Before(ms, i, c) + Gathered(rs, seqNum);
        Before(ms, i, c) + (Carried(rs[0], seqNum) + Gathered(rs[1..], seqNum));
        { Associate(Before(ms, i, c), Carried(rs[0], seqNum), Gathered(rs[1..], seqNum)); }
        Before(ms, i, next) + Gathered(rs[1..], seqNum);
        Before(ms, i, c');
      }
    }
  }

  lemma Associate(a: seq<byte>, b: seq<byte>, c: seq<byte>)
    ensures a + (b + c) == a + b + c
  {
  }

  lemma FollowCountsCcs(ms: seq<Outgoing>, c: Cursor, r: Record)
    requires FlightOk(ms) && Follow(ms, c, r).Some?
    ensures c.written < |ms| && (r.typ.ChangeCipherSpec? <==> ms[c.written].isCcs)
    ensures var next := Follow(ms, c, r).value.written;
      next == c.written + 1 || (next == c.written && !ms[c.written].isCcs)
  {
  }

  lemma OneMoreCcs(ms: seq<Outgoing>, n: nat)
    requires n < |ms|
    ensures CcsBefore(ms, n + 1) == CcsBefore(ms, n) + if ms[n].isCcs then 1 else 0
  {
  }

  lemma RecordCountsCcs(ms: seq<Outgoing>, c: Cursor, r: Record)
    requires FlightOk(ms) && CursorOk(ms, c) && Follow(ms, c, r).Some?
    ensures var next := Follow(ms, c, r).value;
            && CursorOk(ms, next)
            && CcsBefore(ms, c.written) + (if r.typ.ChangeCipherSpec? then 1 else 0) == CcsBefore(ms, next.written)
  {
    FollowKeepsCursor(ms, c, r);
    FollowCountsCcs(ms, c, r);
    OneMoreCcs(ms, c.written);
  }

  lemma {:induction false} RecordsCountCcs(ms: seq<Outgoing>, c: Cursor, rs: seq<Record>, c': Cursor)
    requires FlightOk(ms) && CursorOk(ms, c) && FollowAll(ms, c, rs) == Some(c')
    ensures CursorOk(ms, c')
    ensures CcsBefore(ms, c.written) + CcsCount(rs) == CcsBefore(ms, c'.written)
    decreases |rs|
  {
    if rs != [] {
      RecordCountsCcs(ms, c, rs[0]);
      RecordsCountCcs(ms, Follow(ms, c, rs[0]).value, rs[1..], c');
    }
  }

  // ----- Flights with failed writes -----

  /** Calls of send_flight, each over its own link and going on where the last one stopped. */
  function Tries(o: Outbox, ls: seq<Link>, bio: nat -> bool, k: nat): (ts: seq<Sent>)
    ensures |ts| == |ls|
    decreases |ls|
  {
    if ls == [] then []
    else
      var s := Send(o, ls[0], bio, k);
      [s] + Tries(s.o, ls[1..], bio, s.attempts)
  }

  /** The outbox after the last call. */
  function Final(o: Outbox, ts: seq<Sent>): (o': Outbox) {
    if ts == [] then o else ts[|ts| - 1].o
  }

  /** The records of all calls, in the order in which they were written. */
  function AllRecords(ts: seq<Sent>): (rs: seq<Record>)
    decreases |ts|
  {
    if ts == [] then [] else Records(ts[0].packets) + AllRecords(ts[1..])
  }

  lemma {:induction false} TriesFollow(o: Outbox, ls: seq<Link>, bio: nat -> bool, k: nat)
    requires FlightOk(o.messages) && CursorOk(o.messages, o.At()) && forall l | l in ls :: LinkOk(l)
    ensures var ts := Tries(o, ls, bio, k);
            var o' := Final(o, ts);
            && o' == o.(written := o'.written, offset := o'.offset) && CursorOk(o.messages, o'.At())
            && FollowAll(o.messages, o.At(), AllRecords(ts)) == Some(o'.At())
    ensures forall i, p | 0 <= i < |ls| && p in Tries(o, ls, bio, k)[i].packets :: WireLen(ls[i], p) <= ls[i].mtu
    decreases |ls|
  {
    if ls != [] {
      var s := Send(o, ls[0], bio, k);
      assert ls[0] in ls && forall l | l in ls[1..] :: l in ls;
      SendFollows(o, ls[0], bio, k);
      TriesFollow(s.o, ls[1..], bio, s.attempts);
      var ts := Tries(s.o, ls[1..], bio, s.attempts);
      assert ([s] + ts)[1..] == ts && Final(o, [s] + ts) == Final(s.o, ts);
      JoinFollows(o.messages, o.At(), Records(s.packets), s.o.At(), AllRecords(ts), Final(s.o, ts).At());
    }
  }

  lemma JoinFollows(ms: seq<Outgoing>, c: Cursor, rs: seq<Record>, c': Cursor, ts: seq<Record>, c'': Cursor)
    requires FlightOk(ms) && FollowAll(ms, c, rs) == Some(c') && FollowAll(ms, c', ts) == Some(c'')
    ensures FollowAll(ms, c, rs + ts) == Some(c'')
  {
    FollowAllAppend(ms, c, rs, ts);
  }

  // ----- Offsets -----

  /** The fragments with the sequence number start at the given offset and each where the last one ended. */
  predicate Consecutive(rs: seq<Record>, seqNum: nat, at: nat)
    decreases |rs|
  {
    rs == [] || (StartsAt(rs[0], seqNum, at) && Consecutive(rs[1..], seqNum, at + |Carried(rs[0], seqNum)|))
  }

  predicate StartsAt(r: Record, seqNum: nat, at: nat) {
    r.typ.HandshakeRecord? && ParseFragment(r.payload).Ok? && ParseFragment(r.payload).value.seqNum == seqNum ==>
      ParseFragment(r.payload).value.off == at
  }

  lemma FollowStartsAt(ms: seq<Outgoing>, c: Cursor, r: Record, i: nat)
    requires FlightOk(ms) && CursorOk(ms, c) && Distinct(ms) && i < |ms| && !ms[i].isCcs && Follow(ms, c, r).Some?
    ensures StartsAt(r, Parsed(ms[i]).seqNum, |Before(ms, i, c)|)
  {
    if !ms[c.written].isCcs {
      var f, n := Parsed(ms[c.written]), |r.payload| - HEADER_LENGTH;
      var part := f.(off := c.offset, body := f.body[c.offset..c.offset + n]);
      ParseInvertsSerialize(part, []);
      assert Serialize(part) + [] == Serialize(part);
      if i != c.written {
        DistinctAt(ms, i, c.written);
      }
    }
  }

  lemma RecordConsecutive(ms: seq<Outgoing>, c: Cursor, r: Record, i: nat)
    requires FlightOk(ms) && CursorOk(ms, c) && Distinct(ms) && i < |ms| && !ms[i].isCcs && Follow(ms, c, r).Some?
    ensures CursorOk(ms, Follow(ms, c, r).value)
    ensures StartsAt(r, Parsed(ms[i]).seqNum, |Before(ms, i, c)|)
    ensures |Before(ms, i, c)| + |Carried(r, Parsed(ms[i]).seqNum)| == |Before(ms, i, Follow(ms, c, r).value)|
  {
    FollowKeepsCursor(ms, c, r);
    FollowStartsAt(ms, c, r, i);
    FollowCarries(ms, c, r, i);
  }

  lemma {:induction false} RecordsConsecutive(ms: seq<Outgoing>, c: Cursor, rs: seq<Record>, i: nat)
    requires FlightOk(ms) && CursorOk(ms, c) && Distinct(ms) && i < |ms| && !ms[i].isCcs && FollowAll(ms, c, rs).Some?
    ensures Consecutive(rs, Parsed(ms[i]).seqNum, |Before(ms, i, c)|)
    decreases |rs|
  {
    if rs != [] {
      RecordConsecutive(ms, c, rs[0], i);
      RecordsConsecutive(ms, Follow(ms, c, rs[0]).value, rs[1..], i);
    }
  }

  /** However many writes fail and however the MTU changes on the way, once the cursor is past the last message
      the packets written since the flight began carry every message exactly once: its fragments start at offset
      0, each where the last one ended, and join up to its body; each ChangeCipherSpec is there once; and no
      packet is larger than the MTU it was sent under. */
  lemma FlightTiling(o: Outbox, ls: seq<Link>, bio: nat -> bool, k: nat)
    requires FlightOk(o.messages) && Distinct(o.messages) && o.At() == Cursor(0, 0) && forall l | l in ls :: LinkOk(l)
    requires Final(o, Tries(o, ls, bio, k)).written == |o.messages|
    ensures var rs := AllRecords(Tries(o, ls, bio, k));
            && (forall i | 0 <= i < |o.messages| && !o.messages[i].isCcs ::
                  var f := Parsed(o.messages[i]);
                  Gathered(rs, f.seqNum) == f.body && Consecutive(rs, f.seqNum, 0))
            && CcsCount(rs) == CcsBefore(o.messages, |o.messages|)
    ensures forall i, p | 0 <= i < |ls| && p in Tries(o, ls, bio, k)[i].packets :: WireLen(ls[i], p) <= ls[i].mtu
  {
    var ms, ts := o.messages, Tries(o, ls, bio, k);
    var rs, end := AllRecords(ts), Final(o, ts).At();
    TriesFollow(o, ls, bio, k);
    RecordsCountCcs(ms, o.At(), rs, end);
    forall i | 0 <= i < |ms| && !ms[i].isCcs
      ensures Gathered(rs, Parsed(ms[i]).seqNum) == Parsed(ms[i]).body && Consecutive(rs, Parsed(ms[i]).seqNum, 0)
    {
      RecordsCarry(ms, o.At(), rs, end, i);
      RecordsConsecutive(ms, o.At(), rs, i);
    }
  }
}

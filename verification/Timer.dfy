/** The DTLS retransmission timer (section 4.2.4 of RFC 6347). */
module Timer {
  import opened Words

  /** A point in time, or a span of it: OPENSSL_timeval. */
  datatype Time = Time(sec: nat, usec: nat)
  {
    predicate Normal() { usec < 1_000_000 }

    function Micros(): (n: nat) { sec * 1_000_000 + usec }
  }

  /** The timer's fields of DTLS1_STATE. A deadline of zero means that it is not running. */
  datatype Timer = Timer(initial: nat, duration: nat, deadline: Time, timeouts: nat, mtu: nat)
  {
    predicate Running() { deadline != Time(0, 0) }
  }

  const MTU_TIMEOUTS := 2
  const MAX_TIMEOUTS := 12
  const MIN_MTU := 228
  const LONGEST := 60000
  const INT_MAX := 0x7FFF_FFFF

  /** dtls1_start_timer */
  function Start(t: Timer, now: Time): (t': Timer) {
    var d := if t.Running() then t.duration else t.initial;
    var usec := now.usec + d % 1000 * 1000;
    t.(duration := d,
       deadline := if usec >= 1_000_000 then Time(now.sec + d / 1000 + 1, usec - 1_000_000)
                   else Time(now.sec + d / 1000, usec))
  }

  /** dtls1_double_timeout, in 32 bits. */
  function Double(t: Timer): (t': Timer) {
    var d := t.duration * 2 % TWO_32;
    t.(duration := if d > LONGEST then LONGEST else d)
  }

  /** dtls1_stop_timer */
  function Stop(t: Timer): (t': Timer) {
    t.(timeouts := 0, deadline := Time(0, 0), duration := t.initial)
  }

  /** dtls1_check_timeout_num. reply is what the transport offers as its fallback MTU, if it may be asked. */
  function CheckNum(t: Timer, reply: Option<int>): (r: (Timer, bool)) {
    var n := (t.timeouts + 1) % TWO_32;
    var mtu := if n > MTU_TIMEOUTS && reply.Some? && MIN_MTU <= reply.value <= 0x4000_0000 then reply.value else t.mtu;
    (t.(timeouts := n, mtu := mtu), n <= MAX_TIMEOUTS)
  }

  /** DTLSv1_get_timeout: none if the timer is not running. */
  function Remaining(t: Timer, now: Time): (r: Option<Time>)
    requires t.deadline.Normal() && now.Normal()
  {
    var d := t.deadline;
    if !t.Running() then None
    else if d.sec < now.sec || (d.sec == now.sec && d.usec <= now.usec) then Some(Time(0, 0))
    else
      var left := if d.usec >= now.usec then Time(d.sec - now.sec, d.usec - now.usec)
                  else Time(d.sec - now.sec - 1, 1_000_000 + d.usec - now.usec);
      if left.sec == 0 && left.usec < 15000 then Some(Time(0, 0))
      else if left.sec > INT_MAX then Some(Time(INT_MAX, left.usec))
      else Some(left)
  }

  /** dtls1_is_timer_expired */
  predicate Expired(t: Timer, now: Time)
    requires t.deadline.Normal() && now.Normal()
  {
    Remaining(t, now) == Some(Time(0, 0))
  }

  datatype Outcome = NotExpired | GiveUp | Resend

  /** DTLSv1_handle_timeout, up to the retransmission. The clock is read again when the timer is restarted. */
  function Handle(t: Timer, now: Time, later: Time, reply: Option<int>): (r: (Timer, Outcome))
    requires t.deadline.Normal() && now.Normal()
  {
    if !Expired(t, now) then (t, NotExpired)
    else
      var (c, ok) := CheckNum(t, reply);
      if !ok then (c, GiveUp) else (Start(Double(c), later), Resend)
  }

  // ----- The deadline -----

  /** The deadline is the current time and the duration, and is normalized. The timer then runs, except in the
      first instant of the clock with no duration. */
  lemma DeadlineIsNowPlusDuration(t: Timer, now: Time)
    requires now.Normal()
    ensures var t' := Start(t, now);
            && t'.deadline.Normal() && t'.deadline.Micros() == now.Micros() + 1000 * t'.duration
            && (t'.Running() <==> now.Micros() > 0 || t'.duration > 0)
  {
    var t' := Start(t, now);
    var d := t'.duration;
    DivMod(d, 1000);
    assert d == 1000 * (d / 1000) + d % 1000;
  }

  /** A timer that is not running starts with its initial duration, a running one keeps its own. A stopped one is not
      running, has forgotten its timeouts, and starts afresh. */
  lemma StartAndStop(t: Timer, now: Time)
    ensures Start(t, now).duration == if t.Running() then t.duration else t.initial
    ensures !Stop(t).Running() && Stop(t).timeouts == 0 && Start(Stop(t), now).duration == t.initial
    ensures now.Normal() ==> Remaining(Stop(t), now) == None && !Expired(Stop(t), now)
    ensures Start(t, now) == t.(duration := Start(t, now).duration, deadline := Start(t, now).deadline)
    ensures Stop(t).mtu == t.mtu && Stop(t).initial == t.initial
  {
  }

  /** The remaining time is the difference to the deadline: nothing once it has passed or is less than 15 ms
      away, and in seconds at most what an int holds. */
  lemma RemainingIsDifference(t: Timer, now: Time)
    requires t.deadline.Normal() && now.Normal()
    ensures t.Running() <==> Remaining(t, now).Some?
    ensures t.Running() ==>
      var left, r := t.deadline.Micros() - now.Micros(), Remaining(t, now).value;
      && r.Normal()
      && (if left < 15000 then r == Time(0, 0)
          else if left < (INT_MAX + 1) * 1_000_000 then r.Micros() == left
          else r.sec == INT_MAX)
  {
  }

  /** So the timer expires at the deadline, or up to 15 ms early. */
  lemma ExpiresAtDeadline(t: Timer, now: Time)
    requires t.deadline.Normal() && now.Normal()
    ensures Expired(t, now) <==> t.Running() && now.Micros() > t.deadline.Micros() - 15000
  {
    RemainingIsDifference(t, now);
    if Remaining(t, now).Some? {
      var left := t.deadline.Micros() - now.Micros();
      if left >= 15000 {
        assert Remaining(t, now).value.Micros() > 0;
      }
    }
  }

  // ----- Runs -----

  /** Between two stops of the timer: a flight is sent, or the application calls in. */
  datatype Event =
    | Flush(at: Time)
    | Call(now: Time, later: Time, reply: Option<int>)
  {
    predicate Ok() {
      match this
      case Flush(at) => at.Normal()
      case Call(now, later, _) => now.Normal() && later.Normal()
    }
  }

  /** The timer, and how often it has expired and how often the flight was sent again. */
  datatype Log = Log(t: Timer, expiries: nat, resends: nat)

  function Happen(s: Log, e: Event): (s': Log)
    requires e.Ok() && s.t.deadline.Normal()
    ensures s'.t.deadline.Normal()
  {
    match e
    case Flush(at) => DeadlineIsNowPlusDuration(s.t, at); s.(t := Start(s.t, at))
    case Call(now, later, reply) =>
      var (t, o) := Handle(s.t, now, later, reply);
      DeadlineIsNowPlusDuration(Double(CheckNum(s.t, reply).0), later);
      Log(t, if o.NotExpired? then s.expiries else s.expiries + 1, if o.Resend? then s.resends + 1 else s.resends)
  }

  function Run(s: Log, es: seq<Event>): (s': Log)
    requires s.t.deadline.Normal() && forall e | e in es :: e.Ok()
    ensures s'.t.deadline.Normal()
    decreases |es|
  {
    if es == [] then s else Happen(Run(s, es[..|es| - 1]), es[|es| - 1])
  }

  function Min(a: int, b: int): (m: int) {
    if a <= b then a else b
  }

  /** The back-off: doubled with each retransmission, up to a minute. */
  function Backoff(initial: nat, resends: nat): (d: int) {
    Min(initial * Pow2(resends), LONGEST)
  }

  lemma BackoffDoubles(initial: nat, resends: nat)
    ensures Min(2 * Backoff(initial, resends), LONGEST) == Backoff(initial, resends + 1)
    ensures 0 <= Backoff(initial, resends)
    ensures Backoff(initial, resends) == 0 <==> initial == 0
  {
    var p := initial * Pow2(resends);
    PowPositive(resends);
    MulMono(1, Pow2(resends), initial);
    calc {
      initial * Pow2(resends + 1);
      initial * (2 * Pow2(resends));
      2 * p;
    }
  }

  lemma {:induction false} PowPositive(n: nat)
    ensures Pow2(n) >= 1
  {
    if n > 0 {
      PowPositive(n - 1);
    }
  }

  /** What holds between two stops. */
  ghost predicate Inv(s: Log, t0: Timer) {
    && s.t.initial == t0.initial
    && CountOk(s.t.timeouts, s.expiries, s.resends)
    && DurationOk(t0.initial, s.t.duration, s.resends)
    // Only then is the timer started from its initial duration again.
    && (!s.t.Running() ==> s.expiries == 0 || t0.initial == 0 || t0.initial > LONGEST)
    && (s.expiries <= MTU_TIMEOUTS ==> s.t.mtu == t0.mtu)
    && (t0.mtu >= MIN_MTU ==> s.t.mtu >= MIN_MTU)
  }

  ghost predicate CountOk(timeouts: nat, expiries: nat, resends: nat) {
    timeouts == expiries % TWO_32 && (expiries < TWO_32 ==> resends == Min(expiries, MAX_TIMEOUTS))
  }

  ghost predicate DurationOk(initial: nat, duration: nat, resends: nat) {
    initial <= LONGEST ==> duration == Backoff(initial, resends)
  }

  lemma InitialDuration(initial: nat, resends: nat)
    requires resends == 0 || initial == 0
    ensures DurationOk(initial, initial, resends)
  {
    BackoffDoubles(initial, resends);
    assert Pow2(0) == 1;
  }

  lemma FlushKeeps(s: Log, t0: Timer, at: Time)
    requires Inv(s, t0) && at.Normal()
    ensures Inv(s.(t := Start(s.t, at)), t0)
  {
    if s.t.Running() {
      RestartedDuration(s.t, at);
      BackoffDoubles(t0.initial, s.resends);
    } else {
      DeadlineIsNowPlusDuration(s.t, at);
      if t0.initial <= LONGEST {
        assert s.expiries == 0 ==> s.resends == 0;
        InitialDuration(t0.initial, s.resends);
      }
    }
  }

  lemma CountsOn(timeouts: nat, expiries: nat, resends: nat)
    requires CountOk(timeouts, expiries, resends)
    ensures var n := (timeouts + 1) % TWO_32;
            CountOk(n, expiries + 1, if n <= MAX_TIMEOUTS then resends + 1 else resends)
    ensures expiries < MTU_TIMEOUTS ==> (timeouts + 1) % TWO_32 == expiries + 1
  {
  }

  lemma DoubleIsBackoff(t: Timer, initial: nat, resends: nat)
    requires DurationOk(initial, t.duration, resends)
    ensures DurationOk(initial, Double(t).duration, resends + 1)
    ensures 0 < initial <= LONGEST ==> Double(t).duration > 0
  {
    if initial <= LONGEST {
      BackoffDoubles(initial, resends);
      BackoffDoubles(initial, resends + 1);
      assert t.duration * 2 % TWO_32 == t.duration * 2;
    }
  }

  lemma GiveUpKeeps(s: Log, t0: Timer, reply: Option<int>)
    requires Inv(s, t0) && s.t.Running() && !CheckNum(s.t, reply).1
    ensures Inv(Log(CheckNum(s.t, reply).0, s.expiries + 1, s.resends), t0)
  {
    CountsOn(s.t.timeouts, s.expiries, s.resends);
  }

  lemma RestartedDuration(t: Timer, later: Time)
    requires t.Running() && later.Normal()
    ensures Start(t, later) == t.(deadline := Start(t, later).deadline)
    ensures t.duration > 0 ==> Start(t, later).Running()
  {
    DeadlineIsNowPlusDuration(t, later);
  }

  lemma ResendKeeps(s: Log, t0: Timer, later: Time, reply: Option<int>)
    requires Inv(s, t0) && s.t.Running() && CheckNum(s.t, reply).1 && later.Normal()
    ensures Inv(Log(Start(Double(CheckNum(s.t, reply).0), later), s.expiries + 1, s.resends + 1), t0)
  {
    var c := CheckNum(s.t, reply).0;
    CountsOn(s.t.timeouts, s.expiries, s.resends);
    DoubleIsBackoff(c, t0.initial, s.resends);
    RestartedDuration(Double(c), later);
  }

  lemma CallKeeps(s: Log, t0: Timer, e: Event)
    requires Inv(s, t0) && s.t.deadline.Normal() && e.Ok() && e.Call?
    ensures Inv(Happen(s, e), t0)
  {
    if Expired(s.t, e.now) {
      if CheckNum(s.t, e.reply).1 {
        ResendKeeps(s, t0, e.later, e.reply);
      } else {
        GiveUpKeeps(s, t0, e.reply);
      }
    }
  }

  lemma {:induction false} RunKeeps(t0: Timer, es: seq<Event>)
    requires forall e | e in es :: e.Ok()
    ensures Inv(Run(Log(Stop(t0), 0, 0), es), t0)
    decreases |es|
  {
    if es == [] {
      assert Pow2(0) == 1;
    } else {
      var before, e := Run(Log(Stop(t0), 0, 0), es[..|es| - 1]), es[|es| - 1];
      RunKeeps(t0, es[..|es| - 1]);
      assert e in es;
      match e
      case Flush(at) => FlushKeeps(before, t0, at);
      case Call(_, _, _) => CallKeeps(before, t0, e);
    }
  }

  /** Since the timer was last stopped the flight is sent again at most 12 times, at the first 12 expiries and at
      no other (the 32-bit counter allowing), and only from the third expiry on may the MTU have changed. */
  lemma AtMostTwelve(t0: Timer, es: seq<Event>)
    requires forall e | e in es :: e.Ok()
    ensures var s := Run(Log(Stop(t0), 0, 0), es);
            && (s.expiries < TWO_32 ==> s.resends == Min(s.expiries, 12) <= 12)
            && (s.expiries <= 2 ==> s.t.mtu == t0.mtu)
            && (t0.mtu >= MIN_MTU ==> s.t.mtu >= MIN_MTU)
  {
    RunKeeps(t0, es);
  }

  /** The transport's fallback MTU, if it is acceptable: not below the minimum, and what a long may hold. */
  predicate Acceptable(reply: Option<int>) {
    reply.Some? && MIN_MTU <= reply.value <= 0x4000_0000
  }

  /** The event is an expiry, and the timer had expired at least twice before it. */
  predicate AsksForMtu(s: Log, e: Event)
    requires e.Ok() && s.t.deadline.Normal()
  {
    e.Call? && Expired(s.t, e.now) && s.expiries >= 2
  }

  lemma MtuStep(s: Log, e: Event)
    requires e.Ok() && s.t.deadline.Normal() && s.t.timeouts == s.expiries < TWO_32 - 1
    ensures Happen(s, e).t.mtu == if AsksForMtu(s, e) && Acceptable(e.reply) then e.reply.value else s.t.mtu
  {
    if e.Call? && Expired(s.t, e.now) {
      var c := CheckNum(s.t, e.reply).0;
      assert c.mtu == if s.expiries >= 2 && Acceptable(e.reply) then e.reply.value else s.t.mtu;
    }
  }

  /** The MTU becomes the transport's acceptable fallback at the third expiry since the timer was stopped and at every
      later one, and does not change otherwise (the 32-bit counter allowing). */
  lemma MtuFallsBackExactly(t0: Timer, es: seq<Event>, e: Event)
    requires e.Ok() && forall e' | e' in es :: e'.Ok()
    requires Run(Log(Stop(t0), 0, 0), es).expiries < TWO_32 - 1
    ensures var s := Run(Log(Stop(t0), 0, 0), es);
            Happen(s, e).t.mtu == if AsksForMtu(s, e) && Acceptable(e.reply) then e.reply.value else s.t.mtu
  {
    RunKeeps(t0, es);
    MtuStep(Run(Log(Stop(t0), 0, 0), es), e);
  }

  ghost predicate BacksOff(t0: Timer, es: seq<Event>) {
    (forall e | e in es :: e.Ok()) ==>
      var s := Run(Log(Stop(t0), 0, 0), es); s.t.duration == Backoff(t0.initial, s.resends)
  }

  /** The duration is min(initial * 2^k, 60000) after k retransmissions, in every run, exactly when the initial
      duration is at most a minute. */
  lemma BackoffExactly(t0: Timer)
    ensures t0.initial <= LONGEST <==> forall es: seq<Event> :: BacksOff(t0, es)
  {
    if t0.initial <= LONGEST {
      forall es: seq<Event>
        ensures BacksOff(t0, es)
      {
        if forall e | e in es :: e.Ok() {
          RunKeeps(t0, es);
        }
      }
    } else {
      var none: seq<Event> := [];
      assert Pow2(0) == 1;
      assert !BacksOff(t0, none);
    }
  }

  /** With a longer one the 32-bit doubling may even come to nothing. */
  lemma DoublingWraps(t: Timer)
    requires t.duration == 0x8000_0000
    ensures Double(t).duration == 0
  {
  }

  // ----- The timer as an object -----

  class RetransmitTimer {
    var initialDuration: nat
    var timeoutDuration: nat
    var nextTimeout: Time
    var numTimeouts: nat
    var mtu: nat

    ghost function View(): (t: Timer)
      reads this
    {
      Timer(initialDuration, timeoutDuration, nextTimeout, numTimeouts, mtu)
    }

    constructor (initial: nat, mtu: nat)
      ensures View() == Timer(initial, 0, Time(0, 0), 0, mtu)
    {
      initialDuration, timeoutDuration, numTimeouts := initial, 0, 0;
      nextTimeout := Time(0, 0);
      this.mtu := mtu;
    }

    method StartTimer(now: Time)
      modifies this
      ensures View() == Start(old(View()), now)
    {
      if nextTimeout.sec == 0 && nextTimeout.usec == 0 {
        timeoutDuration := initialDuration;
      }
      nextTimeout := now;
      nextTimeout := nextTimeout.(sec := nextTimeout.sec + timeoutDuration / 1000);
      nextTimeout := nextTimeout.(usec := nextTimeout.usec + timeoutDuration % 1000 * 1000);
      if nextTimeout.usec >= 1_000_000 {
        nextTimeout := Time(nextTimeout.sec + 1, nextTimeout.usec - 1_000_000);
      }
    }

    method DoubleTimeout()
      modifies this
      ensures View() == Double(old(View()))
    {
      timeoutDuration := timeoutDuration * 2 % TWO_32;
      if timeoutDuration > LONGEST {
        timeoutDuration := LONGEST;
      }
    }

    method StopTimer()
      modifies this
      ensures View() == Stop(old(View()))
    {
      numTimeouts := 0;
      nextTimeout := Time(0, 0);
      timeoutDuration := initialDuration;
    }

    method CheckTimeoutNum(reply: Option<int>) returns (ok: bool)
      modifies this
      ensures (View(), ok) == CheckNum(old(View()), reply)
    {
      numTimeouts := (numTimeouts + 1) % TWO_32;
      if numTimeouts > MTU_TIMEOUTS && reply.Some? {
        if 0 <= reply.value <= 0x4000_0000 && reply.value >= MIN_MTU {
          mtu := reply.value;
        }
      }
      return numTimeouts <= MAX_TIMEOUTS;
    }

    method GetTimeout(now: Time) returns (r: Option<Time>)
      requires nextTimeout.Normal() && now.Normal()
      ensures r == Remaining(View(), now)
    {
      if nextTimeout.sec == 0 && nextTimeout.usec == 0 {
        return None;
      }
      if nextTimeout.sec < now.sec || (nextTimeout.sec == now.sec && nextTimeout.usec <= now.usec) {
        return Some(Time(0, 0));
      }
      var sec: int, usec: int := nextTimeout.sec - now.sec, nextTimeout.usec;
      if usec >= now.usec {
        usec := usec - now.usec;
      } else {
        usec := 1_000_000 + usec - now.usec;
        sec := sec - 1;
      }
      if sec == 0 && usec < 15000 {
        sec, usec := 0, 0;
      }
      if sec > INT_MAX {
        return Some(Time(INT_MAX, usec));
      }
      return Some(Time(sec, usec));
    }

    method HandleTimeout(now: Time, later: Time, reply: Option<int>) returns (o: Outcome)
      requires nextTimeout.Normal() && now.Normal()
      modifies this
      ensures (View(), o) == Handle(old(View()), now, later, reply)
    {
      var left := GetTimeout(now);
      if left != Some(Time(0, 0)) {
        return NotExpired;
      }
      var ok := CheckTimeoutNum(reply);
      if !ok {
        return GiveUp;
      }
      DoubleTimeout();
      StartTimer(later);
      return Resend;
    }
  }
}

/** The timeout timer of NetConnection.cpp against a real-valued clock of which time(NULL) shows
    the whole seconds. */
module Timers {
  import opened SendModel

  /** A connection, when its session started, the time, when its timeout timer expires, and when
      it last received. */
  datatype Clocked = Clocked(c: Conn, started: real, time: real, due: real, received: real)

  /** start() at `time`: the first check is posted at once. */
  function StartAt(time: real): Clocked {
    Clocked(Started(time.Floor), time, time, time, time)
  }

  datatype TimedEvent =
    | Wait(until: real)   // nothing happens until then
    | Receive             // handleRecvData
    | Expire              // the timer expires: doTimeoutCheck
    | Other(e: Event)     // a step that touches neither the timer nor m_lastRecvTime

  /** Timer handlers run at expiry: time does not pass an armed timer. */
  predicate CanHappen(s: Clocked, e: TimedEvent) {
    match e
    case Wait(until) => s.time <= until && (s.c.connected ==> until <= s.due)
    case Receive => true
    case Expire => s.time == s.due
    case Other(e) => Enabled(s.c, e) && !e.ReadDone? && !e.TimeoutCheck?
  }

  function Elapse(s: Clocked, e: TimedEvent, interval: nat): Clocked
    requires CanHappen(s, e)
  {
    match e
    case Wait(until) => s.(time := until)
    case Receive => s.(c := Step(s.c, ReadDone(s.time.Floor)), received := s.time)
    case Expire =>
      var c := Step(s.c, TimeoutCheck(s.time.Floor, interval));
      s.(c := c, due := if s.time.Floor - s.c.lastRecv >= interval then s.due else s.time + interval as real)
    case Other(e) => s.(c := Step(s.c, e))
  }

  predicate CanRun(s: Clocked, es: seq<TimedEvent>, interval: nat)
    decreases |es|
  {
    es == [] || (CanHappen(s, es[0]) && CanRun(Elapse(s, es[0], interval), es[1..], interval))
  }

  function RunTimed(s: Clocked, es: seq<TimedEvent>, interval: nat): Clocked
    requires CanRun(s, es, interval)
    decreases |es|
  {
    if es == [] then s else RunTimed(Elapse(s, es[0], interval), es[1..], interval)
  }

  /** The fraction of a second that time(NULL) does not show. */
  function Frac(x: real): (f: real)
    ensures 0.0 <= f < 1.0 && x == x.Floor as real + f
  {
    x - x.Floor as real
  }

  /** While connected, the next check comes before two intervals have passed on the clock, a whole
      number of seconds after the start. */
  predicate TimerInv(s: Clocked, interval: nat) {
    && s.received <= s.time && s.c.lastRecv == s.received.Floor
    && (s.c.connected ==> s.time <= s.due && s.due.Floor - s.c.lastRecv < 2 * interval)
    && Frac(s.due) == Frac(s.started)
  }

  lemma FloorMonotonic(x: real, y: real, n: int)
    ensures x <= y ==> x.Floor <= y.Floor
    ensures (x + n as real).Floor == x.Floor + n && Frac(x + n as real) == Frac(x)
  {
  }

  lemma ElapseKeeps(s: Clocked, e: TimedEvent, interval: nat)
    requires interval > 0 && TimerInv(s, interval) && CanHappen(s, e)
    ensures TimerInv(Elapse(s, e, interval), interval) && Elapse(s, e, interval).started == s.started
  {
    hide Step, Frac;
    match e
    case Wait(until) =>
    case Receive => StepTimes(s.c, s.time.Floor, interval);
    case Expire =>
      StepTimes(s.c, s.time.Floor, interval);
      FloorMonotonic(s.time, s.time, interval);
    case Other(e) => OtherTimes(s.c, e);
  }

  lemma OtherTimes(c: Conn, e: Event)
    requires Enabled(c, e) && !e.ReadDone? && !e.TimeoutCheck?
    ensures Step(c, e).lastRecv == c.lastRecv && (Step(c, e).connected ==> c.connected)
  {
  }

  lemma StepTimes(c: Conn, now: int, interval: nat)
    ensures Step(c, ReadDone(now)) == c.(lastRecv := now)
    ensures var r := Step(c, TimeoutCheck(now, interval));
            r.lastRecv == c.lastRecv && (r.connected <==> c.connected && now - c.lastRecv < interval)
  {
  }

  lemma {:induction false} RunTimedKeeps(s: Clocked, es: seq<TimedEvent>, interval: nat)
    requires interval > 0 && TimerInv(s, interval) && CanRun(s, es, interval)
    ensures TimerInv(RunTimed(s, es, interval), interval) && RunTimed(s, es, interval).started == s.started
    decreases |es|
  {
    hide TimerInv, Elapse, CanHappen;
    if es != [] {
      ElapseKeeps(s, es[0], interval);
      RunTimedKeeps(Elapse(s, es[0], interval), es[1..], interval);
    }
  }

  /** In every reachable state: a connection that is still up has received something less than two
      intervals ago; and a check that ends it finds at least one interval passed on the clock of
      whole seconds, and fewer than two. */
  lemma TimeoutBound(start: real, es: seq<TimedEvent>, interval: nat)
    requires interval > 0 && CanRun(StartAt(start), es, interval)
    ensures var s := RunTimed(StartAt(start), es, interval);
            && (s.c.connected ==> s.time < s.received + 2.0 * interval as real)
            && (s.c.connected && CanHappen(s, Expire) && !Elapse(s, Expire, interval).c.connected ==>
                  && interval <= s.time.Floor - s.received.Floor < 2 * interval
                  && s.received + interval as real - 1.0 < s.time < s.received + 2.0 * interval as real)
  {
    hide Step, Elapse, CanHappen;
    var s := RunTimed(StartAt(start), es, interval);
    RunTimedKeeps(StartAt(start), es, interval);
    FloorMonotonic(s.time, s.due, 0);
    StepTimes(s.c, s.time.Floor, interval);
    if CanHappen(s, Expire) {
      ExpireIs(s, interval);
    }
    assert s.c.connected ==> s.time < s.received.Floor as real + (2 * interval) as real;
  }

  /** In every reachable state, a check that ends the session finds less than T seconds of silence
      by the exact clock if and only if the whole seconds differ by T and no more, and the last
      receipt came at a larger fraction of a second than the start of the session. A receipt at a
      fraction no larger than the start's is never cut short. */
  lemma EarlyExactly(start: real, es: seq<TimedEvent>, interval: nat)
    requires interval > 0 && CanRun(StartAt(start), es, interval)
    ensures var s := RunTimed(StartAt(start), es, interval);
            s.c.connected && CanHappen(s, Expire) && !Elapse(s, Expire, interval).c.connected ==>
              (s.time - s.received < interval as real <==>
                 s.time.Floor - s.received.Floor == interval && Frac(s.received) > Frac(start))
  {
    hide Step, Elapse, CanHappen, CanRun, RunTimed;
    RunTimedKeeps(StartAt(start), es, interval);
    var s := RunTimed(StartAt(start), es, interval);
    StepTimes(s.c, s.time.Floor, interval);
    if CanHappen(s, Expire) {
      ExpireIs(s, interval);
      var n := s.time.Floor - s.received.Floor;
      assert s.time - s.received == n as real + Frac(s.time) - Frac(s.received);
      assert n > interval ==> n as real >= interval as real + 1.0;
    }
  }

  lemma ExpireIs(s: Clocked, interval: nat)
    requires CanHappen(s, Expire)
    ensures s.time == s.due && Elapse(s, Expire, interval).c == Step(s.c, TimeoutCheck(s.time.Floor, interval))
  {
  }

  /** When nothing more arrives, at most two expiries close the connection. */
  lemma SilenceCloses(s: Clocked, interval: nat)
    requires interval > 0 && TimerInv(s, interval) && s.c.connected
    ensures var s1 := Elapse(s.(time := s.due), Expire, interval);
            s1.c.connected ==>
              && s1.due == s.due + interval as real
              && !Elapse(s1.(time := s1.due), Expire, interval).c.connected
  {
  }

  /** The whole-second clock can end a session up to a second early: with data received at 0.9
      seconds, an interval of T ends it at T, after T - 0.9 seconds of silence. */
  lemma EarlyByAFraction(interval: nat) returns (es: seq<TimedEvent>)
    requires interval > 0
    ensures CanRun(StartAt(0.0), es, interval)
    ensures var s := RunTimed(StartAt(0.0), es, interval);
            !s.c.connected && s.received == 0.9 && s.time == interval as real && s.time - s.received < interval as real
  {
    hide CanRun, RunTimed, Step;
    var s0 := StartAt(0.0);
    StepTimes(s0.c, 0, interval);
    var s1 := Elapse(s0, Expire, interval);
    var s2 := Elapse(s1, Wait(0.9), interval);
    StepTimes(s2.c, 0, interval);
    var s3 := Elapse(s2, Receive, interval);
    var s4 := Elapse(s3, Wait(interval as real), interval);
    StepTimes(s4.c, interval, interval);
    var s5 := Elapse(s4, Expire, interval);
    RunNothing(s5, interval);
    RunFirst(s4, Expire, [], interval);
    RunFirst(s3, Wait(interval as real), [Expire] + [], interval);
    RunFirst(s2, Receive, [Wait(interval as real)] + ([Expire] + []), interval);
    RunFirst(s1, Wait(0.9), [Receive] + ([Wait(interval as real)] + ([Expire] + [])), interval);
    RunFirst(s0, Expire, [Wait(0.9)] + ([Receive] + ([Wait(interval as real)] + ([Expire] + []))), interval);
    es := [Expire] + ([Wait(0.9)] + ([Receive] + ([Wait(interval as real)] + ([Expire] + []))));
  }

  lemma RunFirst(s: Clocked, e: TimedEvent, es: seq<TimedEvent>, interval: nat)
    requires CanHappen(s, e) && CanRun(Elapse(s, e, interval), es, interval)
    ensures CanRun(s, [e] + es, interval)
    ensures RunTimed(s, [e] + es, interval) == RunTimed(Elapse(s, e, interval), es, interval)
  {
  }

  lemma RunNothing(s: Clocked, interval: nat)
    ensures CanRun(s, [], interval) && RunTimed(s, [], interval) == s
  {
  }
}

/** Which messages the send path has accepted, handed over and dropped, over every run. */
module Messages {
  import opened Bytes
  import opened Packages
  import opened Framing
  import opened SendModel
  import opened Wrappers
  import opened SendRuns

  // ----- Picking some elements of a sequence, in order -----

  /** The elements of `a` are those of `b` at the given places, which increase. */
  predicate Picks<T(==)>(a: seq<T>, b: seq<T>, places: seq<int>) {
    && |places| == |a|
    && (forall i :: 0 <= i < |places| ==> 0 <= places[i] < |b| && a[i] == b[places[i]])
    && (forall i, j :: 0 <= i < j < |places| ==> places[i] < places[j])
  }

  /** The last k places below n. */
  function LastPlaces(n: int, k: nat): (places: seq<int>)
    ensures |places| == k && forall i :: 0 <= i < k ==> places[i] == n - k + i
  {
    seq(k, i requires 0 <= i < k => n - k + i)
  }

  /** Element i is at place i: nothing before it was left out. */
  predicate InPlace(places: seq<int>) {
    forall i :: 0 <= i < |places| ==> places[i] == i
  }

  predicate Distinct<T(==)>(s: seq<T>) {
    forall i, j :: 0 <= i < j < |s| ==> s[i] != s[j]
  }

  /** What is picked in place is a prefix; among distinct elements there is no other prefix. */
  lemma InPlaceIsPrefix<T>(a: seq<T>, b: seq<T>, places: seq<int>)
    requires Picks(a, b, places)
    ensures InPlace(places) ==> a <= b
    ensures Distinct(b) ==> (a <= b <==> InPlace(places))
  {
    if InPlace(places) && a != [] {
      assert places[|a| - 1] == |a| - 1 < |b|;
    }
    if Distinct(b) && a <= b {
      forall i | 0 <= i < |places|
        ensures places[i] == i
      {
        assert b[i] == a[i] == b[places[i]];
      }
    }
  }

  lemma PicksMore<T>(a: seq<T>, b: seq<T>, places: seq<int>, w: seq<T>)
    requires |w| <= |b| && w == b[|b| - |w|..] && Picks(a, b[..|b| - |w|], places)
    ensures Picks(a + w, b, places + LastPlaces(|b|, |w|))
    ensures Picks(a, b, places)
  {
  }

  // ----- Message histories -----

  /** A connection with the messages it accepted, those handed to async_write so far, and those
      that wait; how many accepted messages were dropped from the waiting buffer; which of the
      accepted messages the handed ones are; and how many were handed over before any was dropped. */
  datatype Trace = Trace(
    c: Conn,
    accepted: seq<seq<byte>>,
    handed: seq<seq<byte>>,
    waiting: seq<seq<byte>>,
    dropped: nat,
    places: seq<int>,
    onTime: nat)

  function TraceStart(now: int): Trace {
    Trace(Started(now), [], [], [], 0, [], 0)
  }

  /** The message that the event gets accepted, if any. */
  function Taken(c: Conn, e: Event): seq<seq<byte>> {
    var m := Offered(c, e);
    if m != [] && Accepts(c, m) then [m] else []
  }

  predicate OverflowsAt(c: Conn, e: Event) {
    c.connected && Offered(c, e) != [] && Overflows(c, Offered(c, e))
  }

  /** What waits moves on when a write starts; it is dropped when the waiting buffer is emptied otherwise. */
  function TraceStep(t: Trace, e: Event): Trace
    requires Enabled(t.c, e)
  {
    var c := Step(t.c, e);
    var accepted, waiting := t.accepted + Taken(t.c, e), t.waiting + Taken(t.c, e);
    if |c.handed| > |t.c.handed| then
      Trace(c, accepted, t.handed + waiting, [], t.dropped, t.places + LastPlaces(|accepted|, |waiting|),
            if t.dropped == 0 then |t.handed + waiting| else t.onTime)
    else if c.waiting == [] then
      Trace(c, accepted, t.handed, [], t.dropped + |waiting|, t.places, t.onTime)
    else
      Trace(c, accepted, t.handed, waiting, t.dropped, t.places, t.onTime)
  }

  /** The bytes are those of the messages: what waits, and what went to async_write. */
  predicate BytesInv(t: Trace) {
    && (forall i :: 0 <= i < |t.waiting| ==> t.waiting[i] != [])
    && t.c.waiting == Join(t.waiting)
    && Join(t.c.handed) == Join(t.handed)
    && t.c.wire <= Join(t.handed)
    && (t.c.connected || t.c.write.Some? ==> t.c.wire + Unmoved(t.c) == Join(t.handed))
  }

  /** Every accepted message was handed over, waits or was dropped; those that wait are the last
      ones, and the ones handed over stand in the order of acceptance, in place as far as they
      were handed over before any was dropped, and not beyond. */
  predicate OrderInv(t: Trace) {
    && |t.handed| + |t.waiting| + t.dropped == |t.accepted|
    && t.waiting == t.accepted[|t.accepted| - |t.waiting|..]
    && Picks(t.handed, t.accepted[..|t.accepted| - |t.waiting|], t.places)
    && t.onTime <= |t.handed| && (t.dropped == 0 ==> t.onTime == |t.handed|)
    && (forall i :: 0 <= i < |t.places| ==> (t.places[i] == i <==> i < t.onTime))
  }

  predicate TraceInv(t: Trace) {
    CapacityInv(t.c) && WriteInv(t.c) && BytesInv(t) && OrderInv(t)
  }

  lemma NothingWaits(t: Trace)
    requires BytesInv(t) && t.c.waiting == []
    ensures t.waiting == []
  {
  }

  lemma JoinOne(m: seq<byte>)
    ensures Join([m]) == m && Join([]) == []
  {
  }

  /** Accepting a message. */
  lemma AcceptBytes(t: Trace, e: Event)
    requires WriteInv(t.c) && BytesInv(t) && Enabled(t.c, e) && Taken(t.c, e) != []
    ensures BytesInv(TraceStep(t, e))
  {
    hide GrownCap, ShrunkCap, Average, Join, PackageBytes, KeepAlivePackage;
    var m := Offered(t.c, e);
    JoinOne(m);
    assert Step(t.c, e) == Send(t.c, m);
    if t.c.sending {
      JoinAppend(t.waiting, [m]);
    } else {
      NothingWaits(t);
      assert t.waiting + [m] == [m] && t.c.waiting + m == m && [] + m == m;
      JoinAppend(t.handed, [m]);
      JoinAppend(t.c.handed, [m]);
      assert t.c.wire + [] == t.c.wire;
      assert Unmoved(Step(t.c, e)) == m;
    }
  }

  /** A completed write: what waits goes out. */
  lemma CompletionBytes(t: Trace, e: Event)
    requires WriteInv(t.c) && BytesInv(t) && Enabled(t.c, e) && e.WriteDone?
    ensures BytesInv(TraceStep(t, e))
  {
    hide GrownCap, ShrunkCap, Average, Join;
    assert t.waiting + [] == t.waiting;
    assert Unmoved(t.c) == [] && t.c.wire + [] == t.c.wire;
    if t.c.waiting == [] {
      NothingWaits(t);
    } else {
      JoinOne(t.c.waiting);
      JoinAppend(t.handed, t.waiting);
      JoinAppend(t.c.handed, [t.c.waiting]);
      assert Unmoved(Step(t.c, e)) == t.c.waiting;
    }
  }

  /** The transport takes bytes of the outstanding write. */
  lemma TransferBytes(t: Trace, e: Event)
    requires WriteInv(t.c) && BytesInv(t) && Enabled(t.c, e) && e.Transferred?
    ensures BytesInv(TraceStep(t, e))
  {
    hide Join, Step, Unmoved;
    var took := TransferMoves(t.c, e);
    assert t.waiting + [] == t.waiting;
    assert t.c.wire + took + Unmoved(Step(t.c, e)) == t.c.wire + Unmoved(t.c) == Join(t.handed);
    JoinOne([]);
  }

  lemma TransferMoves(c: Conn, e: Event) returns (took: seq<byte>)
    requires Enabled(c, e) && e.Transferred?
    ensures var r := Step(c, e);
            && r.waiting == c.waiting && r.handed == c.handed && r.connected == c.connected && r.write.Some?
            && r.wire == c.wire + took && Unmoved(c) == took + Unmoved(r)
    ensures Taken(c, e) == []
  {
    var w := c.write.value;
    took := w.bytes[w.moved..w.moved + e.n];
    assert w.bytes[w.moved..] == took + w.bytes[w.moved + e.n..];
  }

  /** Refusals, errors, timers and close hand nothing over. */
  lemma OtherMoves(c: Conn, e: Event)
    requires WriteInv(c) && Enabled(c, e) && !e.WriteDone? && !e.Transferred? && Taken(c, e) == []
    ensures var r := Step(c, e);
            && r.handed == c.handed && r.wire == c.wire
            && (r.write == c.write || (r.write == None && !r.connected))
            && (r.connected ==> c.connected)
            && r.waiting == (if OverflowsAt(c, e) || !r.connected then [] else c.waiting)
  {
  }

  lemma OtherBytes(t: Trace, e: Event)
    requires WriteInv(t.c) && BytesInv(t) && Enabled(t.c, e) && !e.WriteDone? && !e.Transferred? && Taken(t.c, e) == []
    ensures BytesInv(TraceStep(t, e))
  {
    hide Step, Join, Taken;
    OtherMoves(t.c, e);
    JoinOne([]);
    assert t.waiting + [] == t.waiting;
  }

  lemma StepBytes(t: Trace, e: Event)
    requires WriteInv(t.c) && BytesInv(t) && Enabled(t.c, e)
    ensures BytesInv(TraceStep(t, e))
  {
    hide BytesInv, TraceStep, Enabled, WriteInv, Taken;
    if Taken(t.c, e) != [] {
      AcceptBytes(t, e);
    } else if e.WriteDone? {
      CompletionBytes(t, e);
    } else if e.Transferred? {
      TransferBytes(t, e);
    } else {
      OtherBytes(t, e);
    }
  }

  /** The event ends a session that is up. */
  predicate EndsSession(c: Conn, e: Event) {
    c.connected &&
    match e
    case WriteFailed => true
    case ErrorRaised => true
    case Closed => true
    case TimeoutCheck(now, interval) => now - c.lastRecv >= interval
    case _ => false
  }

  /** The event starts a write: a message is accepted while idle, or a completion finds more waiting. */
  predicate StartsWrite(c: Conn, e: Event) {
    (Taken(c, e) != [] && !c.sending) || (e.WriteDone? && c.waiting != [])
  }

  /** The event loses what waits: a message is refused for want of room, or the session ends. */
  predicate DropsAt(c: Conn, e: Event) {
    c.waiting != [] && (OverflowsAt(c, e) || EndsSession(c, e))
  }

  /** The guards say what the step does. */
  lemma GuardsMean(c: Conn, e: Event)
    requires WriteInv(c) && Enabled(c, e)
    ensures Step(c, e).connected <==> c.connected && !EndsSession(c, e)
    ensures |Step(c, e).handed| > |c.handed| <==> StartsWrite(c, e)
    ensures !StartsWrite(c, e) ==> Step(c, e).handed == c.handed
  {
    hide Average, ShrunkCap, GrownCap, PackageBytes, KeepAlivePackage;
  }

  lemma TakenMoves(c: Conn, e: Event)
    requires WriteInv(c) && Enabled(c, e) && Taken(c, e) != []
    ensures !OverflowsAt(c, e) && Step(c, e).connected
    ensures |Step(c, e).handed| > |c.handed| || Step(c, e).waiting != []
  {
    hide Average, ShrunkCap, GrownCap, PackageBytes, KeepAlivePackage;
  }

  lemma CompletionMoves(c: Conn, e: Event)
    requires WriteInv(c) && Enabled(c, e) && e.WriteDone?
    ensures Step(c, e).connected == c.connected && Step(c, e).waiting == []
    ensures |Step(c, e).handed| > |c.handed| <==> c.waiting != []
  {
  }

  lemma StepDrops(t: Trace, e: Event)
    requires WriteInv(t.c) && BytesInv(t) && Enabled(t.c, e)
    ensures TraceStep(t, e).dropped == t.dropped + (if DropsAt(t.c, e) then |t.waiting| else 0)
    ensures DropsAt(t.c, e) ==> t.waiting != []
  {
    hide Join, Step, Enabled, Taken, OverflowsAt, EndsSession, StartsWrite;
    assert t.waiting + [] == t.waiting;
    GuardsMean(t.c, e);
    if t.c.waiting == [] {
      NothingWaits(t);
    } else {
      SomethingWaits(t);
    }
    if Taken(t.c, e) != [] {
      TakenMoves(t.c, e);
    } else if e.WriteDone? {
      CompletionMoves(t.c, e);
      NoOverflow(t.c, e);
    } else if e.Transferred? {
      var took := TransferMoves(t.c, e);
      NoOverflow(t.c, e);
    } else {
      OtherMoves(t.c, e);
    }
  }

  lemma NoOverflow(c: Conn, e: Event)
    requires e.WriteDone? || e.Transferred?
    ensures Taken(c, e) == [] && !OverflowsAt(c, e)
  {
  }

  lemma SomethingWaits(t: Trace)
    requires BytesInv(t) && t.c.waiting != []
    ensures t.waiting != []
  {
  }

  lemma StepOrder(t: Trace, e: Event)
    requires OrderInv(t) && Enabled(t.c, e)
    ensures OrderInv(TraceStep(t, e))
  {
    hide Enabled, Step, Taken, Picks;
    var accepted, waiting := t.accepted + Taken(t.c, e), t.waiting + Taken(t.c, e);
    var n := |accepted| - |waiting|;
    assert accepted[n..] == waiting && accepted[..n] == t.accepted[..n];
    PicksMore(t.handed, accepted, t.places, waiting);
    assert accepted[..|accepted|] == accepted;
    var r := TraceStep(t, e);
    assert r.waiting == r.accepted[|r.accepted| - |r.waiting|..];
  }

  /** Every step keeps the invariants, and drops messages exactly when it overflows, or ends the
      session, while something waits: then it drops all that waits. */
  lemma TraceStepKeeps(t: Trace, e: Event)
    requires TraceInv(t) && Enabled(t.c, e)
    ensures TraceInv(TraceStep(t, e)) && TraceStep(t, e).c == Step(t.c, e)
    ensures TraceStep(t, e).dropped == t.dropped + (if DropsAt(t.c, e) then |t.waiting| else 0)
    ensures DropsAt(t.c, e) ==> t.waiting != []
  {
    hide BytesInv, OrderInv, CapacityInv, WriteInv, Enabled, Step, DropsAt;
    StepKeeps(t.c, e);
    StepBytes(t, e);
    StepOrder(t, e);
    StepDrops(t, e);
  }

  function TraceRun(t: Trace, es: seq<Event>): Trace
    requires Possible(t.c, es)
    decreases |es|
  {
    if es == [] then t else TraceRun(TraceStep(t, es[0]), es[1..])
  }

  lemma TraceRunCons(t: Trace, e: Event, es: seq<Event>)
    requires Enabled(t.c, e) && Possible(Step(t.c, e), es)
    ensures Possible(t.c, [e] + es) && TraceRun(t, [e] + es) == TraceRun(TraceStep(t, e), es)
  {
  }

  // ----- Exactly when nothing is lost, and when what goes out is a prefix -----

  /** No step of the run drops anything. */
  predicate NeverDrops(c: Conn, es: seq<Event>)
    requires Possible(c, es)
    decreases |es|
  {
    es == [] || (!DropsAt(c, es[0]) && NeverDrops(Step(c, es[0]), es[1..]))
  }

  predicate NoWriteStarts(c: Conn, es: seq<Event>)
    requires Possible(c, es)
    decreases |es|
  {
    es == [] || (!StartsWrite(c, es[0]) && NoWriteStarts(Step(c, es[0]), es[1..]))
  }

  /** No write starts behind the first step that drops something. */
  predicate StopsAtDrop(c: Conn, es: seq<Event>)
    requires Possible(c, es)
    decreases |es|
  {
    es == [] ||
    (if DropsAt(c, es[0]) then NoWriteStarts(Step(c, es[0]), es[1..])
     else StopsAtDrop(Step(c, es[0]), es[1..]))
  }

  lemma {:induction false} TraceRunKeeps(t: Trace, es: seq<Event>)
    requires TraceInv(t) && Possible(t.c, es)
    ensures var r := TraceRun(t, es);
            TraceInv(r) && r.dropped >= t.dropped && (r.dropped == t.dropped <==> NeverDrops(t.c, es))
    decreases |es|
  {
    hide TraceInv, TraceStep, Step, Enabled, DropsAt;
    if es != [] {
      TraceStepKeeps(t, es[0]);
      TraceRunKeeps(TraceStep(t, es[0]), es[1..]);
    }
  }

  /** A write that starts takes at least one message along; the connection's list never shrinks. */
  lemma StartTakesMessages(t: Trace, e: Event)
    requires TraceInv(t) && Enabled(t.c, e)
    ensures var r := TraceStep(t, e);
            if StartsWrite(t.c, e) then |r.handed| > |t.handed| && (t.dropped == 0 ==> r.onTime == |r.handed|)
            else r.handed == t.handed && r.onTime == t.onTime
    ensures t.dropped > 0 ==> TraceStep(t, e).onTime == t.onTime
  {
    hide Step, Join, Enabled, OrderInv, CapacityInv, DropsAt, Taken, StartsWrite;
    var r := TraceStep(t, e);
    GuardsMean(t.c, e);
    assert t.handed + [] == t.handed;
    if |r.c.handed| > |t.c.handed| && t.waiting + Taken(t.c, e) == [] {
      TraceStepKeeps(t, e);
      StartIsNotEmpty(t.c, e);
      JoinGrows(t.c.handed, r.c.handed[|t.c.handed|]);
    }
  }

  lemma StartIsNotEmpty(c: Conn, e: Event)
    requires WriteInv(c) && Enabled(c, e) && |Step(c, e).handed| > |c.handed|
    ensures var h := Step(c, e).handed; h == c.handed + [h[|c.handed|]] && h[|c.handed|] != []
  {
    hide Average, ShrunkCap, GrownCap, PackageBytes, KeepAlivePackage;
  }

  lemma JoinGrows(h: seq<seq<byte>>, m: seq<byte>)
    ensures Join(h + [m]) == Join(h) + m
  {
    JoinAppend(h, [m]);
    JoinOne(m);
  }

  lemma {:induction false} LateRun(t: Trace, es: seq<Event>)
    requires TraceInv(t) && Possible(t.c, es) && t.dropped > 0
    ensures var r := TraceRun(t, es);
            |r.handed| >= |t.handed| && r.onTime == t.onTime && (|r.handed| == |t.handed| <==> NoWriteStarts(t.c, es))
    decreases |es|
  {
    hide TraceInv, TraceStep, Step, Enabled, DropsAt, StartsWrite;
    if es != [] {
      TraceStepKeeps(t, es[0]);
      StartTakesMessages(t, es[0]);
      LateRun(TraceStep(t, es[0]), es[1..]);
    }
  }

  lemma {:induction false} PunctualRun(t: Trace, es: seq<Event>)
    requires TraceInv(t) && Possible(t.c, es) && t.dropped == 0
    ensures var r := TraceRun(t, es); r.onTime == |r.handed| <==> StopsAtDrop(t.c, es)
    decreases |es|
  {
    hide BytesInv, CapacityInv, WriteInv, TraceStep, Step, Enabled, DropsAt, StartsWrite, Picks;
    if es != [] {
      TraceStepKeeps(t, es[0]);
      StartTakesMessages(t, es[0]);
      var r := TraceStep(t, es[0]);
      if DropsAt(t.c, es[0]) {
        DropStartsNothing(t, es[0]);
        LateRun(r, es[1..]);
      } else {
        PunctualRun(r, es[1..]);
      }
    }
  }

  lemma DropStartsNothing(t: Trace, e: Event)
    requires TraceInv(t) && Enabled(t.c, e) && DropsAt(t.c, e)
    ensures TraceStep(t, e).handed == t.handed
  {
    hide BytesInv, OrderInv, CapacityInv, WriteInv, Step, Enabled, DropsAt;
    TraceStepKeeps(t, e);
  }

  /** Over every run: no message is lost if and only if no step overflows, or ends the session,
      while something waits. What was handed to async_write is the accepted messages in place, a
      prefix, if and only if no write started behind the first such step; otherwise it is still
      some of them in order. Distinct messages tell the cases apart by value. */
  lemma LostExactlyWhen(now: int, es: seq<Event>)
    requires Possible(Started(now), es)
    ensures var t := TraceRun(TraceStart(now), es);
            && |t.handed| + |t.waiting| + t.dropped == |t.accepted|
            && t.waiting == t.accepted[|t.accepted| - |t.waiting|..]
            && Picks(t.handed, t.accepted, t.places)
            && (t.handed + t.waiting == t.accepted <==> NeverDrops(Started(now), es))
            && (InPlace(t.places) <==> StopsAtDrop(Started(now), es))
            && (StopsAtDrop(Started(now), es) ==> t.handed <= t.accepted)
            && (Distinct(t.accepted) ==> (t.handed <= t.accepted <==> StopsAtDrop(Started(now), es)))
  {
    hide BytesInv, CapacityInv, WriteInv, TraceRun, NeverDrops, StopsAtDrop, Picks, Distinct;
    TraceStartKeeps(now);
    TraceRunKeeps(TraceStart(now), es);
    PunctualRun(TraceStart(now), es);
    var t := TraceRun(TraceStart(now), es);
    OrderMeans(t);
    InPlaceIsPrefix(t.handed, t.accepted, t.places);
  }

  // ----- Refusals -----

  /** Which messages are taken: a message that is offered to a connected session, if and only if it
      makes what waits no longer than 64 MB. Otherwise all that waits is dropped. */
  lemma TakenExactly(t: Trace, m: seq<byte>)
    requires TraceInv(t) && t.c.connected && m != [] && Enabled(t.c, Sent(m))
    ensures var r := TraceStep(t, Sent(m));
            if |m| + |Join(t.waiting)| <= 0x400_0000 then
              r.accepted == t.accepted + [m] && r.handed + r.waiting == t.handed + t.waiting + [m] && r.dropped == t.dropped
            else
              && r.accepted == t.accepted && r.handed == t.handed && r.waiting == []
              && r.dropped == t.dropped + |t.waiting|
  {
    hide Average, ShrunkCap, GrownCap, Join, OrderInv, CapacityInv;
    assert t.waiting + [] == t.waiting && t.accepted + [] == t.accepted;
    if t.c.waiting == [] {
      NothingWaits(t);
    }
    assert t.handed + (t.waiting + [m]) == t.handed + t.waiting + [m];
  }

  /** Every event can happen where it stands, and nothing offered to a connected session makes what
      waits longer than 64 MB. */
  predicate WithinLimit(c: Conn, es: seq<Event>)
    decreases |es|
  {
    es == [] ||
    (Enabled(c, es[0]) && (c.connected ==> |c.waiting| + |Offered(c, es[0])| <= 0x400_0000)
     && WithinLimit(Step(c, es[0]), es[1..]))
  }

  /** Such runs are those that refuse nothing. */
  lemma {:induction false} RefusesExactly(c: Conn, es: seq<Event>)
    requires CapacityInv(c) && WriteInv(c)
    ensures NeverRefuses(c, es) <==> WithinLimit(c, es)
    decreases |es|
  {
    hide WriteInv, Step, Enabled, Offered, IsCapacity;
    if es != [] && Enabled(c, es[0]) {
      StepKeeps(c, es[0]);
      RefusesExactly(Step(c, es[0]), es[1..]);
    }
  }

  /** Every event can happen where it stands, and none is refused for want of room. */
  predicate NeverRefuses(c: Conn, es: seq<Event>)
    decreases |es|
  {
    es == [] || (Enabled(c, es[0]) && !OverflowsAt(c, es[0]) && NeverRefuses(Step(c, es[0]), es[1..]))
  }

  /** A session that is still up, and refused nothing, has dropped nothing. */
  lemma {:induction false} StillUp(t: Trace, es: seq<Event>)
    requires TraceInv(t) && Possible(t.c, es) && NeverRefuses(t.c, es)
    requires TraceRun(t, es).c.connected
    ensures t.c.connected && NeverDrops(t.c, es)
    decreases |es|
  {
    hide BytesInv, OrderInv, CapacityInv, WriteInv, TraceStep, Step, Enabled, OverflowsAt, EndsSession;
    if es != [] {
      TraceStepKeeps(t, es[0]);
      GuardsMean(t.c, es[0]);
      StillUp(TraceStep(t, es[0]), es[1..]);
    }
  }

  /** No write completes while the session is up: the order of the strand behind a refusal, when the
      error that it posted stands before every completion. */
  predicate ErrorFirst(c: Conn, es: seq<Event>)
    requires Possible(c, es)
    decreases |es|
  {
    es == [] || !c.connected || (!es[0].WriteDone? && ErrorFirst(Step(c, es[0]), es[1..]))
  }

  /** A refusal behind an unfinished write is final: nothing accepted later is ever handed over. */
  lemma {:induction false} RefusalIsFinal(c: Conn, es: seq<Event>)
    requires CapacityInv(c) && WriteInv(c) && Possible(c, es)
    requires c.connected ==> c.sending
    requires ErrorFirst(c, es)
    ensures NoWriteStarts(c, es) && Run(c, es).handed == c.handed
    decreases |es|
  {
    hide CapacityInv, Enabled, Step;
    if es != [] {
      StepKeeps(c, es[0]);
      GuardsMean(c, es[0]);
      StaysBusy(c, es[0]);
      RefusalIsFinal(Step(c, es[0]), es[1..]);
    }
  }

  lemma StaysBusy(c: Conn, e: Event)
    requires WriteInv(c) && Enabled(c, e) && (c.connected ==> c.sending && !e.WriteDone?)
    ensures Step(c, e).connected ==> Step(c, e).sending
    ensures !StartsWrite(c, e)
  {
  }

  lemma TraceStartKeeps(now: int)
    ensures TraceInv(TraceStart(now))
  {
  }

  /** What the counters of a reachable state say. */
  lemma OrderMeans(t: Trace)
    requires OrderInv(t)
    ensures Picks(t.handed, t.accepted, t.places)
    ensures t.handed + t.waiting == t.accepted <==> t.dropped == 0
    ensures InPlace(t.places) <==> t.onTime == |t.handed|
  {
    hide Picks;
    PicksMore(t.handed, t.accepted, t.places, t.waiting);
    var n := |t.accepted| - |t.waiting|;
    assert t.accepted == t.accepted[..n] + t.waiting;
    InPlaceIsPrefix(t.handed, t.accepted[..n], t.places);
    if t.onTime < |t.places| {
      assert t.places[t.onTime] != t.onTime;
    }
  }

  /** An overflow drops a message that waits, and one accepted before the session ends still goes
      out: the completion of the write in flight was queued on the strand before the error was. */
  lemma OverflowLosesAMessage(now: int, a: seq<byte>, b: seq<byte>, big: seq<byte>, d: seq<byte>)
    requires 0 < |a| <= MAX_SEND_BUF_SIZE && 0 < |b| <= MAX_SEND_BUF_SIZE && 0 < |d| <= MAX_SEND_BUF_SIZE
    requires MAX_SEND_BUF_SIZE < |b| + |big| <= INT32_MAX
    ensures var es := [Sent(a)] + ([Sent(b)] + ([Transferred(|a|)] + ([Sent(big)] + ([WriteDone(now)] + ([Sent(d)] + [])))));
            && Possible(Started(now), es)
            && var t := TraceRun(TraceStart(now), es);
               && t.accepted == [a, b, d] && t.handed == [a, d] && t.dropped == 1 && t.onTime == 1 && t.c.connected
               && (b != d ==> !(t.handed <= t.accepted))
  {
    hide GrownCap, ShrunkCap, Average, Possible, TraceRun;
    var t0 := TraceStart(now);
    var t1 := TraceStep(t0, Sent(a));
    assert [] + a == a;
    assert t1.handed == [a] && t1.waiting == [] && t1.c.write == Some(Write(a, 0)) && t1.c.waiting == [];
    assert t1.dropped == 0 && t1.onTime == 1 && t1.accepted == [a];
    var t2 := TraceStep(t1, Sent(b));
    assert [] + b == b;
    assert t2.c.waiting == b && t2.handed == [a] && t2.waiting == [b] && t2.c.write == Some(Write(a, 0));
    assert t2.dropped == 0 && t2.onTime == 1 && t2.accepted == [a, b];
    var t3 := TraceStep(t2, Transferred(|a|));
    LosesAfterOverflow(t3, a, b, big, d, now);
    TraceRunCons(t2, Transferred(|a|), [Sent(big)] + ([WriteDone(now)] + ([Sent(d)] + [])));
    TraceRunCons(t1, Sent(b), [Transferred(|a|)] + ([Sent(big)] + ([WriteDone(now)] + ([Sent(d)] + []))));
    TraceRunCons(t0, Sent(a), [Sent(b)] + ([Transferred(|a|)] + ([Sent(big)] + ([WriteDone(now)] + ([Sent(d)] + [])))));
  }

  lemma LosesAfterOverflow(t3: Trace, a: seq<byte>, b: seq<byte>, big: seq<byte>, d: seq<byte>, now: int)
    requires 0 < |b| && 0 < |d| <= MAX_SEND_BUF_SIZE < |b| + |big| <= INT32_MAX
    requires |b| <= MAX_SEND_BUF_SIZE
    requires t3.c.connected && t3.c.sending && t3.c.write == Some(Write(a, |a|)) && t3.c.waiting == b
    requires t3.handed == [a] && t3.waiting == [b] && t3.accepted == [a, b] && t3.dropped == 0 && t3.onTime == 1
    ensures var es := [Sent(big)] + ([WriteDone(now)] + ([Sent(d)] + []));
            && Possible(t3.c, es)
            && var t := TraceRun(t3, es);
               && t.accepted == [a, b, d] && t.handed == [a, d] && t.dropped == 1 && t.onTime == 1 && t.c.connected
               && (b != d ==> !(t.handed <= t.accepted))
  {
    hide GrownCap, ShrunkCap, Average, Possible, TraceRun;
    var t4 := TraceStep(t3, Sent(big));
    assert t4.c.waiting == [] && t4.waiting == [] && t4.dropped == 1 && t4.handed == [a] && t4.accepted == [a, b];
    var t5 := TraceStep(t4, WriteDone(now));
    assert t5.c.waiting == [] && t5.waiting == [] && t5.dropped == 1 && !t5.c.sending && t5.handed == [a];
    assert [] + d == d;
    var t := TraceStep(t5, Sent(d));
    assert t.handed == [a, d] && t.accepted == [a, b, d];
    assert t.handed[1] == d && t.accepted[1] == b;
    TraceRunNil(t);
    TraceRunCons(t5, Sent(d), []);
    TraceRunCons(t4, WriteDone(now), [Sent(d)] + []);
    TraceRunCons(t3, Sent(big), [WriteDone(now)] + ([Sent(d)] + []));
  }

  lemma TraceRunNil(t: Trace)
    ensures Possible(t.c, []) && TraceRun(t, []) == t
  {
  }
}

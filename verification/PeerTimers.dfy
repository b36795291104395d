/** The keep-alive timer of one peer against the timeout timer of the other, on a real-valued clock
    of which time(NULL) shows the whole seconds. */
module PeerTimers {
  import opened Bytes
  import opened Packages
  import opened Wrappers
  import opened SendModel
  import opened SendRuns

  /** The keep-alive interval of the sender, the timeout interval of the receiver, and the longest
      time that bytes are under way, until the receiver has read them. */
  datatype Timing = Timing(keep: nat, timeout: nat, delay: real)

  predicate Sensible(w: Timing) {
    w.keep > 0 && w.timeout > 0 && w.delay >= 0.0
  }

  /** Both ends, when the timer of each expires, when the writes under way were made, and the time. */
  datatype Peers = Peers(
    sender: Conn,
    keepDue: real,
    underWay: seq<real>,
    receiver: Conn,
    checkDue: real,
    time: real)

  /** The sender's session has started at `s` and found no keep-alive due; the receiver's starts at `r`. */
  function PeersStart(w: Timing, s: real, r: real): Peers {
    Peers(Started(s.Floor), s + w.keep as real, [], Started(r.Floor), r, r)
  }

  /** The receiver starts no later than the sender's next check. */
  predicate CanStart(w: Timing, s: real, r: real) {
    s <= r <= s + w.keep as real
  }

  datatype PeerEvent =
    | Wait(until: real)       // nothing happens until then
    | Data(data: seq<byte>)   // the sender's sendDataAsync accepts data
    | KeepAliveTimer          // the sender's timer expires: doSendKeepAlive
    | Delivery                // the receiver reads what was under way longest: handleRecvData
    | TimeoutTimer            // the receiver's timer expires: doTimeoutCheck

  /** Timer handlers run at expiry, and nothing is under way for longer than the delay. */
  predicate CanOccur(w: Timing, p: Peers, e: PeerEvent) {
    match e
    case Wait(until) =>
      && p.time <= until <= p.keepDue && until <= p.checkDue
      && (p.underWay != [] ==> until <= p.underWay[0] + w.delay)
    case Data(data) => data != [] && |data| + |p.sender.waiting| <= INT32_MAX && Accepts(p.sender, data)
    case KeepAliveTimer => p.time == p.keepDue
    case Delivery => p.underWay != []
    case TimeoutTimer => p.time == p.checkDue && p.receiver.connected
  }

  /** An outstanding write completes at once. */
  function Completed(c: Conn, now: int): Conn {
    if c.write.Some? && c.write.value.moved <= |c.write.value.bytes|
    then Step(Step(c, Transferred(|Unmoved(c)|)), WriteDone(now))
    else c
  }

  /** The sender takes a step; if that starts a write, its bytes are under way. */
  function Send(p: Peers, e: Event): Peers
    requires Enabled(p.sender, e)
  {
    var c := Step(p.sender, e);
    p.(sender := Completed(c, p.time.Floor), underWay := if c.write.Some? then p.underWay + [p.time] else p.underWay)
  }

  function Occur(w: Timing, p: Peers, e: PeerEvent): Peers
    requires CanOccur(w, p, e)
  {
    match e
    case Wait(until) => p.(time := until)
    case Data(data) => Send(p, Sent(data))
    case KeepAliveTimer =>
      Send(p, Event.KeepAlive(p.time.Floor, w.keep)).(keepDue := p.time + w.keep as real)
    case Delivery => p.(receiver := Step(p.receiver, ReadDone(p.time.Floor)), underWay := p.underWay[1..])
    case TimeoutTimer =>
      p.(receiver := Step(p.receiver, TimeoutCheck(p.time.Floor, w.timeout)), checkDue := p.time + w.timeout as real)
  }

  predicate CanOccurAll(w: Timing, p: Peers, es: seq<PeerEvent>)
    decreases |es|
  {
    es == [] || (CanOccur(w, p, es[0]) && CanOccurAll(w, Occur(w, p, es[0]), es[1..]))
  }

  function OccurAll(w: Timing, p: Peers, es: seq<PeerEvent>): Peers
    requires CanOccurAll(w, p, es)
    decreases |es|
  {
    if es == [] then p else OccurAll(w, Occur(w, p, es[0]), es[1..])
  }

  // ----- The sender at rest -----

  /** Between two steps nothing waits and nothing is being written. */
  predicate Idle(c: Conn) {
    c.connected && c.waiting == [] && c.write == None && !c.sending
  }

  /** What an idle sender is given goes out at once. */
  lemma IdleSends(c: Conn, data: seq<byte>, now: int)
    requires Idle(c) && data != [] && !Overflows(c, data)
    ensures var r := SendModel.Send(c, data);
            r.write.Some? && Idle(Completed(r, now)) && Completed(r, now).lastSend == now
  {
    hide GrownCap, ShrunkCap, Average;
    assert [] + data == data;
  }

  /** What a step of the sender does to the peers. */
  lemma SenderSteps(w: Timing, p: Peers, e: PeerEvent)
    requires Idle(p.sender) && CanOccur(w, p, e) && (e.Data? || e.KeepAliveTimer?)
    ensures var r := Occur(w, p, e);
            var sends := e.Data? || p.time.Floor - p.sender.lastSend > w.keep;
            && Idle(r.sender) && r.receiver == p.receiver && r.checkDue == p.checkDue && r.time == p.time
            && r.sender.lastSend == (if sends then p.time.Floor else p.sender.lastSend)
            && r.underWay == (if sends then p.underWay + [p.time] else p.underWay)
            && r.keepDue == (if e.Data? then p.keepDue else p.time + w.keep as real)
  {
    hide SendModel.Send, Completed, PackageBytes, KeepAlivePackage, Idle;
    var now := p.time.Floor;
    if e.Data? {
      IdleAccepts(p.sender, e.data);
      IdleSends(p.sender, e.data, now);
    } else {
      KeepAliveFits(p.sender);
      IdleSends(p.sender, PackageBytes(KeepAlivePackage()), now);
      IdleRests(p.sender, now);
    }
  }

  lemma IdleAccepts(c: Conn, data: seq<byte>)
    requires Accepts(c, data) && data != []
    ensures !Overflows(c, data)
  {
  }

  lemma IdleRests(c: Conn, now: int)
    requires Idle(c)
    ensures c.write.None? && Completed(c, now) == c
  {
  }

  lemma KeepAliveFits(c: Conn)
    requires Idle(c)
    ensures PackageBytes(KeepAlivePackage()) != [] && !Overflows(c, PackageBytes(KeepAlivePackage()))
  {
    hide PackageBytes, KeepAlivePackage, ParsePackage;
    KeepAliveOnWire();
  }

  // ----- A long enough timeout never cuts a live peer short -----

  /** The next bytes are under way by the time the receiver's patience demands: each write comes less
      than 2K + 1 seconds after the whole second of the one before, or of the last receipt. */
  predicate Attended(w: Timing, p: Peers) {
    var n := 2 * w.keep + 1;
    var u := p.underWay;
    && Idle(p.sender) && p.receiver.connected && p.receiver.notified == 0
    && p.sender.lastSend <= p.time.Floor && p.time <= p.keepDue && p.keepDue.Floor - p.sender.lastSend < n
    && (forall i :: 0 <= i < |u| ==> u[i] <= p.time)
    && (forall i :: 0 <= i < |u| - 1 ==> u[i] <= u[i + 1] < (u[i].Floor + n) as real)
    && (if u == [] then p.sender.lastSend <= p.receiver.lastRecv
        else p.sender.lastSend == u[|u| - 1].Floor && p.time <= u[0] + w.delay
             && u[0] < (p.receiver.lastRecv + n) as real)
  }

  lemma FloorBounds(x: real, y: real, n: int)
    ensures x <= y ==> x.Floor <= y.Floor
    ensures x.Floor < n <==> x < n as real
    ensures (x + n as real).Floor == x.Floor + n
  {
  }

  lemma ReceiverSteps(c: Conn, now: int, timeout: nat)
    ensures Step(c, ReadDone(now)) == c.(lastRecv := now)
    ensures now - c.lastRecv < timeout ==> Step(c, TimeoutCheck(now, timeout)) == c
    ensures now - c.lastRecv >= timeout ==> !Step(c, TimeoutCheck(now, timeout)).connected
  {
  }

  lemma SendAttended(w: Timing, p: Peers, e: PeerEvent)
    requires Sensible(w) && Attended(w, p) && CanOccur(w, p, e) && (e.Data? || e.KeepAliveTimer?)
    ensures Attended(w, Occur(w, p, e))
  {
    hide Idle, CanOccur, Occur, Step;
    SenderSteps(w, p, e);
    var r := Occur(w, p, e);
    FloorBounds(p.time, p.keepDue, 2 * w.keep + 1 + p.sender.lastSend);
    FloorBounds(p.time, p.time, w.keep);
    FloorBounds(p.time, p.time, p.sender.lastSend + 2 * w.keep + 1);
    assert e.KeepAliveTimer? ==> p.time == p.keepDue by {
      TimerIsDue(w, p, e);
    }
    if r.underWay != p.underWay {
      assert forall i :: 0 <= i < |p.underWay| ==> r.underWay[i] == p.underWay[i];
      assert r.underWay[|p.underWay|] == p.time;
    }
  }

  lemma TimerIsDue(w: Timing, p: Peers, e: PeerEvent)
    requires CanOccur(w, p, e)
    ensures e.KeepAliveTimer? ==> p.time == p.keepDue
    ensures e.Delivery? ==> p.underWay != []
  {
  }

  lemma DeliveryAttended(w: Timing, p: Peers)
    requires Sensible(w) && Attended(w, p) && CanOccur(w, p, Delivery)
    ensures Attended(w, Occur(w, p, Delivery))
  {
    hide Idle;
    ReceiverSteps(p.receiver, p.time.Floor, w.timeout);
    var u := p.underWay;
    FloorBounds(u[0], p.time, 0);
    if |u| > 1 {
      assert u[1..][0] == u[1] && u[0] <= u[0 + 1];
    }
  }

  lemma OthersAttended(w: Timing, p: Peers, e: PeerEvent)
    requires Sensible(w) && (2 * w.keep + 1) as real + w.delay <= w.timeout as real
    requires Attended(w, p) && CanOccur(w, p, e) && (e.Wait? || e.TimeoutTimer?)
    ensures Attended(w, Occur(w, p, e))
  {
    hide Idle;
    FloorBounds(p.time, p.keepDue, p.receiver.lastRecv + w.timeout);
    FloorBounds(p.time, p.time, p.sender.lastSend + 2 * w.keep + 1);
    ReceiverSteps(p.receiver, p.time.Floor, w.timeout);
  }

  lemma {:induction false} AllAttended(w: Timing, p: Peers, es: seq<PeerEvent>)
    requires Sensible(w) && (2 * w.keep + 1) as real + w.delay <= w.timeout as real
    requires Attended(w, p) && CanOccurAll(w, p, es)
    ensures Attended(w, OccurAll(w, p, es))
    decreases |es|
  {
    hide Attended, Occur, CanOccur;
    if es != [] {
      match es[0] {
        case Data(_) => SendAttended(w, p, es[0]);
        case KeepAliveTimer => SendAttended(w, p, es[0]);
        case Delivery => DeliveryAttended(w, p);
        case _ => OthersAttended(w, p, es[0]);
      }
      AllAttended(w, Occur(w, p, es[0]), es[1..]);
    }
  }

  // ----- A shorter one does -----

  /** When an idle sender whose timer expires at `due` sends of its own accord. */
  function NextSend(due: real, lastSend: int, keep: nat): real {
    if due.Floor - lastSend > keep then due
    else if due.Floor > lastSend then due + keep as real
    else due + (2 * keep) as real
  }

  /** Nothing need reach the receiver before t. */
  predicate CanLinger(w: Timing, p: Peers, t: real) {
    && Idle(p.sender) && p.sender.lastSend <= p.keepDue.Floor
    && p.time <= p.keepDue && p.time <= t <= p.checkDue
    && t <= w.delay + if p.underWay == [] then NextSend(p.keepDue, p.sender.lastSend, w.keep) else p.underWay[0]
  }

  lemma OccurCons(w: Timing, p: Peers, e: PeerEvent, es: seq<PeerEvent>)
    requires CanOccur(w, p, e) && CanOccurAll(w, Occur(w, p, e), es)
    ensures CanOccurAll(w, p, [e] + es) && OccurAll(w, p, [e] + es) == OccurAll(w, Occur(w, p, e), es)
  {
  }

  lemma OccurNil(w: Timing, p: Peers)
    ensures CanOccurAll(w, p, []) && OccurAll(w, p, []) == p
  {
  }

  /** A check of the keep-alive timer brings the sender no closer to its next send. */
  lemma LingerOn(w: Timing, p: Peers, t: real)
    requires Sensible(w) && CanLinger(w, p, t) && p.time == p.keepDue < t
    ensures CanOccur(w, p, KeepAliveTimer)
    ensures var r := Occur(w, p, KeepAliveTimer);
            && CanLinger(w, r, t) && r.time == p.time && r.receiver == p.receiver && r.checkDue == p.checkDue
            && r.keepDue == p.keepDue + w.keep as real
  {
    hide Idle, Occur;
    SenderSteps(w, p, KeepAliveTimer);
    FloorBounds(p.keepDue, p.keepDue, w.keep);
  }

  /** Time passes to t, with the sender's timer handled on the way. */
  lemma {:induction false} Linger(w: Timing, p: Peers, t: real) returns (es: seq<PeerEvent>)
    requires Sensible(w) && CanLinger(w, p, t)
    ensures CanOccurAll(w, p, es)
    ensures var r := OccurAll(w, p, es); r.time == t && r.receiver == p.receiver && r.checkDue == p.checkDue
    decreases if t <= p.keepDue then 0 else (t - p.keepDue).Floor + 1
  {
    hide Idle, Send;
    if t <= p.keepDue {
      var r := Occur(w, p, Wait(t));
      OccurNil(w, r);
      OccurCons(w, p, Wait(t), []);
      es := [Wait(t)] + [];
    } else {
      var q := Occur(w, p, Wait(p.keepDue));
      LingerOn(w, q, t);
      var r := Occur(w, q, KeepAliveTimer);
      LaterIsLess(t - p.keepDue, w.keep);
      var more := Linger(w, r, t);
      OccurCons(w, q, KeepAliveTimer, more);
      OccurCons(w, p, Wait(p.keepDue), [KeepAliveTimer] + more);
      es := [Wait(p.keepDue)] + ([KeepAliveTimer] + more);
    }
  }

  lemma LaterIsLess(x: real, k: nat)
    requires x > 0.0 && k > 0
    ensures x.Floor >= 0 && (x - k as real).Floor < x.Floor
  {
  }

  /** A receiver with less patience can be made to time out: the sender's last data is read at once, on
      a whole second that the receiver's timer shares, and its next check comes late in that second. */
  lemma CutShort(w: Timing) returns (s: real, r: real, es: seq<PeerEvent>)
    requires Sensible(w) && (2 * w.keep + 1) as real + w.delay > w.timeout as real
    ensures CanStart(w, s, r) && CanOccurAll(w, PeersStart(w, s, r), es)
    ensures !OccurAll(w, PeersStart(w, s, r), es).receiver.connected
  {
    hide Idle, Send, Step;
    var late := w.timeout as real - (2 * w.keep) as real - w.delay;
    s := if late > 0.0 then late else 0.0;
    r := w.keep as real;
    var t := (w.keep + w.timeout) as real;
    var p0 := PeersStart(w, s, r);
    StartIdle(s);
    FloorBounds(s, s, w.keep);
    FloorBounds(r, r, w.timeout);
    assert s.Floor == 0 && p0.keepDue.Floor == w.keep && r.Floor == w.keep;
    var p1 := Occur(w, p0, Data([0]));
    SenderSteps(w, p0, Data([0]));
    var p2 := Occur(w, p1, Delivery);
    ReceiverSteps(p1.receiver, w.keep, w.timeout);
    var p3 := Occur(w, p2, TimeoutTimer);
    ReceiverSteps(p2.receiver, w.keep, w.timeout);
    var more := Linger(w, p3, t);
    var p4 := OccurAll(w, p3, more);
    var p5 := Occur(w, p4, TimeoutTimer);
    ReceiverSteps(p4.receiver, t.Floor, w.timeout);
    OccurNil(w, p5);
    OccurCons(w, p4, TimeoutTimer, []);
    OccurAppend(w, p3, more, [TimeoutTimer] + []);
    OccurCons(w, p2, TimeoutTimer, more + ([TimeoutTimer] + []));
    OccurCons(w, p1, Delivery, [TimeoutTimer] + (more + ([TimeoutTimer] + [])));
    OccurCons(w, p0, Data([0]), [Delivery] + ([TimeoutTimer] + (more + ([TimeoutTimer] + []))));
    es := [Data([0])] + ([Delivery] + ([TimeoutTimer] + (more + ([TimeoutTimer] + []))));
  }

  lemma StartIdle(s: real)
    ensures Idle(Started(s.Floor)) && Accepts(Started(s.Floor), [0])
  {
  }

  lemma {:induction false} OccurAppend(w: Timing, p: Peers, es: seq<PeerEvent>, fs: seq<PeerEvent>)
    requires CanOccurAll(w, p, es) && CanOccurAll(w, OccurAll(w, p, es), fs)
    ensures CanOccurAll(w, p, es + fs) && OccurAll(w, p, es + fs) == OccurAll(w, OccurAll(w, p, es), fs)
    decreases |es|
  {
    hide Occur, CanOccur;
    if es == [] {
      assert es + fs == fs;
    } else {
      assert (es + fs)[0] == es[0] && (es + fs)[1..] == es[1..] + fs;
      OccurAppend(w, Occur(w, p, es[0]), es[1..], fs);
    }
  }

  lemma StartAttended(w: Timing, s: real, r: real)
    requires Sensible(w) && CanStart(w, s, r)
    ensures Attended(w, PeersStart(w, s, r))
  {
    FloorBounds(s, r, 0);
    FloorBounds(s, s, w.keep);
  }

  /** With a keep-alive interval K, a delay of at most d, and a timeout T: the receiver is never timed
      out, in any run, if and only if 2K + 1 + d <= T. */
  lemma KeptUpExactly(w: Timing)
    requires Sensible(w)
    ensures (2 * w.keep + 1) as real + w.delay <= w.timeout as real <==>
              forall s, r, es :: CanStart(w, s, r) && CanOccurAll(w, PeersStart(w, s, r), es) ==>
                                   OccurAll(w, PeersStart(w, s, r), es).receiver.connected
  {
    hide CanStart, PeersStart, CanOccurAll, OccurAll;
    if (2 * w.keep + 1) as real + w.delay <= w.timeout as real {
      forall s, r, es | CanStart(w, s, r) && CanOccurAll(w, PeersStart(w, s, r), es)
        ensures OccurAll(w, PeersStart(w, s, r), es).receiver.connected
      {
        StartAttended(w, s, r);
        AllAttended(w, PeersStart(w, s, r), es);
      }
    } else {
      var s, r, es := CutShort(w);
    }
  }
}

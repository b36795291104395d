/** The framed transport end to end: packets sent on one connection, delivered on another. */
module Transport {
  import opened Bytes
  import opened Packages
  import opened Framing
  import opened SendModel
  import opened Wrappers
  import opened SendRuns
  import opened Messages

  /** A packet whose size is an r_int32. */
  type Sendable = p: Package | HEADER_LENGTH + |p.content| <= INT32_MAX
    witness Package(Header(0, 0, 0, Flag(0, 0, 0, 0, 0)), [])

  const RECV_BUF_SIZE: nat := MIN_SEND_BUF_SIZE

  /** A sender, the packets it accepted, and a receiver: how much it has read, what its parser
      holds, the frames it dispatched and whether the parser was ever reset. */
  datatype System = System(t: Trace, sent: seq<Sendable>, read: nat, residue: seq<byte>, frames: seq<seq<byte>>, reset: bool)

  datatype SystemEvent =
    | SendPackage(p: Sendable)   // sendData on the sender
    | Local(e: Event)            // any other step of the sender
    | Read(n: nat, now: int)     // the receiver reads n of the bytes that are on the wire

  function SystemStart(now: int): System {
    System(TraceStart(now), [], 0, [], [], false)
  }

  predicate SystemEnabled(s: System, e: SystemEvent) {
    match e
    case SendPackage(p) => HEADER_LENGTH + |p.content| + |s.t.c.waiting| <= INT32_MAX   // an r_int32 sum
    case Local(e) => !e.Sent? && Enabled(s.t.c, e)
    case Read(n, _) => 0 < n <= RECV_BUF_SIZE && s.read + n <= |s.t.c.wire|
  }

  /** The packet that an event of the sender gets accepted, if any. */
  function Gained(s: System, e: SystemEvent): seq<Sendable>
    requires SystemEnabled(s, e)
  {
    match e
    case SendPackage(p) => if Accepts(s.t.c, PackageBytes(p)) then [p] else []
    case Local(e) => if Taken(s.t.c, e) != [] then [KeepAlivePackage()] else []
    case Read(_, _) => []
  }

  function SenderEvent(e: SystemEvent): Event
    requires !e.Read?
  {
    if e.SendPackage? then Sent(PackageBytes(e.p)) else e.e
  }

  function SystemStep(s: System, e: SystemEvent): System
    requires SystemEnabled(s, e)
  {
    if e.Read? then
      var o := Drain(s.residue + s.t.c.wire[s.read..s.read + e.n]);
      s.(read := s.read + e.n, residue := o.rest, frames := s.frames + o.frames, reset := s.reset || o.reset)
    else
      s.(t := TraceStep(s.t, SenderEvent(e)), sent := s.sent + Gained(s, e))
  }

  predicate SystemPossible(s: System, es: seq<SystemEvent>)
    decreases |es|
  {
    es == [] || (SystemEnabled(s, es[0]) && SystemPossible(SystemStep(s, es[0]), es[1..]))
  }

  function SystemRun(s: System, es: seq<SystemEvent>): System
    requires SystemPossible(s, es)
    decreases |es|
  {
    if es == [] then s else SystemRun(SystemStep(s, es[0]), es[1..])
  }

  /** The steps of the sender among the events of the system. */
  function SenderEvents(es: seq<SystemEvent>): seq<Event> {
    if es == [] then []
    else if es[0].Read? then SenderEvents(es[1..])
    else [SenderEvent(es[0])] + SenderEvents(es[1..])
  }

  lemma {:induction false} SenderRun(s: System, es: seq<SystemEvent>)
    requires SystemPossible(s, es)
    ensures Possible(s.t.c, SenderEvents(es))
    ensures SystemRun(s, es).t == TraceRun(s.t, SenderEvents(es))
    decreases |es|
  {
    hide TraceStep, Enabled, Step, PackageBytes, Drain;
    if es != [] {
      SenderRun(SystemStep(s, es[0]), es[1..]);
      if !es[0].Read? {
        SenderStep(s, es[0]);
        TraceRunCons(s.t, SenderEvent(es[0]), SenderEvents(es[1..]));
      }
    }
  }

  lemma SenderStep(s: System, e: SystemEvent)
    requires SystemEnabled(s, e) && !e.Read?
    ensures Enabled(s.t.c, SenderEvent(e))
    ensures SystemStep(s, e).t == TraceStep(s.t, SenderEvent(e)) && SystemStep(s, e).t.c == Step(s.t.c, SenderEvent(e))
  {
  }

  // ----- The invariant -----

  /** The accepted messages are the encodings of the packets, each a frame. */
  predicate Encodes(messages: seq<seq<byte>>, sent: seq<Sendable>) {
    && |messages| == |sent|
    && forall i :: 0 <= i < |sent| ==> messages[i] == PackageBytes(sent[i]) && IsFrame(messages[i])
  }

  /** The receiver is where draining all it has read would leave it. */
  predicate ReaderInv(s: System) {
    s.read <= |s.t.c.wire| && !s.reset && Drain(s.t.c.wire[..s.read]) == Outcome(s.frames, s.residue, false)
  }

  predicate SystemInv(s: System) {
    TraceInv(s.t) && Encodes(s.t.accepted, s.sent) && ReaderInv(s)
  }

  lemma PickedFrames(a: seq<seq<byte>>, b: seq<seq<byte>>, places: seq<int>)
    requires Picks(a, b, places) && AllFrames(b)
    ensures AllFrames(a)
  {
    hide IsFrame;
  }

  /** What the transport has taken is the beginning of a stream of whole packets. */
  lemma WireIsFramed(s: System)
    requires TraceInv(s.t) && Encodes(s.t.accepted, s.sent)
    ensures AllFrames(s.t.accepted) && AllFrames(s.t.handed) && AllFrames(s.t.waiting)
    ensures s.t.c.wire <= Join(s.t.handed)
  {
    hide IsFrame, Picks, Join, CapacityInv, WriteInv;
    OrderMeans(s.t);
    PickedFrames(s.t.handed, s.t.accepted, s.t.places);
    var n := |s.t.accepted| - |s.t.waiting|;
    assert forall i :: 0 <= i < |s.t.waiting| ==> s.t.waiting[i] == s.t.accepted[n + i];
  }

  lemma SenderStepKeeps(s: System, e: SystemEvent)
    requires SystemInv(s) && SystemEnabled(s, e) && !e.Read?
    ensures SystemInv(SystemStep(s, e))
  {
    hide IsFrame, TraceInv, TraceStep, Drain, PackageBytes, KeepAlivePackage, Step;
    var ev := SenderEvent(e);
    TraceStepKeeps(s.t, ev);
    WireGrows(s.t.c, ev);
    TakenIsGained(s, e);
    AcceptedGrows(s.t, ev);
    var wire, wire' := s.t.c.wire, SystemStep(s, e).t.c.wire;
    assert wire'[..s.read] == wire[..s.read];
  }

  lemma WireGrows(c: Conn, e: Event)
    requires Enabled(c, e)
    ensures c.wire <= Step(c, e).wire
  {
  }

  lemma AcceptedGrows(t: Trace, e: Event)
    requires Enabled(t.c, e)
    ensures TraceStep(t, e).accepted == t.accepted + Taken(t.c, e)
  {
  }

  /** A message taken is the encoding of the packet gained, and short enough to be a frame. */
  lemma TakenIsGained(s: System, e: SystemEvent)
    requires SystemEnabled(s, e) && !e.Read?
    ensures Encodes(Taken(s.t.c, SenderEvent(e)), Gained(s, e))
  {
    hide IsFrame, HeaderBytes;
    var ev := SenderEvent(e);
    if Taken(s.t.c, ev) != [] {
      var p := if e.SendPackage? then e.p else KeepAlivePackage();
      assert Offered(s.t.c, ev) == PackageBytes(p);
      PackageIsFrame(p);
    }
  }

  lemma ReadStepKeeps(s: System, e: SystemEvent)
    requires SystemInv(s) && SystemEnabled(s, e) && e.Read?
    ensures SystemInv(SystemStep(s, e))
  {
    hide Drain, TraceInv, Join, Encodes, Framing.Complete;
    var wire, n := s.t.c.wire, s.read + e.n;
    WireIsFramed(s);
    DrainCut(s.t.handed, n);
    assert wire[..n] == Join(s.t.handed)[..n] == wire[..s.read] + wire[s.read..n];
    DrainAppend(wire[..s.read], wire[s.read..n]);
  }

  lemma {:induction false} SystemRunKeeps(s: System, es: seq<SystemEvent>)
    requires SystemInv(s) && SystemPossible(s, es)
    ensures SystemInv(SystemRun(s, es))
    decreases |es|
  {
    hide SystemInv, SystemStep, SystemEnabled;
    if es != [] {
      if es[0].Read? {
        ReadStepKeeps(s, es[0]);
      } else {
        SenderStepKeeps(s, es[0]);
      }
      SystemRunKeeps(SystemStep(s, es[0]), es[1..]);
    }
  }

  lemma SystemStartKeeps(now: int)
    ensures SystemInv(SystemStart(now))
  {
  }

  // ----- What a receiver gets -----

  /** The packets as a receiver sees them. */
  function ReceivedAll(sent: seq<Sendable>): (r: seq<Package>)
    ensures |r| == |sent|
  {
    seq(|sent|, i requires 0 <= i < |sent| => Received(sent[i]))
  }

  lemma ParseEncoded(messages: seq<seq<byte>>, sent: seq<Sendable>)
    requires Encodes(messages, sent)
    ensures AllFrames(messages) && ParseAll(messages) == ReceivedAll(sent)
  {
    hide IsFrame, PackageBytes, ParsePackage, Received;
    forall i | 0 <= i < |messages|
      ensures ParsePackage(messages[i]) == Received(sent[i])
    {
      PackageRoundTrip(sent[i]);
    }
  }

  lemma ParsePicks(a: seq<seq<byte>>, b: seq<seq<byte>>, places: seq<int>)
    requires AllFrames(a) && AllFrames(b) && Picks(a, b, places)
    ensures Picks(ParseAll(a), ParseAll(b), places)
  {
    hide IsFrame, ParsePackage;
  }

  /** The frames dispatched are the first of those handed to async_write. */
  lemma FramesAreHanded(s: System)
    requires SystemInv(s)
    ensures s.frames <= s.t.handed && AllFrames(s.t.handed)
    ensures s.t.c.wire == Join(s.t.handed) && s.read == |s.t.c.wire| ==> s.frames == s.t.handed && s.residue == []
  {
    hide Drain, Join, Framing.Complete, Encodes, IsFrame, CapacityInv, WriteInv, OrderInv;
    WireIsFramed(s);
    var all := Join(s.t.handed);
    assert s.t.c.wire[..s.read] == all[..s.read];
    DrainCut(s.t.handed, s.read);
    if s.t.c.wire == all && s.read == |s.t.c.wire| {
      DrainStream(s.t.handed, []);
      DrainPartial([]);
      assert s.t.handed + [] == s.t.handed && all + [] == all == all[..s.read];
    }
  }

  lemma NothingLeft(t: Trace)
    requires TraceInv(t) && t.c.connected && Queued(t.c) == []
    ensures t.c.wire == Join(t.handed) && t.waiting == []
  {
  }

  /** The sender's counters for the first m messages handed over. */
  lemma FirstHanded(t: Trace, m: nat)
    requires OrderInv(t) && m <= |t.handed|
    ensures |t.places| == |t.handed|
    ensures Picks(t.handed[..m], t.accepted, t.places[..m])
    ensures InPlace(t.places[..m]) <==> m <= t.onTime
  {
    OrderMeans(t);
    if m > t.onTime {
      assert t.places[..m][t.onTime] != t.onTime;
    }
  }

  /** What a receiver that was given `got` can say of the packets accepted. They are some of them, in
      order; in place, the first of them, if and only if no more were delivered than were handed
      over before a message was dropped; distinct packets tell the cases apart by value. Once
      nothing waits, is in flight or unread, all were delivered but the dropped ones. */
  predicate Delivered(s: System, got: seq<Package>) {
    && |got| <= |s.t.places|
    && var all, places := ReceivedAll(s.sent), s.t.places[..|got|];
       && Picks(got, all, places)
       && (InPlace(places) <==> |got| <= s.t.onTime)
       && (|got| <= s.t.onTime || s.t.dropped == 0 ==> got <= all)
       && (Distinct(all) ==> (got <= all <==> |got| <= s.t.onTime))
       && (s.t.c.connected && Queued(s.t.c) == [] && s.read == |s.t.c.wire| ==>
             s.residue == [] && |got| + s.t.dropped == |all| && (got == all <==> s.t.dropped == 0))
  }

  /** In every reachable state, however sends, completions, failures and reads interleave and
      wherever the reads cut the stream: the parser was never reset, and the packets delivered relate to
      those accepted as Delivered says. Nothing was dropped if and only if no step of the sender
      overflowed, or ended the session, while something waited. */
  lemma EndToEnd(now: int, es: seq<SystemEvent>)
    requires SystemPossible(SystemStart(now), es)
    ensures Possible(Started(now), SenderEvents(es))
    ensures var s := SystemRun(SystemStart(now), es);
            && AllFrames(s.frames) && !s.reset
            && Delivered(s, ParseAll(s.frames))
            && (s.t.dropped == 0 <==> NeverDrops(Started(now), SenderEvents(es)))
  {
    hide SystemPossible, SystemStart, SystemRun, SenderEvents, Encodes, IsFrame, ParsePackage, Received, ReceivedAll;
    hide Join, BytesInv, CapacityInv, WriteInv, Queued, Drain, Picks, InPlace, Distinct, NeverDrops, TraceRun, Possible;
    SystemStartKeeps(now);
    SystemRunKeeps(SystemStart(now), es);
    SenderRun(SystemStart(now), es);
    SystemStarts(now);
    TraceStartKeeps(now);
    TraceRunKeeps(TraceStart(now), SenderEvents(es));
    var s := SystemRun(SystemStart(now), es);
    FramesAreHanded(s);
    WireIsFramed(s);
    ParseEncoded(s.t.accepted, s.sent);
    var m := |s.frames|;
    FirstHanded(s.t, m);
    assert s.t.handed[..m] == s.frames;
    PickedFrames(s.frames, s.t.accepted, s.t.places[..m]);
    ParsePicks(s.frames, s.t.accepted, s.t.places[..m]);
    InPlaceIsPrefix(ParseAll(s.frames), ReceivedAll(s.sent), s.t.places[..m]);
    if s.t.c.connected && Queued(s.t.c) == [] && s.read == |s.t.c.wire| {
      NothingLeft(s.t);
    }
  }

  lemma StartIsSound(now: int)
    ensures CapacityInv(Started(now)) && WriteInv(Started(now))
  {
  }

  lemma SystemStarts(now: int)
    ensures SystemStart(now).t == TraceStart(now) && TraceStart(now).c == Started(now) && TraceStart(now).dropped == 0
  {
  }

  /** Framing survives overflow and close: the buffers handed to async_write over any run
      concatenate to whole packets. */
  lemma HandedBytesAreFramed(now: int, es: seq<SystemEvent>)
    requires SystemPossible(SystemStart(now), es)
    ensures var s := SystemRun(SystemStart(now), es);
            && AllFrames(s.t.handed)
            && Join(s.t.c.handed) == Join(s.t.handed)
            && Drain(Join(s.t.c.handed)) == Outcome(s.t.handed, [], false)
            && s.t.c.wire <= Join(s.t.c.handed)
  {
    hide SystemPossible, SystemStart, SystemRun, Encodes, IsFrame, Join;
    hide CapacityInv, WriteInv, OrderInv, Drain, ReaderInv;
    SystemStartKeeps(now);
    SystemRunKeeps(SystemStart(now), es);
    var s := SystemRun(SystemStart(now), es);
    WireIsFramed(s);
    DrainStream(s.t.handed, []);
    DrainPartial([]);
    assert s.t.handed + [] == s.t.handed && Join(s.t.handed) + [] == Join(s.t.handed);
  }

  // ----- Everything accepted can arrive -----

  lemma {:induction false} RunAppend(s: System, es: seq<SystemEvent>, fs: seq<SystemEvent>)
    requires SystemPossible(s, es) && SystemPossible(SystemRun(s, es), fs)
    ensures SystemPossible(s, es + fs) && SystemRun(s, es + fs) == SystemRun(SystemRun(s, es), fs)
    decreases |es|
  {
    hide SystemStep, SystemEnabled;
    if es == [] {
      assert es + fs == fs;
    } else {
      assert (es + fs)[0] == es[0] && (es + fs)[1..] == es[1..] + fs;
      RunAppend(SystemStep(s, es[0]), es[1..], fs);
    }
  }

  /** What stays as it is while the transport and the receiver finish their work. */
  predicate SamePackets(r: System, s: System) {
    && r.sent == s.sent && r.t.dropped == s.t.dropped && r.t.c.connected == s.t.c.connected
    && r.t.handed + r.t.waiting == s.t.handed + s.t.waiting
  }

  /** Nothing but the transport's progress, successful completions and reads. */
  predicate CompletionsAndReads(es: seq<SystemEvent>) {
    forall i :: 0 <= i < |es| ==> es[i].Read? || (es[i].Local? && (es[i].e.Transferred? || es[i].e.WriteDone?))
  }

  /** The transport takes the rest of the outstanding write and reports success. */
  lemma FinishWrite(s: System, now: int) returns (es: seq<SystemEvent>)
    requires SystemInv(s) && s.t.c.write.Some? && s.t.c.connected
    ensures SystemPossible(s, es) && CompletionsAndReads(es)
    ensures var r := SystemRun(s, es);
            && SystemInv(r) && SamePackets(r, s) && r.t.c.waiting == []
            && (s.t.c.waiting == [] ==> r.t.c.write == None)
  {
    hide SystemStep, BytesInv, OrderInv, CapacityInv, Encodes, ReaderInv, WriteInv, Enabled, Step;
    FinishSteps(s.t.c, now);
    var e1 := Local(Transferred(|Unmoved(s.t.c)|));
    SenderStepKeeps(s, e1);
    QuietStep(s, Transferred(|Unmoved(s.t.c)|));
    var s1 := SystemStep(s, e1);
    var e2 := Local(WriteDone(now));
    SenderStepKeeps(s1, e2);
    QuietStep(s1, WriteDone(now));
    var s2 := SystemStep(s1, e2);
    RunOne(s, e1);
    RunOne(s1, e2);
    RunAppend(s, [e1], [e2]);
    es := [e1] + [e2];
  }

  lemma RunOne(s: System, e: SystemEvent)
    requires SystemEnabled(s, e)
    ensures SystemPossible(s, [e]) && SystemRun(s, [e]) == SystemStep(s, e)
  {
  }

  lemma FinishSteps(c: Conn, now: int)
    requires WriteInv(c) && c.write.Some?
    ensures Enabled(c, Transferred(|Unmoved(c)|))
    ensures var d := Step(c, Transferred(|Unmoved(c)|));
            && Enabled(d, WriteDone(now)) && d.connected == c.connected
            && var f := Step(d, WriteDone(now));
               f.connected == c.connected && f.waiting == [] && (c.waiting == [] ==> f.write == None)
  {
  }

  /** Progress and completions accept nothing and lose nothing. */
  lemma QuietStep(s: System, e: Event)
    requires SystemInv(s) && s.t.c.connected && SystemEnabled(s, Local(e)) && (e.Transferred? || e.WriteDone?)
    ensures var r := SystemStep(s, Local(e)); r.t.c == Step(s.t.c, e) && SamePackets(r, s)
  {
    hide Step, Join, BytesInv, OrderInv, CapacityInv, Encodes, ReaderInv, OverflowsAt, Enabled;
    TraceStepKeeps(s.t, e);
    NoOverflow(s.t.c, e);
    QuietConn(s.t.c, e);
    assert s.t.waiting + [] == s.t.waiting && s.t.handed + s.t.waiting + [] == s.t.handed + s.t.waiting;
  }

  lemma QuietConn(c: Conn, e: Event)
    requires Enabled(c, e) && (e.Transferred? || e.WriteDone?)
    ensures Step(c, e).connected == c.connected
  {
  }

  /** Completions alone bring the sender to rest. */
  lemma {:induction false} Flush(s: System, now: int) returns (es: seq<SystemEvent>)
    requires SystemInv(s) && s.t.c.connected
    ensures SystemPossible(s, es) && CompletionsAndReads(es)
    ensures var r := SystemRun(s, es); SystemInv(r) && SamePackets(r, s) && Queued(r.t.c) == []
    decreases s.t.c.waiting != [], s.t.c.write.Some?
  {
    hide SystemStep, SystemEnabled, BytesInv, OrderInv, CapacityInv, Encodes, ReaderInv;
    if s.t.c.write.None? {
      es := [];
    } else {
      var first := FinishWrite(s, now);
      var r := SystemRun(s, first);
      var more := Flush(r, now);
      RunAppend(s, first, more);
      es := first + more;
    }
  }

  /** Reading in pieces of at most the receive buffer's size reaches the end of the wire. */
  lemma {:induction false} ReadAll(s: System, now: int) returns (es: seq<SystemEvent>)
    requires SystemInv(s)
    ensures SystemPossible(s, es) && CompletionsAndReads(es)
    ensures var r := SystemRun(s, es); SystemInv(r) && r.t == s.t && r.sent == s.sent && r.read == |s.t.c.wire|
    decreases |s.t.c.wire| - s.read
  {
    hide Drain, TraceInv, Encodes;
    var left := |s.t.c.wire| - s.read;
    if left == 0 {
      es := [];
    } else {
      var e := Read(if left < RECV_BUF_SIZE then left else RECV_BUF_SIZE, now);
      ReadStepKeeps(s, e);
      var more := ReadAll(SystemStep(s, e), now);
      es := [e] + more;
      assert es[1..] == more;
    }
  }

  /** From every reachable state of a sender that is connected, and was never offered more than fits
      the 64 MB that may wait, completions and reads alone deliver every packet accepted so far. (A
      refusal posts an error to the strand, which ends the session before any completion that comes
      behind it.) */
  lemma EverythingArrives(start: int, es: seq<SystemEvent>, now: int) returns (rest: seq<SystemEvent>)
    requires SystemPossible(SystemStart(start), es)
    requires WithinLimit(Started(start), SenderEvents(es)) && SystemRun(SystemStart(start), es).t.c.connected
    ensures var s := SystemRun(SystemStart(start), es);
            && SystemPossible(s, rest) && CompletionsAndReads(rest)
            && var r := SystemRun(s, rest);
               && r.sent == s.sent && AllFrames(r.frames) && r.residue == [] && !r.reset
               && r.frames == s.t.handed + s.t.waiting == s.t.accepted
               && ParseAll(r.frames) == ReceivedAll(s.sent)
  {
    hide SystemPossible, SystemRun, SystemStart, Queued, Drain, Encodes, IsFrame, ParsePackage, Received;
    hide Join, BytesInv, CapacityInv, WriteInv, Picks, SenderEvents, Possible, TraceRun, NeverDrops, NeverRefuses, WithinLimit;
    SystemStartKeeps(start);
    SystemRunKeeps(SystemStart(start), es);
    var s := SystemRun(SystemStart(start), es);
    SenderRun(SystemStart(start), es);
    SystemStarts(start);
    TraceStartKeeps(start);
    StartIsSound(start);
    RefusesExactly(Started(start), SenderEvents(es));
    StillUp(TraceStart(start), SenderEvents(es));
    TraceRunKeeps(TraceStart(start), SenderEvents(es));
    OrderMeans(s.t);
    var flush := Flush(s, now);
    var f := SystemRun(s, flush);
    var readings := ReadAll(f, now);
    RunAppend(s, flush, readings);
    rest := flush + readings;
    var r := SystemRun(f, readings);
    NothingLeft(r.t);
    FramesAreHanded(r);
    ParseEncoded(r.t.accepted, r.sent);
    OrderMeans(r.t);
    assert r.t.handed + [] == r.t.handed;
  }
}

/** Two connections with a byte stream between them: the classes run any sequence of events, and
    arrive where the value-level model says. */
module Link {
  import opened Bytes
  import opened Packages
  import opened Framing
  import opened PackageParser
  import opened SendModel
  import opened Messages
  import opened SendRuns
  import opened Connection
  import opened Transport

  /** Let a connection undergo one event other than a send. */
  method Perform(c: NetConnection, e: Event, manager: NetManager)
    requires c.Valid() && Enabled(c.Value(), e) && !e.Sent?
    modifies c, c.socket, c.waitingBuf, c.pkgParser, c.pkgParser.dataBuf, manager
    ensures c.Valid() && c.Value() == Step(old(c.Value()), e)
    ensures fresh(c.Repr() - old(c.Repr()))
  {
    hide Step, Enabled;
    match e
    case KeepAlive(now, interval) =>
      c.keepAliveInterval := interval;
      c.DoSendKeepAlive(now);
    case Transferred(n) =>
      TransferOnArray(c, n);
    case WriteDone(now) =>
      CompletionIsWhole(c.Value(), now);
      c.HandleSendData(false, now);
    case WriteFailed =>
      FailureIsPending(c.Value());
      c.HandleSendData(true, 0);
    case ReadDone(now) =>
      ReadNothing(c, now, manager);
    case ErrorRaised =>
      c.HandleConnectionError();
      StepIs(old(c.Value()), e);
    case Closed =>
      c.DoClose();
      StepIs(old(c.Value()), e);
    case TimeoutCheck(now, interval) =>
      c.timeoutInterval := interval;
      var rearm := c.DoTimeoutCheck(now);
  }

  /** A read that completes without bytes. */
  method ReadNothing(c: NetConnection, now: int, manager: NetManager)
    requires c.Valid()
    modifies c, c.pkgParser, c.pkgParser.dataBuf, manager
    ensures c.Valid() && c.Value() == Step(old(c.Value()), ReadDone(now))
    ensures fresh(c.Repr() - old(c.Repr()))
  {
    hide Step, Enabled;
    c.HandleRecvData(false, [], 0, now, manager);
  }

  lemma CompletionIsWhole(c: Conn, now: int)
    requires Enabled(c, WriteDone(now))
    ensures c.write.Some? && c.write.value.moved == |c.write.value.bytes|
  {
  }

  lemma FailureIsPending(c: Conn)
    requires Enabled(c, WriteFailed)
    ensures c.write.Some?
  {
  }

  lemma StepIs(c: Conn, e: Event)
    requires Enabled(c, e)
    ensures e.ErrorRaised? ==> Step(c, e) == Fail(c)
    ensures e.Closed? ==> Step(c, e) == Close(c)
    ensures e.Transferred? ==> Step(c, e) == Transfer(c, e.n)
  {
  }

  /** The transport takes n bytes as they stand in the sender's buffer. */
  method TransferOnArray(c: NetConnection, n: nat)
    requires c.Valid() && Enabled(c.Value(), Transferred(n))
    modifies c.socket
    ensures c.Valid() && c.Value() == Step(old(c.Value()), Transferred(n))
  {
    hide Send, DoSend, Fail, Close, PackageBytes;
    ghost var bytes := c.sendBuf[..c.socket.len];
    assert bytes[c.socket.moved..c.socket.moved + n] == c.sendBuf[c.socket.moved..c.socket.moved + n];
    c.socket.Transfer(n);
  }

  /** Send a packet on a connection. */
  method SendOn(c: NetConnection, p: Sendable)
    requires c.Valid() && HEADER_LENGTH + |p.content| + |c.Value().waiting| <= INT32_MAX
    modifies c, c.socket, c.waitingBuf
    ensures c.Valid() && c.Value() == Send(old(c.Value()), PackageBytes(p))
    ensures fresh(c.Repr() - old(c.Repr()))
  {
    hide Send, Accepts, PackageBytes;
    var package := Wrap(p);
    var ok := c.SendData(package);
  }

  /** A read that completes with the bytes of `chunk`. */
  method ReadOn(c: NetConnection, chunk: seq<byte>, now: int, manager: NetManager)
    requires c.Valid() && chunk != []
    modifies c, c.pkgParser, c.pkgParser.dataBuf, manager
    ensures c.Valid() && fresh(c.Repr() - old(c.Repr()))
    ensures var o := Drain(old(c.pkgParser.Buffered()) + chunk);
            && AllFrames(o.frames)
            && manager.packages == old(manager.packages) + ParseAll(o.frames)
            && c.pkgParser.Buffered() == o.rest
  {
    hide Step, Drain, ParsePackage, IsFrame;
    assert chunk[..|chunk|] == chunk;
    c.HandleRecvData(false, chunk, |chunk|, now, manager);
  }

  /** A connection whose session starts now. */
  method Opened(now: int) returns (c: NetConnection)
    ensures c.Valid() && fresh(c.Repr())
    ensures c.Value() == Started(now) && c.pkgParser.Buffered() == []
  {
    c := new NetConnection();
    c.Start(now);
  }

  class Link {
    const sender: NetConnection
    const senderManager: NetManager
    const receiver: NetConnection
    const receiverManager: NetManager
    /** How many bytes of the wire the receiver has read. */
    var read: nat
    ghost var value: System

    ghost function Repr(): set<object>
      reads this, sender, sender.pkgParser, receiver, receiver.pkgParser
    {
      {this, senderManager, receiverManager} + sender.Repr() + receiver.Repr()
    }

    /** The two connections share nothing, and the objects are in the state `value` describes. */
    ghost predicate Valid()
      reads this, Repr()
    {
      && sender.Repr() !! receiver.Repr() && senderManager != receiverManager
      && sender.Valid() && receiver.Valid()
      && value.t.c == sender.Value()
      && value.read == read
      && receiver.pkgParser.Buffered() == value.residue
      && AllFrames(value.frames) && receiverManager.packages == ParseAll(value.frames)
    }

    constructor (now: int, a: NetConnection, b: NetConnection)
      requires a.Valid() && b.Valid() && a.Repr() !! b.Repr()
      requires a.Value() == Started(now) && b.pkgParser.Buffered() == []
      ensures Valid() && sender == a && receiver == b && fresh(Repr() - a.Repr() - b.Repr())
      ensures value == SystemStart(now)
    {
      hide IsFrame;
      sender, receiver := a, b;
      senderManager := new NetManager();
      receiverManager := new NetManager();
      read := 0;
      value := SystemStart(now);
    }

    /** The sender sends a packet. */
    method SendPackage(p: Sendable)
      requires Valid() && SystemEnabled(value, SystemEvent.SendPackage(p))
      modifies sender, sender.socket, sender.waitingBuf, this`value
      ensures Valid() && value == SystemStep(old(value), SystemEvent.SendPackage(p))
      ensures fresh(Repr() - old(Repr()))
    {
      hide SystemStep, SystemEnabled, Send, PackageBytes, AllFrames, ParseAll;
      SendIsStep(value, p);
      value := SystemStep(value, SystemEvent.SendPackage(p));
      SendOn(sender, p);
    }

    static lemma SendIsStep(s: System, p: Sendable)
      requires SystemEnabled(s, SystemEvent.SendPackage(p))
      ensures HEADER_LENGTH + |p.content| + |s.t.c.waiting| <= INT32_MAX
      ensures var r := SystemStep(s, SystemEvent.SendPackage(p));
              && r.t.c == Send(s.t.c, PackageBytes(p))
              && r.read == s.read && r.residue == s.residue && r.frames == s.frames
    {
    }

    /** Any other step of the sender. */
    method Local(e: Event)
      requires Valid() && SystemEnabled(value, SystemEvent.Local(e))
      modifies sender, sender.socket, sender.waitingBuf, sender.pkgParser, sender.pkgParser.dataBuf
      modifies senderManager, this`value
      ensures Valid() && value == SystemStep(old(value), SystemEvent.Local(e))
      ensures fresh(Repr() - old(Repr()))
    {
      hide SystemStep, Step, Enabled, IsFrame, ParsePackage;
      LocalIsStep(value, e);
      value := SystemStep(value, SystemEvent.Local(e));
      Perform(sender, e, senderManager);
    }

    static lemma LocalIsStep(s: System, e: Event)
      requires SystemEnabled(s, SystemEvent.Local(e))
      ensures var r := SystemStep(s, SystemEvent.Local(e));
              && Enabled(s.t.c, e) && r.t.c == Step(s.t.c, e)
              && r.read == s.read && r.residue == s.residue && r.frames == s.frames
    {
    }

    /** The receiver reads n bytes off the wire. */
    method Read(n: nat, now: int)
      requires Valid() && SystemEnabled(value, SystemEvent.Read(n, now))
      modifies receiver, receiver.pkgParser, receiver.pkgParser.dataBuf, receiverManager, this`read, this`value
      ensures Valid() && value == SystemStep(old(value), SystemEvent.Read(n, now))
      ensures fresh(Repr() - old(Repr()))
    {
      hide Drain, ParsePackage, IsFrame, AllFrames, SystemStep, SystemEnabled;
      ReadIsStep(value, n, now);
      var chunk := sender.socket.wire[read..read + n];
      ghost var o := Drain(value.residue + chunk);
      ghost var frames := value.frames;
      value := SystemStep(value, SystemEvent.Read(n, now));
      ReadOn(receiver, chunk, now, receiverManager);
      ParseAppend(frames, o.frames);
      read := read + n;
    }

    static lemma ReadIsStep(s: System, n: nat, now: int)
      requires SystemEnabled(s, SystemEvent.Read(n, now))
      ensures 0 < n && s.read + n <= |s.t.c.wire|
      ensures var o := Drain(s.residue + s.t.c.wire[s.read..s.read + n]);
              var r := SystemStep(s, SystemEvent.Read(n, now));
              r.t == s.t && r.read == s.read + n && r.residue == o.rest && r.frames == s.frames + o.frames
    {
    }

    method Advance(e: SystemEvent)
      requires Valid() && SystemEnabled(value, e)
      modifies Repr()
      ensures Valid() && value == SystemStep(old(value), e)
      ensures fresh(Repr() - old(Repr()))
    {
      hide SystemStep, SystemEnabled, IsFrame, ParsePackage;
      match e
      case SendPackage(p) => SendPackage(p);
      case Local(e) => Local(e);
      case Read(n, now) => Read(n, now);
    }

    method Run(es: seq<SystemEvent>)
      requires Valid() && SystemPossible(value, es)
      modifies Repr()
      ensures Valid() && value == SystemRun(old(value), es)
      decreases |es|
    {
      hide Link.Valid, Link.Repr, SystemStep, SystemEnabled;
      if es != [] {
        Advance(es[0]);
        Run(es[1..]);
      }
    }

  }

  /** Run any possible sequence of events on fresh connections: the objects end where the model
      does, and the packets that the receiver's manager was given relate to those accepted as in
      the model. */
  method Drive(now: int, es: seq<SystemEvent>) returns (link: Link)
    requires SystemPossible(SystemStart(now), es)
    ensures link.Valid() && link.value == SystemRun(SystemStart(now), es)
    ensures Delivered(link.value, link.receiverManager.packages)
    ensures Possible(Started(now), SenderEvents(es))
    ensures link.value.t.dropped == 0 <==> NeverDrops(Started(now), SenderEvents(es))
  {
    hide SystemPossible, SystemRun, SystemStart, Delivered, IsFrame, ParsePackage, Possible, NeverDrops, SenderEvents;
    var a := Opened(now);
    var b := Opened(now);
    link := new Link(now, a, b);
    link.Run(es);
    EndToEnd(now, es);
  }
}

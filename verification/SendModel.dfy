/** The send path of NetConnection.cpp as a state machine on values: the specification the
    class in Connection.dfy is proved against. */
module SendModel {
  import opened Bytes
  import opened Packages
  import opened Wrappers

  const MAX_SEND_BUF_SIZE: nat := 1024 * 1024 * 64
  const MIN_SEND_BUF_SIZE: nat := 1024 * 64

  /** An outstanding async_write: its bytes, and how many of them the transport has taken. */
  datatype Write = Write(bytes: seq<byte>, moved: nat)

  datatype Conn = Conn(
    connected: bool,
    waiting: seq<byte>,        // m_waitingBuf[..m_waitingPos]
    waitCap: nat,              // m_waitingBufLen
    sendCap: nat,              // m_sendBufLen
    sending: bool,
    ave: nat,                  // m_sendAveSize
    write: Option<Write>,
    wire: seq<byte>,           // bytes the transport has taken since the start
    handed: seq<seq<byte>>,    // the buffers handed to async_write since the start
    lastSend: int,
    lastRecv: int,
    notified: nat)             // calls of the manager's onConnectionError

  /** A connection whose session has just started. */
  function Started(now: int): Conn {
    Conn(true, [], 0, 0, false, 0, None, [], [], now, now, 0)
  }

  /** `c` doubled until `need` fits. */
  function Doubled(c: nat, need: nat): (r: nat)
    requires c > 0
    decreases need - c
  {
    if need <= c then c else Doubled(2 * c, need)
  }

  /** The new size of a waiting buffer that must hold `need` bytes. */
  function GrownCap(need: nat): nat {
    Doubled(MIN_SEND_BUF_SIZE, need)
  }

  /** The weighted average 0.98 * ave + 0.02 * n, truncated. */
  function Average(ave: nat, n: nat): nat {
    if ave > 0 then (98 * ave + 2 * n) / 100 else n
  }

  /** The size of the idle buffer after a write, given the average write. */
  function ShrunkCap(cap: nat, ave: nat): nat {
    if ave > MIN_SEND_BUF_SIZE && cap > 2 * MIN_SEND_BUF_SIZE && ave < cap / 4 then cap / 2 else cap
  }

  /** Swap the buffers and hand everything that waits to the transport. */
  function HandOver(c: Conn): Conn {
    c.(waiting := [], sendCap := c.waitCap, waitCap := c.sendCap, sending := true,
       write := Some(Write(c.waiting, 0)), handed := c.handed + [c.waiting])
  }

  /** Memory control after a write of n bytes. */
  function Economize(c: Conn, n: nat): Conn {
    var ave := Average(c.ave, n);
    c.(ave := ave, waitCap := ShrunkCap(c.waitCap, ave))
  }

  /** doSendData: start a write of what waits, or become idle. */
  function DoSend(c: Conn): Conn {
    if c.waiting == [] then c.(sending := false) else Economize(HandOver(c), |c.waiting|)
  }

  /** Append to the waiting buffer, growing it when it is too small. */
  function Enqueue(c: Conn, data: seq<byte>): Conn {
    var need := |data| + |c.waiting|;
    c.(waiting := c.waiting + data, waitCap := if need > c.waitCap then GrownCap(need) else c.waitCap)
  }

  predicate Overflows(c: Conn, data: seq<byte>) {
    |data| + |c.waiting| > MAX_SEND_BUF_SIZE
  }

  /** sendDataAsync of the whole of `data`. */
  function Send(c: Conn, data: seq<byte>): Conn {
    if !c.connected || data == [] then c
    else if Overflows(c, data) then c.(waiting := [])
    else
      var full := Enqueue(c, data);
      if c.sending then full else DoSend(full)
  }

  /** What sendDataAsync returns. */
  predicate Accepts(c: Conn, data: seq<byte>) {
    c.connected && (data == [] || !Overflows(c, data))
  }

  function Close(c: Conn): Conn {
    c.(connected := false, waiting := [], sending := false)
  }

  /** handleConnectionError. */
  function Fail(c: Conn): Conn {
    if c.connected then Close(c).(notified := c.notified + 1) else c
  }

  /** The packet that doSendKeepAlive builds: a header and four zero bytes. */
  function KeepAlivePackage(): Package {
    Package(Header(HEADER_LENGTH + 4, 0, CMD_KEEPALIVE, Flag(0, 0, 0, 0, 0)), Zeros(4))
  }

  /** The bytes of a keep-alive: length 16, command 1, and nothing else set. A receiver takes them for
      a whole packet and reads it as it was built. */
  lemma KeepAliveOnWire()
    ensures PackageBytes(KeepAlivePackage()) == [0, 0, 0, 16, 0, 0, 0, 0, 0, 1, 0, 0, 0, 0, 0, 0]
    ensures |PackageBytes(KeepAlivePackage())| == 16
    ensures ParsePackage(PackageBytes(KeepAlivePackage())) == KeepAlivePackage()
  {
    hide ParseHeader;
    PackageRoundTrip(KeepAlivePackage());
    assert PackageBytes(KeepAlivePackage())[12..] == [0, 0, 0, 0];
  }

  predicate KeepAliveDue(c: Conn, now: int, interval: int) {
    now - c.lastSend > interval
  }

  /** What can happen to a connection, one step at a time. */
  datatype Event =
    | Sent(data: seq<byte>)                   // sendDataAsync
    | KeepAlive(now: int, interval: int)      // doSendKeepAlive
    | Transferred(n: nat)                     // the transport takes n more bytes of the write
    | WriteDone(now: int)                     // handleSendData without an error
    | WriteFailed                             // handleSendData with an error
    | ReadDone(now: int)                      // handleRecvData without an error
    | ErrorRaised                             // handleConnectionError
    | Closed                                  // doClose
    | TimeoutCheck(now: int, interval: int)   // doTimeoutCheck

  predicate Enabled(c: Conn, e: Event) {
    match e
    case Sent(data) => |data| + |c.waiting| <= INT32_MAX   // the sum is an r_int32
    case Transferred(n) => c.write.Some? && c.write.value.moved + n <= |c.write.value.bytes|
    case WriteDone(_) => c.write.Some? && c.write.value.moved == |c.write.value.bytes|
    case WriteFailed => c.write.Some?
    case _ => true
  }

  function Transfer(c: Conn, n: nat): Conn
    requires Enabled(c, Transferred(n))
  {
    var Write(bytes, moved) := c.write.value;
    c.(write := Some(Write(bytes, moved + n)), wire := c.wire + bytes[moved..moved + n])
  }

  function Step(c: Conn, e: Event): Conn
    requires Enabled(c, e)
  {
    match e
    case Sent(data) => Send(c, data)
    case KeepAlive(now, interval) => if KeepAliveDue(c, now, interval) then Send(c, PackageBytes(KeepAlivePackage())) else c
    case Transferred(n) => Transfer(c, n)
    case WriteDone(now) => DoSend(c.(write := None, lastSend := now))
    case WriteFailed => Fail(c.(write := None))
    case ReadDone(now) => c.(lastRecv := now)
    case ErrorRaised => Fail(c)
    case Closed => Close(c)
    case TimeoutCheck(now, interval) => if now - c.lastRecv >= interval then Fail(c) else c
  }
}

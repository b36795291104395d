/** NetConnection.cpp: two send buffers that swap, and the handlers that drive them. */
module Connection {
  import opened Bytes
  import opened Packages
  import opened PackageParser
  import opened Framing
  import opened SendModel
  import opened Wrappers

  /** The transport under a connection. An async_write keeps a reference to the caller's buffer
      and takes its bytes at moments of its own choosing, until it completes or fails. */
  class StreamSocket {
    var pending: bool
    var buf: array<byte>
    var len: nat
    var moved: nat
    var wire: seq<byte>

    constructor ()
      ensures !pending && wire == []
    {
      pending, len, moved, wire := false, 0, 0, [];
      buf := new byte[0];
    }

    method AsyncWrite(b: array<byte>, n: nat)
      requires !pending && n <= b.Length
      modifies this
      ensures pending && buf == b && len == n && moved == 0 && wire == old(wire)
    {
      pending, buf, len, moved := true, b, n, 0;
    }

    /** Take n more bytes, as they stand in the buffer now. */
    method Transfer(n: nat)
      requires pending && moved + n <= len <= buf.Length
      modifies this`moved, this`wire
      ensures moved == old(moved) + n && wire == old(wire) + buf[old(moved)..moved]
    {
      wire := wire + buf[moved..moved + n];
      moved := moved + n;
    }

    method Finish()
      requires pending
      modifies this`pending
      ensures !pending
    {
      pending := false;
    }
  }

  /** Encode a packet into a vector of its own. */
  method Encoded(package: NetPackage) returns (bytes: seq<byte>)
    requires HEADER_LENGTH + |package.pkgContent| <= INT32_MAX
    modifies package.pkgHeader
    ensures bytes == PackageBytes(old(package.Value()))
  {
    hide PackageBytes, Spliced;
    SpliceAlone(PackageBytes(package.Value()));
    var data := new ByteVector([]);
    var pos := package.Encode(data, 0);
    bytes := data.buf[..];
  }

  class NetConnection {
    const socket: StreamSocket
    const pkgParser: NetPackageParser
    var connected: bool
    var waitingBuf: array<byte>
    var waitingBufLen: nat
    var sendBuf: array<byte>
    var sendBufLen: nat
    var waitingPos: nat
    var sending: bool
    var sendAveSize: nat
    var lastSendTime: int
    var lastRecvTime: int
    var timeoutInterval: int
    var keepAliveInterval: int
    /** How often the manager's onConnectionError was called. */
    var notified: nat
    /** The buffers handed to async_write so far. */
    ghost var handed: seq<seq<byte>>

    ghost function Repr(): set<object>
      reads this, pkgParser
    {
      {this, socket, waitingBuf, sendBuf, pkgParser, pkgParser.dataBuf}
    }

    /** Sizes agree with storage, the buffers are distinct, and an outstanding write is one of m_sendBuf. */
    ghost predicate Wired()
      reads this, socket, pkgParser
    {
      && waitingBufLen == waitingBuf.Length && sendBufLen == sendBuf.Length
      && waitingPos <= waitingBufLen && waitingPos <= MAX_SEND_BUF_SIZE
      && waitingBuf != sendBuf && pkgParser.dataBuf != waitingBuf && pkgParser.dataBuf != sendBuf
      && (socket.pending ==> socket.buf == sendBuf && socket.moved <= socket.len <= sendBufLen)
      && pkgParser.Valid()
    }

    /** Between two steps, m_bSending says whether a write is outstanding. */
    ghost predicate Valid()
      reads this, socket, pkgParser
    {
      && Wired()
      && (connected ==> (sending <==> socket.pending))
      && (!connected ==> waitingPos == 0 && !sending)
    }

    ghost function Value(): Conn
      requires Wired()
      reads this, socket, pkgParser, waitingBuf, sendBuf
    {
      Conn(connected, waitingBuf[..waitingPos], waitingBufLen, sendBufLen, sending, sendAveSize,
           if socket.pending then Some(Write(sendBuf[..socket.len], socket.moved)) else None,
           socket.wire, handed, lastSendTime, lastRecvTime, notified)
    }

    constructor ()
      ensures Valid() && fresh(Repr())
      ensures !connected && Value() == Started(INT32_MAX).(connected := false)
      ensures waitingPos == 0 && waitingBufLen == 0 && sendBufLen == 0 && !sending && sendAveSize == 0
      ensures lastSendTime == 0x7FFF_FFFF && lastRecvTime == 0x7FFF_FFFF && notified == 0 && !socket.pending
      ensures pkgParser.Buffered() == [] && pkgParser.dataIndex == 0
      ensures timeoutInterval == 600 && keepAliveInterval == 5
    {
      socket := new StreamSocket();
      pkgParser := new NetPackageParser();
      connected, sending := false, false;
      waitingBuf, waitingBufLen, waitingPos := new byte[0], 0, 0;
      sendBuf, sendBufLen := new byte[0], 0;
      sendAveSize := 0;
      lastSendTime, lastRecvTime := INT32_MAX, INT32_MAX;
      timeoutInterval, keepAliveInterval := 600, 5;
      notified, handed := 0, [];
    }

    /** Start the session of a connection that has not had one. */
    method Start(now: int)
      requires Valid() && !connected && !socket.pending
      modifies this`connected, this`lastSendTime, this`lastRecvTime
      ensures Valid()
      ensures Value() == old(Value()).(connected := true, lastSend := now, lastRecv := now)
    {
      connected := true;
      lastSendTime := now;
      lastRecvTime := now;
    }

    method SwapBuffers()
      modifies this`sendBuf, this`sendBufLen, this`waitingBuf, this`waitingBufLen
      ensures sendBuf == old(waitingBuf) && sendBufLen == old(waitingBufLen)
      ensures waitingBuf == old(sendBuf) && waitingBufLen == old(sendBufLen)
    {
      sendBufLen, waitingBufLen := waitingBufLen, sendBufLen;
      sendBuf, waitingBuf := waitingBuf, sendBuf;
    }

    /** Swap the buffers and start a write of all that waits. */
    method HandOverWaiting() returns (bytesSend: nat)
      requires Wired() && !socket.pending
      modifies this`sendBuf, this`sendBufLen, this`waitingBuf, this`waitingBufLen
      modifies this`waitingPos, this`sending, this`handed, socket
      ensures Wired() && waitingPos == 0 && socket.pending
      ensures bytesSend == old(waitingPos) && Value() == HandOver(old(Value()))
      ensures sendBuf == old(waitingBuf) && waitingBuf == old(sendBuf)
    {
      SwapBuffers();
      bytesSend := waitingPos;
      waitingPos := 0;
      sending := true;
      handed := handed + [sendBuf[..bytesSend]];
      socket.AsyncWrite(sendBuf, bytesSend);
    }

    /** Memory control: halve the idle buffer when the average write has become small. */
    method ControlMemory(bytesSend: nat)
      requires Wired() && waitingPos == 0
      modifies this`sendAveSize, this`waitingBuf, this`waitingBufLen
      ensures Wired()
      ensures Value() == Economize(old(Value()), bytesSend)
      ensures waitingBuf == old(waitingBuf) || fresh(waitingBuf)
    {
      sendAveSize := if sendAveSize > 0 then (sendAveSize * 98 + bytesSend * 2) / 100 else bytesSend;
      if sendAveSize > MIN_SEND_BUF_SIZE && waitingBufLen > 2 * MIN_SEND_BUF_SIZE && sendAveSize < waitingBufLen / 4 {
        waitingBufLen := waitingBufLen / 2;
        waitingBuf := Moved(waitingBuf, waitingBufLen);
      }
    }

    /** Hand everything that waits to the transport, or become idle. */
    method DoSendData()
      requires Wired() && !socket.pending
      modifies this, socket
      ensures Wired()
      ensures Value() == DoSend(old(Value()))
      ensures fresh({waitingBuf, sendBuf} - old({waitingBuf, sendBuf}))
      ensures timeoutInterval == old(timeoutInterval) && keepAliveInterval == old(keepAliveInterval)
    {
      if waitingPos == 0 {
        sending := false;
        return;
      }
      var bytesSend := HandOverWaiting();
      ControlMemory(bytesSend);
    }

    /** Append len bytes to the waiting buffer, growing it first when they do not fit. */
    method EnqueueBytes(data: seq<byte>)
      requires Wired() && |data| + waitingPos <= MAX_SEND_BUF_SIZE
      modifies this`waitingBuf, this`waitingBufLen, this`waitingPos, waitingBuf
      ensures Wired()
      ensures Value() == Enqueue(old(Value()), data)
      ensures waitingBuf == old(waitingBuf) || fresh(waitingBuf)
    {
      var needSize := |data| + waitingPos;
      if needSize > waitingBufLen {
        var resizeLen := GrownCap(needSize);
        DoubledFits(MIN_SEND_BUF_SIZE, needSize);
        waitingBuf := Moved(waitingBuf, resizeLen);
        waitingBufLen := resizeLen;
        assert waitingBuf[..waitingPos] == old(waitingBuf[..waitingPos]);
      }
      OverwriteExtends(waitingBuf[..], 0, waitingPos, data);
      CopyInto(waitingBuf, waitingPos, data);
      waitingPos := needSize;
    }

    /** Queue the first len bytes of data; false when not connected or when too much waits. */
    method SendDataAsync(data: seq<byte>, len: int) returns (ok: bool)
      requires Valid() && len <= |data| && len + waitingPos <= INT32_MAX
      modifies this, socket, waitingBuf
      ensures Valid()
      ensures var payload := if len > 0 then data[..len] else [];
              Value() == Send(old(Value()), payload) && ok == Accepts(old(Value()), payload)
      ensures ok <==> old(connected) && (len <= 0 || len + old(waitingPos) <= 0x400_0000)
      ensures fresh({waitingBuf, sendBuf} - old({waitingBuf, sendBuf}))
      ensures old(socket.pending) ==> sendBuf == old(sendBuf) && unchanged(sendBuf)
      ensures timeoutInterval == old(timeoutInterval) && keepAliveInterval == old(keepAliveInterval)
    {
      if !connected {
        return false;
      }
      if |data| > 0 && len > 0 {
        var needSize := len + waitingPos;
        if needSize > MAX_SEND_BUF_SIZE {
          waitingPos := 0;
          return false;
        }
        EnqueueBytes(data[..len]);
        if !sending {
          DoSendData();
        }
      }
      return true;
    }

    static lemma DoubledFits(c: nat, need: nat)
      requires c > 0
      ensures need <= Doubled(c, need)
      decreases need - c
    {
    }

    /** Queue a packet. */
    method SendData(package: NetPackage) returns (ok: bool)
      requires Valid() && HEADER_LENGTH + |package.pkgContent| + waitingPos <= INT32_MAX
      modifies this, socket, waitingBuf, package.pkgHeader
      ensures Valid()
      ensures var bytes := PackageBytes(old(package.Value()));
              Value() == Send(old(Value()), bytes) && ok == Accepts(old(Value()), bytes)
      ensures fresh({waitingBuf, sendBuf} - old({waitingBuf, sendBuf}))
      ensures timeoutInterval == old(timeoutInterval) && keepAliveInterval == old(keepAliveInterval)
    {
      hide Send, Accepts, PackageBytes;
      var payload := Encoded(package);
      assert payload[..|payload|] == payload;
      ok := SendDataAsync(payload, |payload|);
    }

    /** Close the session: what waits is dropped. The socket fails an outstanding write later. */
    method DoClose()
      requires Wired()
      modifies this`connected, this`waitingPos, this`sending
      ensures Valid() && Value() == Close(old(Value()))
    {
      connected := false;
      waitingPos := 0;
      sending := false;
    }

    method HandleConnectionError()
      requires Wired() && (!connected ==> waitingPos == 0 && !sending)
      modifies this`connected, this`waitingPos, this`sending, this`notified
      ensures Valid() && Value() == Fail(old(Value()))
    {
      if connected {
        DoClose();
        notified := notified + 1;
      }
    }

    /** The outstanding write has completed, or failed. */
    method HandleSendData(err: bool, now: int)
      requires Valid() && socket.pending
      requires !err ==> socket.moved == socket.len
      modifies this, socket
      ensures Valid()
      ensures Value() == Step(old(Value()), if err then WriteFailed else WriteDone(now))
      ensures fresh({waitingBuf, sendBuf} - old({waitingBuf, sendBuf}))
      ensures timeoutInterval == old(timeoutInterval) && keepAliveInterval == old(keepAliveInterval)
    {
      socket.Finish();
      if err {
        HandleConnectionError();
      } else {
        lastSendTime := now;
        DoSendData();
      }
    }

    /** A read has completed with `bytesReceived` bytes, or failed. */
    method HandleRecvData(err: bool, recvBuf: seq<byte>, bytesReceived: nat, now: int, manager: NetManager)
      requires Valid() && bytesReceived <= |recvBuf|
      modifies this, pkgParser, pkgParser.dataBuf, manager
      ensures Valid()
      ensures Value() == Step(old(Value()), if err then ErrorRaised else ReadDone(now))
      ensures waitingBuf == old(waitingBuf) && sendBuf == old(sendBuf)
      ensures pkgParser.dataBuf == old(pkgParser.dataBuf) || fresh(pkgParser.dataBuf)
      ensures timeoutInterval == old(timeoutInterval) && keepAliveInterval == old(keepAliveInterval)
      ensures if err || bytesReceived == 0
              then manager.packages == old(manager.packages) && pkgParser.Buffered() == old(pkgParser.Buffered())
                   && pkgParser.dataIndex == old(pkgParser.dataIndex)
              else var o := Drain(old(pkgParser.Buffered()) + recvBuf[..bytesReceived]);
                   && AllFrames(o.frames)
                   && manager.packages == old(manager.packages) + ParseAll(o.frames)
                   && pkgParser.Buffered() == o.rest && pkgParser.dataIndex == 0
    {
      if !err {
        lastRecvTime := now;
        if bytesReceived > 0 {
          manager.OnDataReceived(recvBuf, bytesReceived, pkgParser);
        }
      } else {
        HandleConnectionError();
      }
    }

    /** A keep-alive header, encoded into a vector that has room for four more bytes. */
    method KeepAliveBytes() returns (payload: seq<byte>)
      ensures payload == PackageBytes(KeepAlivePackage())
    {
      var header := new NetPackageHeader(CMD_KEEPALIVE, 0, 0, 0);
      header.length := 4 + HEADER_LENGTH;
      var bytes := new ByteVector([]);
      bytes.Resize(4 + HEADER_LENGTH);
      var pos := header.Encode(bytes, 0);
      payload := bytes.buf[..];
    }

    /** The keep-alive timer: send a keep-alive packet when nothing was sent for too long. */
    method DoSendKeepAlive(now: int)
      requires Valid()
      modifies this, socket, waitingBuf
      ensures Valid()
      ensures Value() == Step(old(Value()), KeepAlive(now, keepAliveInterval))
      ensures fresh({waitingBuf, sendBuf} - old({waitingBuf, sendBuf}))
      ensures timeoutInterval == old(timeoutInterval) && keepAliveInterval == old(keepAliveInterval)
    {
      if now - lastSendTime > keepAliveInterval {
        var payload := KeepAliveBytes();
        assert payload[..|payload|] == payload;
        var ok := SendDataAsync(payload, |payload|);
      }
    }

    /** The timeout timer: fail when nothing was received for too long, else re-arm. */
    method DoTimeoutCheck(now: int) returns (rearm: bool)
      requires Valid()
      modifies this`connected, this`waitingPos, this`sending, this`notified
      ensures Valid()
      ensures Value() == Step(old(Value()), TimeoutCheck(now, timeoutInterval))
      ensures rearm <==> now - lastRecvTime < timeoutInterval
    {
      if now - lastRecvTime >= timeoutInterval {
        HandleConnectionError();
        rearm := false;
      } else {
        rearm := true;
      }
    }
  }
}

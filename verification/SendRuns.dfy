/** What the send path keeps over every run. */
module SendRuns {
  import opened Bytes
  import opened Packages
  import opened SendModel
  import opened Wrappers

  // ----- Runs -----

  /** Each event of `es` can happen where it stands. */
  predicate Possible(c: Conn, es: seq<Event>)
    decreases |es|
  {
    es == [] || (Enabled(c, es[0]) && Possible(Step(c, es[0]), es[1..]))
  }

  function Run(c: Conn, es: seq<Event>): Conn
    requires Possible(c, es)
    decreases |es|
  {
    if es == [] then c else Run(Step(c, es[0]), es[1..])
  }

  // ----- Capacities -----

  function Pow2(k: nat): (r: nat)
    ensures r > 0
  {
    if k == 0 then 1 else 2 * Pow2(k - 1)
  }

  /** The buffer sizes in use: 64 KB doubled k times. */
  function Capacity(k: nat): nat {
    MIN_SEND_BUF_SIZE * Pow2(k)
  }

  predicate IsCapacity(n: nat) {
    n == 0 || exists k :: 0 <= k <= 10 && n == Capacity(k)
  }

  lemma {:induction false} DoubledIsLeast(k: nat, need: nat) returns (j: nat)
    ensures j >= k && Doubled(Capacity(k), need) == Capacity(j)
    ensures need <= Capacity(j) && (j > k ==> Capacity(j - 1) < need)
    decreases need - Capacity(k)
  {
    if need <= Capacity(k) {
      j := k;
    } else {
      assert Capacity(k + 1) == 2 * Capacity(k);
      j := DoubledIsLeast(k + 1, need);
    }
  }

  lemma {:induction false} Pow2Monotonic(j: nat, k: nat)
    requires j <= k
    ensures Pow2(j) <= Pow2(k)
    decreases k
  {
    if j < k {
      Pow2Monotonic(j, k - 1);
    }
  }

  /** Growth picks the least size of the form 64K * 2^k that fits, and never exceeds 64 MB. */
  lemma GrowthIsLeast(need: nat)
    requires need <= 0x400_0000
    ensures IsCapacity(GrownCap(need)) && need <= GrownCap(need) <= 0x400_0000
    ensures exists k: nat :: GrownCap(need) == 0x1_0000 * Pow2(k)
    ensures forall k: nat :: need <= 0x1_0000 * Pow2(k) ==> GrownCap(need) <= 0x1_0000 * Pow2(k)
  {
    var j := DoubledIsLeast(0, need);
    assert Pow2(10) == 1024 by {
      assert Pow2(5) == 32;
    }
    if j > 10 {
      Pow2Monotonic(10, j - 1);
      assert false;
    }
    Pow2Monotonic(j, 10);
    forall k: nat | need <= Capacity(k)
      ensures GrownCap(need) <= 0x1_0000 * Pow2(k)
    {
      if k < j {
        Pow2Monotonic(k, j - 1);
      } else {
        Pow2Monotonic(j, k);
      }
    }
  }

  /** Shrinking halves, keeps the size a capacity, and leaves 256 KB or more, which the average
      write still fits twice over. */
  lemma ShrinkKeeps(cap: nat, ave: nat)
    requires IsCapacity(cap)
    ensures IsCapacity(ShrunkCap(cap, ave))
    ensures ShrunkCap(cap, ave) != cap ==>
              2 * ShrunkCap(cap, ave) == cap && ShrunkCap(cap, ave) >= 0x4_0000 && ave < ShrunkCap(cap, ave) / 2
  {
    hide Capacity;
    if ShrunkCap(cap, ave) != cap {
      var k :| 0 <= k <= 10 && cap == Capacity(k);
      assert cap > 4 * MIN_SEND_BUF_SIZE;
      CapacityAbove(k);
      assert cap / 2 == Capacity(k - 1);
    }
  }

  /** Memory control, exactly: a write takes all that waits and the buffers change places; the average
      moves by a fiftieth towards the size written, truncated; and the buffer now idle is halved if
      and only if the average is above 64 KB and below a quarter of a size above 128 KB. */
  lemma WriteEconomizes(c: Conn)
    requires c.waiting != []
    ensures var r, n := DoSend(c), |c.waiting|;
            && r.write == Some(Write(c.waiting, 0)) && r.handed == c.handed + [c.waiting]
            && r.waiting == [] && r.sending && r.sendCap == c.waitCap
            && (c.ave == 0 ==> r.ave == n)
            && (c.ave > 0 ==> 50 * r.ave <= 49 * c.ave + n < 50 * r.ave + 50)
            && r.waitCap == if r.ave > 0x1_0000 && c.sendCap > 0x2_0000 && r.ave < c.sendCap / 4 then c.sendCap / 2 else c.sendCap
  {
    hide GrownCap;
  }

  /** What is accepted is appended, after the waiting buffer has grown if and only if it is too small;
      it goes out at once if no write is out. */
  lemma AcceptGrows(c: Conn, data: seq<byte>)
    requires c.connected && data != [] && |data| + |c.waiting| <= 0x400_0000
    ensures var need := |c.waiting| + |data|;
            var cap := if need <= c.waitCap then c.waitCap else GrownCap(need);
            var full := c.(waiting := c.waiting + data, waitCap := cap);
            Send(c, data) == if c.sending then full else DoSend(full)
  {
    hide GrownCap;
  }

  lemma CapacityAbove(k: nat)
    requires Capacity(k) > 4 * MIN_SEND_BUF_SIZE
    ensures k >= 3 && Capacity(k) >= 8 * MIN_SEND_BUF_SIZE && Capacity(k) == 2 * Capacity(k - 1)
  {
    if k < 3 {
      Pow2Monotonic(k, 2);
    } else {
      Pow2Monotonic(3, k);
    }
  }

  predicate CapacityInv(c: Conn) {
    && IsCapacity(c.waitCap) && IsCapacity(c.sendCap)
    && c.waitCap <= MAX_SEND_BUF_SIZE && c.sendCap <= MAX_SEND_BUF_SIZE
    && |c.waiting| <= c.waitCap
    && (c.write.Some? ==> |c.write.value.bytes| <= c.sendCap)
  }

  // ----- Write discipline -----

  predicate WriteInv(c: Conn) {
    && (c.write.Some? ==> c.write.value.moved <= |c.write.value.bytes| && |c.write.value.bytes| > 0)
    && (c.connected ==> (c.sending <==> c.write.Some?))
    && (c.waiting != [] ==> c.connected && c.write.Some?)
    && (!c.connected ==> !c.sending)
  }

  lemma DoSendKeeps(c: Conn)
    requires CapacityInv(c) && c.write.None?
    ensures CapacityInv(DoSend(c))
    ensures c.connected || c.waiting == [] ==> WriteInv(DoSend(c))
  {
    if c.waiting != [] {
      ShrinkKeeps(c.sendCap, Average(c.ave, |c.waiting|));
    }
  }

  lemma SendKeeps(c: Conn, data: seq<byte>)
    requires CapacityInv(c) && WriteInv(c)
    ensures CapacityInv(Send(c, data)) && WriteInv(Send(c, data))
  {
    if c.connected && data != [] && !Overflows(c, data) {
      GrowthIsLeast(|data| + |c.waiting|);
      assert CapacityInv(Enqueue(c, data));
      if !c.sending {
        DoSendKeeps(Enqueue(c, data));
      }
    }
  }

  lemma StepKeeps(c: Conn, e: Event)
    requires CapacityInv(c) && WriteInv(c) && Enabled(c, e)
    ensures CapacityInv(Step(c, e)) && WriteInv(Step(c, e))
  {
    hide IsCapacity, Economize, HandOver;
    match e
    case Sent(data) => SendKeeps(c, data);
    case KeepAlive(now, interval) => SendKeeps(c, PackageBytes(KeepAlivePackage()));
    case WriteDone(now) => DoSendKeeps(c.(write := None, lastSend := now));
    case _ =>
  }

  lemma {:induction false} RunKeeps(c: Conn, es: seq<Event>)
    requires CapacityInv(c) && WriteInv(c) && Possible(c, es)
    ensures CapacityInv(Run(c, es)) && WriteInv(Run(c, es))
    decreases |es|
  {
    hide CapacityInv, WriteInv, Step, Enabled;
    if es != [] {
      StepKeeps(c, es[0]);
      RunKeeps(Step(c, es[0]), es[1..]);
    }
  }

  /** Over every run: sizes are capacities within 64 MB and hold what they must, m_bSending says
      whether a write is outstanding, and nothing waits without one. */
  lemma EveryRun(start: int, es: seq<Event>)
    requires Possible(Started(start), es)
    ensures CapacityInv(Run(Started(start), es)) && WriteInv(Run(Started(start), es))
    ensures Run(Started(start), es).waitCap <= 0x400_0000 && Run(Started(start), es).sendCap <= 0x400_0000
  {
    RunKeeps(Started(start), es);
  }

  // ----- The swapping buffers are a FIFO queue -----

  /** The bytes of the outstanding write that the transport has not taken. */
  function Unmoved(c: Conn): seq<byte> {
    if c.write.Some? && c.write.value.moved <= |c.write.value.bytes| then c.write.value.bytes[c.write.value.moved..] else []
  }

  /** Everything accepted and not yet taken, oldest first. */
  function Queued(c: Conn): seq<byte> {
    Unmoved(c) + c.waiting
  }

  /** The bytes that an event offers to the send path. */
  function Offered(c: Conn, e: Event): seq<byte> {
    match e
    case Sent(data) => data
    case KeepAlive(now, interval) => if KeepAliveDue(c, now, interval) then PackageBytes(KeepAlivePackage()) else []
    case _ => []
  }

  /** A simple queue of bytes: `taken` has left it, `queued` has not. */
  datatype ByteQueue = ByteQueue(taken: seq<byte>, queued: seq<byte>)

  function AsQueue(c: Conn): ByteQueue {
    ByteQueue(c.wire, Queued(c))
  }

  function Put(q: ByteQueue, data: seq<byte>): ByteQueue {
    q.(queued := q.queued + data)
  }

  function Take(q: ByteQueue, n: nat): ByteQueue
    requires n <= |q.queued|
  {
    ByteQueue(q.taken + q.queued[..n], q.queued[n..])
  }

  /** The connection stays up and nothing is refused for want of room. */
  predicate Undisturbed(c: Conn, e: Event)
    requires Enabled(c, e)
  {
    Step(c, e).connected && (Offered(c, e) == [] || |Offered(c, e)| + |c.waiting| <= 0x400_0000)
  }

  lemma SendIsPut(c: Conn, data: seq<byte>)
    requires WriteInv(c) && c.connected && (data == [] || |data| + |c.waiting| <= 0x400_0000)
    ensures Accepts(c, data)
    ensures AsQueue(Send(c, data)) == Put(AsQueue(c), data)
  {
  }

  /** Each step of the connection is a step of the queue: accepting puts, the transport takes,
      and everything else (swaps, growth, shrinking, completions, timers) leaves it alone. */
  lemma StepRefinesQueue(c: Conn, e: Event)
    requires WriteInv(c) && Enabled(c, e) && c.connected && Undisturbed(c, e)
    ensures AsQueue(Step(c, e)) == if e.Transferred? then Take(AsQueue(c), e.n) else Put(AsQueue(c), Offered(c, e))
  {
    hide Average, ShrunkCap, GrownCap, PackageBytes, KeepAlivePackage;
    var q := AsQueue(c);
    assert q.queued + [] == q.queued;
    match e
    case Sent(data) => SendIsPut(c, data);
    case KeepAlive(now, interval) => SendIsPut(c, Offered(c, e));
    case Transferred(n) =>
      assert Unmoved(c)[..n] == c.write.value.bytes[c.write.value.moved..][..n];
      assert Queued(c)[..n] == Unmoved(c)[..n] && Queued(c)[n..] == Unmoved(c)[n..] + c.waiting;
    case WriteDone(now) =>
      assert Unmoved(c) == [] && [] + c.waiting == c.waiting == c.waiting + [];
    case _ =>
  }

  /** Refusing for want of room drops exactly what waits; the write in flight is not touched. */
  lemma OverflowDropsWaiting(c: Conn, data: seq<byte>)
    requires c.connected && data != [] && |data| + |c.waiting| > 0x400_0000
    ensures !Accepts(c, data)
    ensures AsQueue(Send(c, data)) == ByteQueue(c.wire, Unmoved(c))
    ensures Send(c, data).write == c.write && Send(c, data).connected
  {
  }

  predicate AllUndisturbed(c: Conn, es: seq<Event>)
    requires Possible(c, es)
    decreases |es|
  {
    es == [] || (Undisturbed(c, es[0]) && AllUndisturbed(Step(c, es[0]), es[1..]))
  }

  function AllOffered(c: Conn, es: seq<Event>): seq<byte>
    requires Possible(c, es)
    decreases |es|
  {
    if es == [] then [] else Offered(c, es[0]) + AllOffered(Step(c, es[0]), es[1..])
  }

  /** Conservation: what the transport has taken, then what is in flight, then what waits, is what
      was accepted, in order. */
  lemma {:induction false} RunConserves(c: Conn, es: seq<Event>)
    requires CapacityInv(c) && WriteInv(c) && c.connected && Possible(c, es) && AllUndisturbed(c, es)
    ensures var r := Run(c, es); r.wire + Queued(r) == c.wire + Queued(c) + AllOffered(c, es)
    decreases |es|
  {
    hide Step, Enabled, Queued, Offered, WriteInv, CapacityInv;
    if es == [] {
      assert c.wire + Queued(c) + [] == c.wire + Queued(c);
    } else {
      StepKeeps(c, es[0]);
      StepRefinesQueue(c, es[0]);
      RunConserves(Step(c, es[0]), es[1..]);
      QueueConserves(c, es[0]);
      assert c.wire + Queued(c) + Offered(c, es[0]) + AllOffered(Step(c, es[0]), es[1..])
          == c.wire + Queued(c) + AllOffered(c, es);
    }
  }

  lemma QueueConserves(c: Conn, e: Event)
    requires WriteInv(c) && Enabled(c, e) && c.connected && Undisturbed(c, e)
    ensures Step(c, e).wire + Queued(Step(c, e)) == c.wire + Queued(c) + Offered(c, e)
  {
    hide Step, Enabled, Queued;
    StepRefinesQueue(c, e);
    if e.Transferred? {
      TransferWithin(c, e);
      assert Queued(c) == Queued(c)[..e.n] + Queued(c)[e.n..];
    }
  }

  lemma TransferWithin(c: Conn, e: Event)
    requires e.Transferred? && Enabled(c, e)
    ensures e.n <= |Queued(c)|
  {
  }

  // ----- Liveness in two completions -----

  /** The transport takes the rest of the write and reports success. */
  function Finish(c: Conn, now: int): Conn
    requires WriteInv(c) && c.write.Some?
  {
    Step(Transfer(c, |Unmoved(c)|), WriteDone(now))
  }

  /** With no new sends, one completion reaches idle if nothing waits and two if something does;
      by then every accepted byte is written. */
  lemma TwoCompletionsReachIdle(c: Conn, t1: int, t2: int)
    requires CapacityInv(c) && WriteInv(c) && c.connected && c.write.Some?
    ensures var d := Finish(c, t1);
            if c.waiting == [] then d.write == None && !d.sending && Queued(d) == [] && d.wire == c.wire + Queued(c)
            else d.write.Some? && WriteInv(d)
                 && var f := Finish(d, t2);
                    f.write == None && !f.sending && Queued(f) == [] && f.wire == c.wire + Queued(c)
  {
    hide Average, ShrunkCap;
    var bytes := c.write.value.bytes;
    assert bytes[c.write.value.moved..|bytes|] == Unmoved(c);
    if c.waiting == [] {
      assert Queued(c) == Unmoved(c);
    } else {
      assert c.waiting[0..|c.waiting|] == c.waiting;
      assert c.wire + Unmoved(c) + c.waiting == c.wire + Queued(c);
    }
  }

  // ----- The average write -----

  function Shortest(writes: seq<seq<byte>>): (n: nat)
    requires writes != []
    ensures exists w :: w in writes && |w| == n
    ensures forall w :: w in writes ==> n <= |w|
  {
    var l := |writes[|writes| - 1]|;
    if |writes| == 1 then l
    else
      var s := Shortest(writes[..|writes| - 1]);
      if l < s then l else s
  }

  function Longest(writes: seq<seq<byte>>): (n: nat)
    requires writes != []
    ensures exists w :: w in writes && |w| == n
    ensures forall w :: w in writes ==> |w| <= n
  {
    var l := |writes[|writes| - 1]|;
    if |writes| == 1 then l
    else
      var s := Longest(writes[..|writes| - 1]);
      if l > s then l else s
  }

  /** The average lies between the shortest and the longest write so far. */
  predicate AverageInv(c: Conn) {
    if c.handed == [] then c.ave == 0
    else 0 < Shortest(c.handed) <= c.ave <= Longest(c.handed)
  }

  lemma DoSendAverage(c: Conn)
    requires AverageInv(c)
    ensures AverageInv(DoSend(c))
  {
    hide ShrunkCap;
    if c.waiting != [] {
      var h := DoSend(c).handed;
      assert h[..|h| - 1] == c.handed && h[|h| - 1] == c.waiting;
    }
  }

  lemma StepAverage(c: Conn, e: Event)
    requires AverageInv(c) && Enabled(c, e)
    ensures AverageInv(Step(c, e))
  {
    hide GrownCap, Shortest, Longest, PackageBytes;
    var data := Offered(c, e);
    if c.connected && data != [] && !Overflows(c, data) {
      DoSendAverage(Enqueue(c, data));
    }
    if e.WriteDone? {
      DoSendAverage(c.(write := None, lastSend := e.now));
    }
    if e.Sent? || e.KeepAlive? {
      assert Step(c, e) == c || Step(c, e) == Send(c, data);
    }
  }

  lemma {:induction false} EveryRunAverages(c: Conn, es: seq<Event>)
    requires AverageInv(c) && Possible(c, es)
    ensures AverageInv(Run(c, es))
    decreases |es|
  {
    hide AverageInv, Step, Enabled;
    if es != [] {
      StepAverage(c, es[0]);
      EveryRunAverages(Step(c, es[0]), es[1..]);
    }
  }

  // ----- Close -----

  /** A closed connection stays closed, starts no write and notifies nobody, whatever happens. */
  lemma {:induction false} ClosedStaysClosed(c: Conn, es: seq<Event>)
    requires WriteInv(c) && !c.connected && Possible(c, es)
    ensures var r := Run(c, es);
            !r.connected && r.notified == c.notified && r.handed == c.handed && r.waiting == []
    decreases |es|
  {
    if es != [] {
      ClosedStep(c, es[0]);
      ClosedStaysClosed(Step(c, es[0]), es[1..]);
    }
  }

  lemma ClosedStep(c: Conn, e: Event)
    requires WriteInv(c) && !c.connected && Enabled(c, e)
    ensures var r := Step(c, e);
            WriteInv(r) && !r.connected && r.notified == c.notified && r.handed == c.handed
  {
  }

  /** The manager hears of an error at most once, and exactly when an error ended the session;
      a session that an event ends is over for good. */
  lemma {:induction false} NotifiedAtMostOnce(c: Conn, es: seq<Event>)
    requires CapacityInv(c) && WriteInv(c) && c.connected && Possible(c, es)
    ensures c.notified <= Run(c, es).notified <= c.notified + 1
    ensures Run(c, es).notified > c.notified ==> !Run(c, es).connected
    decreases |es|
  {
    hide CapacityInv, Step, WriteInv, Enabled;
    if es != [] {
      StepKeeps(c, es[0]);
      NotifiesOnClosing(c, es[0]);
      if Step(c, es[0]).connected {
        NotifiedAtMostOnce(Step(c, es[0]), es[1..]);
      } else {
        ClosedStaysClosed(Step(c, es[0]), es[1..]);
      }
    }
  }

  lemma NotifiesOnClosing(c: Conn, e: Event)
    requires c.connected && Enabled(c, e)
    ensures var r := Step(c, e);
            if r.connected then r.notified == c.notified
            else r.notified == if e.Closed? then c.notified else c.notified + 1
  {
  }
}

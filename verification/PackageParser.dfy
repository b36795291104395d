/** The incremental parser of NetPackageParser.cpp and the dispatch loop of NetManager.cpp. */
module PackageParser {
  import opened Bytes
  import opened Packages
  import opened Framing

  class NetPackageParser {
    var dataBuf: array<byte>
    var dataLen: nat
    var dataIndex: nat

    ghost predicate Valid()
      reads this
    {
      dataIndex <= dataLen <= dataBuf.Length
    }

    /** The bytes fed and not yet handed out. */
    ghost function Buffered(): (b: seq<byte>)
      requires Valid()
      reads this, dataBuf
      ensures |b| == dataLen - dataIndex
    {
      dataBuf[dataIndex..dataLen]
    }

    constructor ()
      ensures Valid() && fresh(dataBuf)
      ensures Buffered() == [] && dataIndex == 0 && dataBuf.Length == 0x1_0000
    {
      dataBuf := new byte[64 * 1024](_ => 0);
      dataLen, dataIndex := 0, 0;
    }

    method Reset()
      modifies this`dataLen, this`dataIndex
      ensures dataLen == 0 && dataIndex == 0
    {
      dataLen := 0;
      dataIndex := 0;
    }

    predicate IsInitStatus()
      reads this
    {
      dataIndex == 0 && dataLen == 0
    }

    /** A complete packet is buffered. */
    predicate HasWhole()
      requires Valid()
      reads this, dataBuf
    {
      Look(dataBuf[dataIndex..dataLen]).Whole?
    }

    /** Move the unread bytes to the front of the buffer. */
    method Ajust()
      requires Valid()
      modifies this`dataLen, this`dataIndex, dataBuf
      ensures Valid() && dataIndex == 0
      ensures Buffered() == old(Buffered())
    {
      dataLen := dataLen - dataIndex;
      if dataIndex > 0 {
        if dataLen > 0 {
          forall i | 0 <= i < dataLen {
            dataBuf[i] := dataBuf[dataIndex + i];
          }
        }
        dataIndex := 0;
      }
    }

    /** Append the first len bytes of data, growing the buffer when they do not fit. */
    method FeedPack(data: seq<byte>, len: nat)
      requires Valid() && len <= |data|
      modifies this`dataBuf, this`dataLen, dataBuf
      ensures Valid() && dataIndex == old(dataIndex)
      ensures dataBuf == old(dataBuf) || fresh(dataBuf)
      ensures dataBuf.Length == if old(dataBuf.Length) < dataLen then old(dataBuf.Length) + len else old(dataBuf.Length)
      ensures Buffered() == old(Buffered()) + data[..len]
    {
      if len <= 0 {
        return;
      }
      if dataBuf.Length < dataLen + len {
        dataBuf := Moved(dataBuf, dataBuf.Length + len);
        assert dataBuf[dataIndex..dataLen] == old(Buffered());
      }
      OverwriteExtends(dataBuf[..], dataIndex, dataLen, data[..len]);
      CopyInto(dataBuf, dataLen, data[..len]);
      dataLen := dataLen + len;
    }

    /** The next complete packet, as a header and a slice of the buffer. */
    method NextPackage(header: NetPackageHeader) returns (ok: bool, p: nat, len: nat, isReset: bool)
      requires Valid()
      modifies this`dataLen, this`dataIndex, dataBuf, header
      ensures Valid()
      ensures var s := old(Buffered());
              match Look(s)
              case Whole(size) =>
                && ok && !isReset
                && header.Value() == ParseHeader(s[..size])
                && p == old(dataIndex) + HEADER_LENGTH && len == size - HEADER_LENGTH
                && dataBuf[..] == old(dataBuf[..])
                && p + len <= dataBuf.Length && dataBuf[p..p + len] == s[HEADER_LENGTH..size]
                && Buffered() == s[size..]
              case Invalid =>
                !ok && isReset && IsInitStatus()
              case NeedMore =>
                !ok && !isReset && dataIndex == 0 && Buffered() == s
      ensures var s := old(Buffered());
              if |s| < 12 then !ok && !isReset
              else
                var n := s[0] as int * 0x100_0000 + s[1] as int * 0x1_0000 + s[2] as int * 0x100 + s[3] as int;
                && (isReset <==> n < 12 || n > 0x2000_0000)
                && (ok <==> 12 <= n <= 0x2000_0000 && n <= |s|)
                && (ok ==> len == n - 12)
    {
      hide FromBigEndian32, ParseHeader;
      ghost var s := Buffered();
      LookMeaning(s);
      ok, p, len, isReset := false, 0, 0, false;
      if dataLen - dataIndex >= HEADER_LENGTH {
        var pkgLength := FromBigEndian32(dataBuf[dataIndex..dataIndex + 4]);
        assert dataBuf[dataIndex..dataIndex + 4] == s[..4];
        if pkgLength < HEADER_LENGTH || pkgLength > INVALID_LENGTH {
          isReset := true;
          Reset();
          return;
        }
        if dataLen - dataIndex >= pkgLength {
          var nPos := header.Decode(dataBuf[..], dataIndex);
          assert dataBuf[..][dataIndex..dataIndex + pkgLength] == s[..pkgLength];
          HeaderAt(dataBuf[..], dataIndex, s[..pkgLength]);
          p := nPos;
          len := pkgLength - HEADER_LENGTH;
          dataIndex := dataIndex + pkgLength;
          ok := true;
          return;
        }
      }
      if dataIndex > 0 {
        Ajust();
      }
    }

    static lemma HeaderAt(buf: seq<byte>, at: nat, frame: seq<byte>)
      requires HEADER_LENGTH <= |frame| && at + |frame| <= |buf| && buf[at..at + |frame|] == frame
      ensures ParseHeader(buf[at..at + HEADER_LENGTH]) == ParseHeader(frame)
    {
      ParseHeaderPrefix(frame);
      assert buf[at..at + HEADER_LENGTH] == frame[..HEADER_LENGTH];
    }
  }

  /** Where a content slice was handed out. */
  datatype View = View(p: nat, len: nat)

  /** Every slice handed out reads as the content of its packet in `buf`. */
  ghost predicate ViewsIntact(views: seq<View>, frames: seq<seq<byte>>, buf: seq<byte>) {
    && |views| == |frames|
    && forall i :: 0 <= i < |views| ==>
         && views[i].p + views[i].len <= |buf|
         && HEADER_LENGTH <= |frames[i]|
         && buf[views[i].p..views[i].p + views[i].len] == frames[i][HEADER_LENGTH..]
  }

  /** One more slice was handed out, which reads as the content of the frame f. */
  ghost predicate ViewedLast(views: seq<View>, before: seq<View>, buf: seq<byte>, f: seq<byte>) {
    && |views| == |before| + 1 && views[..|before|] == before
    && var v := views[|before|];
       HEADER_LENGTH <= |f| && v.p + v.len <= |buf| && buf[v.p..v.p + v.len] == f[HEADER_LENGTH..]
  }

  class NetManager {
    /** The calls of onPackageReceived so far: header and content of each. */
    var packages: seq<Package>
    /** The slices of the parser's buffer that onPackageReceived was given since the last feed. */
    ghost var views: seq<View>

    constructor ()
      ensures packages == [] && views == []
    {
      packages := [];
      views := [];
    }

    /** The handler sees the content as len bytes of the parser's buffer from p on. */
    method OnPackageReceived(header: NetPackageHeader, buf: array<byte>, p: nat, len: nat)
      requires p + len <= buf.Length
      modifies this
      ensures packages == old(packages) + [Package(header.Value(), buf[p..p + len])]
      ensures views == old(views) + [View(p, len)]
    {
      packages := packages + [Package(header.Value(), buf[p..p + len])];
      views := views + [View(p, len)];
    }

    /** Feed what was read, then dispatch packets until nextPackage returns false. The loop of the
        source is cut here before that last call, which is the one that may move bytes. */
    method OnDataReceived(data: seq<byte>, len: nat, parser: NetPackageParser)
      requires parser.Valid() && len <= |data|
      modifies this, parser, parser.dataBuf
      ensures parser.Valid() && parser.dataIndex == 0
      ensures parser.dataBuf == old(parser.dataBuf) || fresh(parser.dataBuf)
      ensures var o := Drain(old(parser.Buffered()) + data[..len]);
              && AllFrames(o.frames)
              && packages == old(packages) + ParseAll(o.frames)
              && parser.Buffered() == o.rest
              && Look(parser.Buffered()) == NeedMore
    {
      hide Drain, Look, ViewsIntact, ParsePackage;
      parser.FeedPack(data, len);
      views := [];
      ghost var stream := parser.Buffered();
      DispatchComplete(parser);
      LookEmpty();
      var genNewPack := DispatchNext(parser);
      assert !genNewPack;
    }

    /** All turns of the loop that find a packet: exactly the complete packets are handed on, in
        order, and when none is left every slice handed out still reads as its packet's content in
        the parser's array, which was not written at all. */
    method DispatchComplete(parser: NetPackageParser)
      requires parser.Valid() && views == []
      modifies this, parser`dataLen, parser`dataIndex, parser.dataBuf
      ensures parser.Valid()
      ensures parser.dataBuf == old(parser.dataBuf) && parser.dataBuf[..] == old(parser.dataBuf[..])
      ensures var o := Drain(old(parser.Buffered()));
              && AllFrames(o.frames)
              && packages == old(packages) + ParseAll(o.frames)
              && ViewsIntact(views, o.frames, parser.dataBuf[..])
              && Look(parser.Buffered()) == (if o.reset then Invalid else NeedMore)
              && (!o.reset ==> parser.Buffered() == o.rest)
              && (o.reset ==> o.rest == [])
    {
      hide Drain, Progress, Look, ViewsIntact, ViewedLast, ParsePackage;
      ghost var stream := parser.Buffered();
      ghost var frames := [];
      ProgressStart(stream);
      ViewsStart(parser.dataBuf[..]);
      while parser.HasWhole()
        invariant parser.Valid()
        invariant parser.dataBuf == old(parser.dataBuf) && parser.dataBuf[..] == old(parser.dataBuf[..])
        invariant AllFrames(frames) && packages == old(packages) + ParseAll(frames)
        invariant Progress(stream, frames, parser.Buffered())
        invariant ViewsIntact(views, frames, parser.dataBuf[..])
        decreases |parser.Buffered()|
      {
        ghost var s, before := parser.Buffered(), views;
        ghost var f := s[..Look(s).size];
        var genNewPack := DispatchNext(parser);
        LookCutOut(s);
        ProgressStep(stream, frames, s);
        ViewsStep(before, frames, parser.dataBuf[..], views, f);
        ParseSnoc(frames, f);
        frames := frames + [f];
      }
      ProgressEnd(stream, frames, parser.Buffered());
    }

    /** One turn of the dispatch loop: take the next packet, if one is complete, and hand it on. */
    method DispatchNext(parser: NetPackageParser) returns (genNewPack: bool)
      requires parser.Valid()
      modifies this, parser`dataLen, parser`dataIndex, parser.dataBuf
      ensures parser.Valid()
      ensures var s := old(parser.Buffered());
              match Look(s)
              case Whole(size) =>
                && genNewPack
                && packages == old(packages) + [ParsePackage(s[..size])]
                && parser.Buffered() == s[size..]
                && parser.dataBuf == old(parser.dataBuf) && parser.dataBuf[..] == old(parser.dataBuf[..])
                && ViewedLast(views, old(views), parser.dataBuf[..], s[..size])
              case Invalid =>
                !genNewPack && packages == old(packages) && parser.IsInitStatus()
              case NeedMore =>
                !genNewPack && packages == old(packages) && parser.dataIndex == 0 && parser.Buffered() == s
    {
      hide LengthField, ParseHeader;
      var header := new NetPackageHeader(0, 0, 0, 0);
      ghost var s := parser.Buffered();
      var p, contentLen, isReset;
      genNewPack, p, contentLen, isReset := parser.NextPackage(header);
      if genNewPack {
        OnPackageReceived(header, parser.dataBuf, p, contentLen);
        assert s[..Look(s).size][HEADER_LENGTH..] == s[HEADER_LENGTH..Look(s).size];
      }
    }

    static lemma ViewsStart(buf: seq<byte>)
      ensures ViewsIntact([], [], buf)
    {
    }

    static lemma ViewsStep(before: seq<View>, frames: seq<seq<byte>>, buf: seq<byte>, views: seq<View>, f: seq<byte>)
      requires ViewsIntact(before, frames, buf) && ViewedLast(views, before, buf, f)
      ensures ViewsIntact(views, frames + [f], buf)
    {
    }

    /** `frames` have been dispatched and `s` is still to be drained. */
    static ghost predicate Progress(stream: seq<byte>, frames: seq<seq<byte>>, s: seq<byte>) {
      Drain(stream) == Then(Outcome(frames, [], false), Drain(s))
    }

    static lemma ProgressStart(stream: seq<byte>)
      ensures Progress(stream, [], stream)
    {
    }

    static lemma ProgressStep(stream: seq<byte>, frames: seq<seq<byte>>, s: seq<byte>)
      requires Look(s).Whole?
      requires Progress(stream, frames, s)
      ensures Progress(stream, frames + [s[..Look(s).size]], s[Look(s).size..])
    {
    }

    static lemma ProgressEnd(stream: seq<byte>, frames: seq<seq<byte>>, s: seq<byte>)
      requires !Look(s).Whole?
      requires Progress(stream, frames, s)
      ensures Drain(stream) == Outcome(frames, if Look(s).Invalid? then [] else s, Look(s).Invalid?)
    {
    }

    static lemma LookEmpty()
      ensures Look([]) == NeedMore
    {
    }

    static lemma ParseSnoc(frames: seq<seq<byte>>, f: seq<byte>)
      requires AllFrames(frames) && IsFrame(f)
      ensures AllFrames(frames + [f])
      ensures ParseAll(frames + [f]) == ParseAll(frames) + [ParsePackage(f)]
    {
      ParseAppend(frames, [f]);
    }
  }

  /** Any list of reads through the real objects: they deliver, keep and reset as FeedAll says. */
  method FeedChunks(manager: NetManager, parser: NetPackageParser, chunks: seq<seq<byte>>)
    requires parser.Valid()
    modifies manager, parser, parser.dataBuf
    ensures parser.Valid() && (parser.dataBuf == old(parser.dataBuf) || fresh(parser.dataBuf))
    ensures var o := FeedAll(old(parser.Buffered()), chunks);
            && AllFrames(o.frames)
            && manager.packages == old(manager.packages) + ParseAll(o.frames)
            && parser.Buffered() == o.rest
  {
    hide Drain, FeedAll, IsFrame, ParsePackage;
    ghost var frames := [];
    ghost var start := parser.Buffered();
    FedStart(start, chunks);
    for i := 0 to |chunks|
      invariant parser.Valid() && (parser.dataBuf == old(parser.dataBuf) || fresh(parser.dataBuf))
      invariant AllFrames(frames) && manager.packages == old(manager.packages) + ParseAll(frames)
      invariant Fed(start, chunks, i, frames, parser.Buffered())
    {
      ghost var s := parser.Buffered();
      manager.OnDataReceived(chunks[i], |chunks[i]|, parser);
      assert chunks[i][..|chunks[i]|] == chunks[i];
      FedStep(start, chunks, i, frames, s);
      ParseAppend(frames, Drain(s + chunks[i]).frames);
      frames := frames + Drain(s + chunks[i]).frames;
    }
    FedEnd(start, chunks, frames, parser.Buffered());
  }

  /** `frames` have come out of the first i chunks and `s` is buffered. */
  ghost predicate Fed(start: seq<byte>, chunks: seq<seq<byte>>, i: nat, frames: seq<seq<byte>>, s: seq<byte>)
    requires i <= |chunks|
  {
    var o, more := FeedAll(start, chunks), FeedAll(s, chunks[i..]);
    o.frames == frames + more.frames && o.rest == more.rest
  }

  lemma FedStart(start: seq<byte>, chunks: seq<seq<byte>>)
    ensures Fed(start, chunks, 0, [], start)
  {
    assert chunks[0..] == chunks;
  }

  lemma FedStep(start: seq<byte>, chunks: seq<seq<byte>>, i: nat, frames: seq<seq<byte>>, s: seq<byte>)
    requires i < |chunks| && Fed(start, chunks, i, frames, s)
    ensures var o := Drain(s + chunks[i]); Fed(start, chunks, i + 1, frames + o.frames, o.rest)
  {
    hide Drain;
    assert chunks[i..][1..] == chunks[i + 1..];
  }

  lemma FedEnd(start: seq<byte>, chunks: seq<seq<byte>>, frames: seq<seq<byte>>, s: seq<byte>)
    requires Fed(start, chunks, |chunks|, frames, s)
    ensures FeedAll(start, chunks).frames == frames && FeedAll(start, chunks).rest == s
  {
  }
}

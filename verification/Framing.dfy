/** What a byte stream means to the receiver: the reference against which the
    incremental parser and the dispatch loop are proved. */
module Framing {
  import opened Bytes
  import opened Packages

  /** What the front of a buffer holds. */
  datatype Glance = NeedMore | Invalid | Whole(size: nat)

  /** The length field: the first four bytes of a header. */
  function LengthField(s: seq<byte>): u32
    requires |s| >= 4
  {
    FromBigEndian32(s[..4])
  }

  function Look(s: seq<byte>): (g: Glance)
    ensures g.Whole? ==> HEADER_LENGTH <= g.size <= |s|
  {
    if |s| < HEADER_LENGTH then NeedMore
    else
      var size := LengthField(s);
      if size < HEADER_LENGTH || size > INVALID_LENGTH then Invalid
      else if |s| >= size then Whole(size)
      else NeedMore
  }

  /** The bytes of one whole packet, of a length no receiver calls invalid. */
  predicate IsFrame(f: seq<byte>) {
    Look(f) == Whole(|f|)
  }

  /** What the length field decides, spelled from the bytes: below 12 and above 512 MB it is invalid,
      and otherwise it is the size of the packet, which is whole when so many bytes are there. */
  lemma LookMeaning(s: seq<byte>)
    ensures |s| < 12 ==> Look(s) == NeedMore
    ensures |s| >= 12 ==>
              var n := s[0] as int * 0x100_0000 + s[1] as int * 0x1_0000 + s[2] as int * 0x100 + s[3] as int;
              && (Look(s) == Invalid <==> n < 12 || n > 0x2000_0000)
              && (Look(s).Whole? <==> 12 <= n <= 0x2000_0000 && n <= |s|)
              && (Look(s).Whole? ==> Look(s).size == n)
  {
    hide FromBigEndian32;
    if |s| >= 12 {
      FromBigEndianBytes(s[..4], [0, 0]);
    }
  }

  /** A frame is a packet of 12 bytes to 512 MB that begins with its own length. */
  lemma FrameMeaning(f: seq<byte>)
    ensures IsFrame(f) <==>
              && 12 <= |f| <= 0x2000_0000
              && f[0] as int * 0x100_0000 + f[1] as int * 0x1_0000 + f[2] as int * 0x100 + f[3] as int == |f|
  {
    hide Look;
    LookMeaning(f);
  }

  /** Everything a stream yields: the packets as raw frames, the bytes left over, and
      whether an invalid length field threw the rest away. */
  datatype Outcome = Outcome(frames: seq<seq<byte>>, rest: seq<byte>, reset: bool)

  function Drain(s: seq<byte>): Outcome
    decreases |s|
  {
    match Look(s)
    case NeedMore => Outcome([], s, false)
    case Invalid => Outcome([], [], true)
    case Whole(size) =>
      var o := Drain(s[size..]);
      o.(frames := [s[..size]] + o.frames)
  }

  /** Draining in two instalments. */
  function Then(f: Outcome, g: Outcome): Outcome {
    Outcome(f.frames + g.frames, g.rest, f.reset || g.reset)
  }

  lemma LookAppend(a: seq<byte>, b: seq<byte>)
    requires Look(a) != NeedMore
    ensures Look(a + b) == Look(a)
  {
  }

  /** Bytes that arrive later do not change what the earlier ones meant. */
  lemma {:induction false} DrainAppend(a: seq<byte>, b: seq<byte>)
    ensures var f := Drain(a);
            Drain(a + b) == if f.reset then f else Then(f, Drain(f.rest + b))
    decreases |a|
  {
    hide LengthField;
    match Look(a)
    case NeedMore =>
      assert [] + Drain(a + b).frames == Drain(a + b).frames;
    case Invalid =>
      LookAppend(a, b);
    case Whole(size) =>
      LookAppend(a, b);
      DrainAppend(a[size..], b);
      assert (a + b)[..size] == a[..size] && (a + b)[size..] == a[size..] + b;
      var f := Drain(a[size..]);
      assert [a[..size]] + (f.frames + Drain(f.rest + b).frames) == [a[..size]] + f.frames + Drain(f.rest + b).frames;
  }

  /** What draining leaves is never a whole packet, and nothing after a reset. */
  lemma {:induction false} DrainLeavesPartial(s: seq<byte>)
    ensures Look(Drain(s).rest) == NeedMore
    ensures Drain(s).reset ==> Drain(s).rest == []
    decreases |s|
  {
    if Look(s).Whole? {
      DrainLeavesPartial(s[Look(s).size..]);
    }
  }

  lemma LookCutOut(s: seq<byte>)
    requires Look(s).Whole?
    ensures IsFrame(s[..Look(s).size])
  {
  }

  /** Draining loses and invents nothing: the frames and the rest are the stream. */
  lemma {:induction false} DrainConserves(s: seq<byte>)
    ensures AllFrames(Drain(s).frames)
    ensures Drain(s).reset || s == Join(Drain(s).frames) + Drain(s).rest
    decreases |s|
  {
    hide LengthField;
    if Look(s).Whole? {
      var size := Look(s).size;
      LookCutOut(s);
      DrainConserves(s[size..]);
      var o := Drain(s[size..]);
      assert Drain(s).frames[1..] == o.frames;
      assert Join(Drain(s).frames) == s[..size] + Join(o.frames);
    }
  }

  // ----- Chunks: how TCP cuts a stream into reads -----

  function Join(chunks: seq<seq<byte>>): seq<byte> {
    if chunks == [] then [] else chunks[0] + Join(chunks[1..])
  }

  lemma {:induction false} JoinAppend(a: seq<seq<byte>>, b: seq<seq<byte>>)
    ensures Join(a + b) == Join(a) + Join(b)
    decreases |a|
  {
    if a == [] {
      assert a + b == b;
    } else {
      JoinAppend(a[1..], b);
      assert (a + b)[0] == a[0] && (a + b)[1..] == a[1..] + b;
    }
  }

  /** Feed and drain chunk by chunk, starting with `buffered` left from before. */
  function FeedAll(buffered: seq<byte>, chunks: seq<seq<byte>>): Outcome
    decreases |chunks|
  {
    if chunks == [] then Outcome([], buffered, false)
    else
      var o := Drain(buffered + chunks[0]);
      Then(o, FeedAll(o.rest, chunks[1..]))
  }

  /** Chunking independence: unless the stream is invalid, how it was cut does not matter. */
  lemma {:induction false} ChunkingIndependence(buffered: seq<byte>, chunks: seq<seq<byte>>)
    requires Look(buffered) == NeedMore
    requires !Drain(buffered + Join(chunks)).reset
    ensures FeedAll(buffered, chunks) == Drain(buffered + Join(chunks))
    decreases |chunks|
  {
    hide Look;
    if chunks == [] {
      assert buffered + [] == buffered;
    } else {
      var first, others := buffered + chunks[0], Join(chunks[1..]);
      assert buffered + Join(chunks) == first + others;
      DrainAppend(first, others);
      DrainLeavesPartial(first);
      ChunkingIndependence(Drain(first).rest, chunks[1..]);
    }
  }

  /** An invalid stream is noticed while draining the first chunk that reveals it, and the
      packets delivered by then are those of the uncut stream. */
  lemma {:induction false} FirstReset(buffered: seq<byte>, chunks: seq<seq<byte>>) returns (j: nat)
    requires Look(buffered) == NeedMore
    requires Drain(buffered + Join(chunks)).reset
    ensures j < |chunks|
    ensures !FeedAll(buffered, chunks[..j]).reset
    ensures !Drain(buffered + Join(chunks[..j])).reset
    ensures Drain(buffered + Join(chunks[..j]) + chunks[j]) == Drain(buffered + Join(chunks))
    decreases |chunks|
  {
    hide Look;
    if chunks == [] {
      assert buffered + Join(chunks) == buffered;
    }
    var first, others := buffered + chunks[0], Join(chunks[1..]);
    assert buffered + Join(chunks) == first + others;
    DrainAppend(first, others);
    if Drain(first).reset {
      j := 0;
      assert buffered + Join(chunks[..0]) == buffered;
    } else {
      DrainLeavesPartial(first);
      var k := FirstReset(Drain(first).rest, chunks[1..]);
      j := k + 1;
      assert chunks[..j][0] == chunks[0] && chunks[..j][1..] == chunks[1..][..k];
      assert buffered + Join(chunks[..j]) == first + Join(chunks[1..][..k]);
      DrainTwice(first, Join(chunks[1..][..k]), chunks[j]);
    }
  }

  lemma DrainTwice(a: seq<byte>, b: seq<byte>, c: seq<byte>)
    requires !Drain(a).reset
    ensures Drain(a + b) == Then(Drain(a), Drain(Drain(a).rest + b))
    ensures Drain(a + b + c) == Then(Drain(a), Drain(Drain(a).rest + b + c))
  {
    hide Drain;
    DrainAppend(a, b);
    DrainAppend(a, b + c);
    assert a + b + c == a + (b + c);
    assert Drain(a).rest + b + c == Drain(a).rest + (b + c);
  }

  // ----- Streams made of frames -----

  predicate AllFrames(fs: seq<seq<byte>>) {
    forall i :: 0 <= i < |fs| ==> IsFrame(fs[i])
  }

  lemma DrainFrame(f: seq<byte>, more: seq<byte>)
    requires IsFrame(f)
    ensures Drain(f + more) == Then(Outcome([f], [], false), Drain(more))
  {
  }

  /** The packets at the front of a stream are delivered whatever follows them. */
  lemma {:induction false} DrainStream(fs: seq<seq<byte>>, tail: seq<byte>)
    requires AllFrames(fs)
    ensures Drain(Join(fs) + tail) == Then(Outcome(fs, [], false), Drain(tail))
    decreases |fs|
  {
    hide Look, Drain;
    if fs == [] {
      assert Join(fs) + tail == tail;
      assert [] + Drain(tail).frames == Drain(tail).frames;
    } else {
      var more := Join(fs[1..]) + tail;
      assert Join(fs) + tail == fs[0] + more;
      DrainFrame(fs[0], more);
      DrainStream(fs[1..], tail);
      assert [fs[0]] + (fs[1..] + Drain(tail).frames) == fs + Drain(tail).frames;
    }
  }

  /** How many frames are complete in the first `cut` bytes. */
  function Complete(fs: seq<seq<byte>>, cut: nat): (m: nat)
    ensures m <= |fs|
  {
    if fs == [] || cut < |fs[0]| then 0 else 1 + Complete(fs[1..], cut - |fs[0]|)
  }

  /** Complete counts as many frames as fit, and no fewer. */
  lemma {:induction false} CompleteIsMaximal(fs: seq<seq<byte>>, cut: nat)
    requires cut <= |Join(fs)|
    ensures var m := Complete(fs, cut);
            && |Join(fs[..m])| <= cut
            && (m < |fs| ==> cut < |Join(fs[..m + 1])|)
    decreases |fs|
  {
    if fs == [] || cut < |fs[0]| {
      assert fs != [] ==> fs[..1] == [fs[0]] && Join(fs[..1]) == fs[0] + [];
    } else {
      var k := Complete(fs[1..], cut - |fs[0]|);
      CompleteIsMaximal(fs[1..], cut - |fs[0]|);
      assert fs[..k + 1][0] == fs[0] && fs[..k + 1][1..] == fs[1..][..k];
      if k + 1 < |fs| {
        assert fs[..k + 2][0] == fs[0] && fs[..k + 2][1..] == fs[1..][..k + 1];
      }
    }
  }

  /** A stream of packets cut anywhere delivers the packets that are complete, keeps the
      rest, and never resets. */
  lemma {:induction false} DrainCut(fs: seq<seq<byte>>, cut: nat)
    requires AllFrames(fs)
    requires cut <= |Join(fs)|
    ensures var m := Complete(fs, cut);
            && Drain(Join(fs)[..cut]).frames == fs[..m]
            && !Drain(Join(fs)[..cut]).reset
            && Join(fs)[..cut] == Join(fs[..m]) + Drain(Join(fs)[..cut]).rest
    decreases |fs|
  {
    hide Look, Drain;
    var s := Join(fs);
    if fs == [] {
      DrainPartial(s[..cut]);
    } else if cut < |fs[0]| {
      LookCut(fs[0], cut);
      assert s[..cut] == fs[0][..cut] == [] + s[..cut];
      DrainPartial(s[..cut]);
    } else {
      var n := |fs[0]|;
      var t := Join(fs[1..]);
      var k := Complete(fs[1..], cut - n);
      DrainCut(fs[1..], cut - n);
      assert s[..cut] == fs[0] + t[..cut - n];
      DrainFrame(fs[0], t[..cut - n]);
      assert fs[..k + 1] == [fs[0]] + fs[1..][..k];
      JoinCons(fs[0], fs[1..][..k]);
    }
  }

  lemma JoinCons(f: seq<byte>, fs: seq<seq<byte>>)
    ensures Join([f] + fs) == f + Join(fs)
  {
  }

  lemma DrainPartial(s: seq<byte>)
    ensures Look(s) == NeedMore ==> Drain(s) == Outcome([], s, false)
    ensures s == [] ==> Look(s) == NeedMore
  {
  }

  lemma LookCut(f: seq<byte>, cut: nat)
    requires IsFrame(f) && cut < |f|
    ensures Look(f[..cut]) == NeedMore
  {
  }

  /** A header's worth of bytes whose length field no packet can have. */
  predicate BadLength(bad: seq<byte>) {
    && |bad| == 12
    && var n := bad[0] as int * 0x100_0000 + bad[1] as int * 0x1_0000 + bad[2] as int * 0x100 + bad[3] as int;
       n < 12 || n > 0x2000_0000
  }

  /** Bad streams: whatever the chunks, exactly the good packets are delivered before the
      reset, which happens in the chunk that completes the bad header and leaves the
      parser's buffer empty. */
  lemma BadStream(fs: seq<seq<byte>>, bad: seq<byte>, tail: seq<byte>, chunks: seq<seq<byte>>) returns (j: nat)
    requires AllFrames(fs) && BadLength(bad)
    requires Join(chunks) == Join(fs) + bad + tail
    ensures j < |chunks|
    ensures var before := FeedAll([], chunks[..j]);
            && !before.reset
            && Then(before, Drain(before.rest + chunks[j])) == Outcome(fs, [], true)
    ensures FeedAll([], chunks[..j + 1]) == Outcome(fs, [], true)
    ensures |Join(chunks[..j])| < |Join(fs)| + HEADER_LENGTH <= |Join(chunks[..j])| + |chunks[j]|
  {
    hide LengthField, Drain, FeedAll, Join, AllFrames;
    var stream := Join(chunks);
    ResetPoint(fs, bad, tail, |stream|);
    assert stream[..|stream|] == stream == [] + stream;
    j := FirstReset([], chunks);
    JoinPrefix(chunks, j);
    var seen := Join(chunks[..j]);
    assert [] + seen == seen;
    assert seen == stream[..|seen|] && seen + chunks[j] == stream[..|seen| + |chunks[j]|];
    ResetPoint(fs, bad, tail, |seen|);
    ResetPoint(fs, bad, tail, |seen| + |chunks[j]|);
    ChunkingIndependence([], chunks[..j]);
    DrainAppend(seen, chunks[j]);
    FeedSnoc([], chunks[..j], chunks[j]);
    assert chunks[..j + 1] == chunks[..j] + [chunks[j]];
  }

  /** Feeding one more chunk. */
  lemma {:induction false} FeedSnoc(buffered: seq<byte>, chunks: seq<seq<byte>>, chunk: seq<byte>)
    ensures var o := FeedAll(buffered, chunks);
            FeedAll(buffered, chunks + [chunk]) == Then(o, Drain(o.rest + chunk))
    decreases |chunks|
  {
    hide Drain;
    if chunks == [] {
      assert [chunk][1..] == [] && chunks + [chunk] == [chunk];
    } else {
      assert (chunks + [chunk])[0] == chunks[0] && (chunks + [chunk])[1..] == chunks[1..] + [chunk];
      FeedSnoc(Drain(buffered + chunks[0]).rest, chunks[1..], chunk);
    }
  }

  lemma {:induction false} JoinPrefix(chunks: seq<seq<byte>>, j: nat)
    requires j < |chunks|
    ensures Join(chunks[..j]) + chunks[j] <= Join(chunks)
    decreases j
  {
    if j > 0 {
      JoinPrefix(chunks[1..], j - 1);
      assert chunks[..j][0] == chunks[0] && chunks[..j][1..] == chunks[1..][..j - 1];
      assert chunks[0] + (Join(chunks[1..][..j - 1]) + chunks[j]) == Join(chunks[..j]) + chunks[j];
    }
  }

  /** A prefix of a bad stream resets the parser exactly when it holds the whole bad header. */
  lemma ResetPoint(fs: seq<seq<byte>>, bad: seq<byte>, tail: seq<byte>, cut: nat)
    requires AllFrames(fs) && BadLength(bad)
    requires cut <= |Join(fs) + bad + tail|
    ensures var o := Drain((Join(fs) + bad + tail)[..cut]);
            && (o.reset <==> cut >= |Join(fs)| + HEADER_LENGTH)
            && (o.reset ==> o == Outcome(fs, [], true))
  {
    var f := Join(fs);
    var s := (f + bad + tail)[..cut];
    if cut <= |f| {
      assert s == f[..cut];
      DrainCut(fs, cut);
    } else {
      var t := (bad + tail)[..cut - |f|];
      assert s == f + t;
      DrainStream(fs, t);
      if |t| >= HEADER_LENGTH {
        assert t == bad + t[HEADER_LENGTH..];
        LookMeaning(bad);
        LookAppend(bad, t[HEADER_LENGTH..]);
        assert fs + [] == fs;
      }
    }
  }

  // ----- From frames to packets -----

  /** The packets that a list of frames spells. */
  function ParseAll(fs: seq<seq<byte>>): (ps: seq<Package>)
    requires AllFrames(fs)
    ensures |ps| == |fs|
  {
    seq(|fs|, i requires 0 <= i < |fs| => ParsePackage(fs[i]))
  }

  lemma ParseAppend(a: seq<seq<byte>>, b: seq<seq<byte>>)
    requires AllFrames(a) && AllFrames(b)
    ensures AllFrames(a + b) && ParseAll(a + b) == ParseAll(a) + ParseAll(b)
  {
  }

  /** An encoded packet is a frame, unless its length is one the receiver calls invalid. */
  lemma PackageIsFrame(p: Package)
    requires HEADER_LENGTH + |p.content| < 0x1_0000_0000
    ensures IsFrame(PackageBytes(p)) <==> 12 + |p.content| <= 0x2000_0000
    ensures IsFrame(PackageBytes(p)) ==> ParseAll([PackageBytes(p)]) == [Received(p)]
  {
    PackageRoundTrip(p);
  }
}

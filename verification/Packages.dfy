/** The packet codec of NetPackage.cpp: a 12-byte header followed by the content. */
module Packages {
  import opened Bytes

  const HEADER_LENGTH: nat := 12
  const INVALID_LENGTH: nat := 512 * 1024 * 1024

  const CMD_KEEPALIVE: u16 := 1

  type bits2 = x: int | 0 <= x < 4
  type bits3 = x: int | 0 <= x < 8
  type bits4 = x: int | 0 <= x < 16

  /** tagNetPackageHeaderFlag: five bit fields. */
  datatype Flag = Flag(reserved: bits4, seqHigh: bits4, version: bits2, encrypt: bits3, compress: bits3)

  datatype Header = Header(length: u32, seqNo: u64, cmd: u16, flag: Flag)

  datatype Package = Package(header: Header, content: seq<byte>)

  /** Bits 32..35 of the sequence number: all that the four-bit field m_flag.seq keeps. */
  function SeqHigh(seqNo: u64): bits4 {
    seqNo / 0x1_0000_0000 % 16
  }

  /** The full sequence number, from the flag field and the low word. */
  function JoinSeq(high: bits4, low: u32): u64 {
    var h: int := high;
    h * 0x1_0000_0000 + low
  }

  function FlagWord(f: Flag): u16 {
    var reserved: int, seqHigh: int, version: int, encrypt: int := f.reserved, f.seqHigh, f.version, f.encrypt;
    reserved * 0x1000 + seqHigh * 0x100 + version * 0x40 + encrypt * 8 + f.compress
  }

  function ParseFlag(w: u16): Flag {
    Flag(w / 0x1000 % 16, w / 0x100 % 16, w / 0x40 % 4, w / 8 % 8, w % 8)
  }

  /** The twelve bytes of a header on the wire. */
  function HeaderBytes(h: Header): (b: seq<byte>)
    ensures |b| == HEADER_LENGTH
  {
    BigEndian32(h.length) + BigEndian32(h.seqNo % 0x1_0000_0000) + BigEndian16(h.cmd) +
    BigEndian16(FlagWord(h.flag.(seqHigh := SeqHigh(h.seqNo))))
  }

  function ParseHeader(b: seq<byte>): Header
    requires |b| >= HEADER_LENGTH
  {
    var flag := ParseFlag(FromBigEndian16(b[10..12]));
    Header(FromBigEndian32(b[..4]), JoinSeq(flag.seqHigh, FromBigEndian32(b[4..8])),
           FromBigEndian16(b[8..10]), flag)
  }

  /** What a receiver sees of a header: the sequence number keeps 36 bits. */
  function OnWire(h: Header): Header {
    h.(seqNo := h.seqNo % 0x10_0000_0000, flag := h.flag.(seqHigh := SeqHigh(h.seqNo)))
  }

  /** The five bit fields and the sixteen-bit word determine each other. */
  lemma FlagRoundTrip(f: Flag)
    ensures ParseFlag(FlagWord(f)) == f
  {
    var v := FlagWord(f);
    var top: int, high: int, version: int, encrypt: int := f.reserved, f.seqHigh, f.version, f.encrypt;
    var w3 := top * 16 + high;
    var w2 := w3 * 4 + version;
    var w1 := w2 * 8 + encrypt;
    Divided(v, 8, w1, f.compress);
    Divided(v, 0x40, w2, encrypt * 8 + f.compress);
    Divided(v, 0x100, w3, version * 0x40 + encrypt * 8 + f.compress);
    Divided(v, 0x1000, top, high * 0x100 + version * 0x40 + encrypt * 8 + f.compress);
    Divided(w1, 8, w2, encrypt);
    Divided(w2, 4, w3, version);
    Divided(w3, 16, top, high);
  }

  lemma FlagWordRoundTrip(w: u16)
    ensures FlagWord(ParseFlag(w)) == w
  {
    var w1, w2, w3, w4 := w / 8, w / 0x40, w / 0x100, w / 0x1000;
    assert w1 / 8 == w2 && w2 / 4 == w3 && w3 / 16 == w4;
    assert w4 % 16 == w4;
  }

  lemma SeqSplit(s: u64)
    ensures JoinSeq(SeqHigh(s), s % 0x1_0000_0000) == s % 0x10_0000_0000
  {
    var q: int, low: int := s / 0x1_0000_0000, s % 0x1_0000_0000;
    var top, high := q / 16, q % 16;
    assert s == top * 0x10_0000_0000 + (high * 0x1_0000_0000 + low);
  }

  lemma SeqJoin(high: bits4, low: u32)
    ensures var s := JoinSeq(high, low);
            SeqHigh(s) == high && s % 0x1_0000_0000 == low
  {
  }

  /** Where the bits of a header are on the wire: length, low 32 bits of the sequence number, command,
      each most significant byte first, then reserved and bits 32..35 of the sequence number, then
      version, encrypt and compress. */
  lemma HeaderLayout(h: Header)
    ensures var b, f := HeaderBytes(h), h.flag;
            var reserved: int, version: int, encrypt: int, compress: int := f.reserved, f.version, f.encrypt, f.compress;
            && |b| == 12
            && b[0] as int * 0x100_0000 + b[1] as int * 0x1_0000 + b[2] as int * 0x100 + b[3] as int == h.length
            && b[4] as int * 0x100_0000 + b[5] as int * 0x1_0000 + b[6] as int * 0x100 + b[7] as int == h.seqNo % 0x1_0000_0000
            && b[8] as int * 0x100 + b[9] as int == h.cmd
            && b[10] as int == reserved * 16 + h.seqNo / 0x1_0000_0000 % 16
            && b[11] as int == version * 64 + encrypt * 8 + compress
  {
    hide FlagWord, BigEndian16, BigEndian32;
    var f := h.flag.(seqHigh := SeqHigh(h.seqNo));
    BigEndianBytes(h.length, h.cmd);
    BigEndianBytes(h.seqNo % 0x1_0000_0000, FlagWord(f));
    FlagBytes(f);
  }

  lemma FlagBytes(f: Flag)
    ensures var w := FlagWord(f);
            var reserved: int, high: int, version: int, encrypt: int, compress: int
              := f.reserved, f.seqHigh, f.version, f.encrypt, f.compress;
            w / 0x100 == reserved * 16 + high && w % 0x100 == version * 64 + encrypt * 8 + compress
  {
    var reserved: int, high: int, version: int, encrypt: int := f.reserved, f.seqHigh, f.version, f.encrypt;
    Divided(FlagWord(f), 0x100, reserved * 16 + high, version * 64 + encrypt * 8 + f.compress);
  }

  /** The fields that twelve bytes spell. */
  lemma ParseLayout(b: seq<byte>)
    requires |b| >= 12
    ensures var h := ParseHeader(b);
            && h.length == b[0] as int * 0x100_0000 + b[1] as int * 0x1_0000 + b[2] as int * 0x100 + b[3] as int
            && h.seqNo == b[10] as int % 16 * 0x1_0000_0000
                          + b[4] as int * 0x100_0000 + b[5] as int * 0x1_0000 + b[6] as int * 0x100 + b[7] as int
            && h.cmd == b[8] as int * 0x100 + b[9] as int
            && h.flag.reserved == b[10] as int / 16 && h.flag.seqHigh == b[10] as int % 16
            && h.flag.version == b[11] as int / 64 && h.flag.encrypt == b[11] as int / 8 % 8
            && h.flag.compress == b[11] as int % 8
  {
    hide ParseFlag, FromBigEndian16, FromBigEndian32;
    FromBigEndianBytes(b[..4], b[8..10]);
    FromBigEndianBytes(b[4..8], b[10..12]);
    ParsedFlagBytes(b[10], b[11]);
  }

  lemma ParsedFlagBytes(hi: byte, lo: byte)
    ensures var h: int, l: int := hi, lo;
            var f := ParseFlag(h * 0x100 + l);
            && f.reserved == h / 16 && f.seqHigh == h % 16
            && f.version == l / 64 && f.encrypt == l / 8 % 8 && f.compress == l % 8
  {
    var h: int, l: int := hi, lo;
    var w := h * 0x100 + l;
    var h1, h0, l1, l0 := h / 16, h % 16, l / 64, l % 64;
    var m1, m0 := l / 8, l % 8;
    var k1, k0 := m1 / 8, m1 % 8;
    Divided(w, 0x1000, h1, h0 * 0x100 + l);
    Divided(w, 0x100, h, l);
    Divided(w, 0x40, h * 4 + l1, l0);
    Divided(w, 8, h * 32 + m1, m0);
    Divided(h * 4 + l1, 4, h, l1);
    Divided(h * 32 + m1, 8, h * 4 + k1, k0);
  }

  /** Decoding an encoded header gives it back, with 36 bits of the sequence number. */
  lemma HeaderRoundTrip(h: Header, rest: seq<byte>)
    ensures ParseHeader(HeaderBytes(h) + rest) == OnWire(h)
    ensures h.seqNo < 0x10_0000_0000 ==> ParseHeader(HeaderBytes(h) + rest).seqNo == h.seqNo
  {
    var b := HeaderBytes(h) + rest;
    var f := h.flag.(seqHigh := SeqHigh(h.seqNo));
    assert b[..4] == BigEndian32(h.length);
    assert b[4..8] == BigEndian32(h.seqNo % 0x1_0000_0000);
    assert b[8..10] == BigEndian16(h.cmd);
    assert b[10..12] == BigEndian16(FlagWord(f));
    BigEndianInverse(h.length, h.cmd);
    BigEndianInverse(h.seqNo % 0x1_0000_0000, FlagWord(f));
    FlagRoundTrip(f);
    SeqSplit(h.seqNo);
  }

  /** Every twelve bytes are the encoding of the header they decode to. */
  lemma HeaderBytesRoundTrip(b: seq<byte>)
    requires |b| == HEADER_LENGTH
    ensures HeaderBytes(ParseHeader(b)) == b
  {
    var h := ParseHeader(b);
    FromBigEndianInverse(b[..4], b[8..10]);
    FromBigEndianInverse(b[4..8], b[10..12]);
    FlagWordRoundTrip(FromBigEndian16(b[10..12]));
    SeqJoin(h.flag.seqHigh, FromBigEndian32(b[4..8]));
    assert h.flag.(seqHigh := SeqHigh(h.seqNo)) == h.flag;
    assert b == b[..4] + b[4..8] + b[8..10] + b[10..12];
  }

  /** The field m_flag.seq is recomputed on encoding: what it held does not matter. */
  lemma HeaderBytesKeepSeq(h: Header, x: bits4)
    ensures HeaderBytes(h.(flag := h.flag.(seqHigh := x))) == HeaderBytes(h)
  {
  }

  /** The bytes of a whole packet, as NetPackage::encode lays them out. */
  function PackageBytes(p: Package): (b: seq<byte>)
    requires HEADER_LENGTH + |p.content| < 0x1_0000_0000
    ensures |b| == HEADER_LENGTH + |p.content|
  {
    HeaderBytes(p.header.(length := HEADER_LENGTH + |p.content|)) + p.content
  }

  /** What a receiver sees of a packet. */
  function Received(p: Package): Package
    requires HEADER_LENGTH + |p.content| < 0x1_0000_0000
  {
    p.(header := OnWire(p.header.(length := HEADER_LENGTH + |p.content|)))
  }

  function ParsePackage(b: seq<byte>): Package
    requires |b| >= HEADER_LENGTH
  {
    Package(ParseHeader(b), b[HEADER_LENGTH..])
  }

  lemma PackageRoundTrip(p: Package)
    requires HEADER_LENGTH + |p.content| < 0x1_0000_0000
    ensures ParsePackage(PackageBytes(p)) == Received(p)
    ensures p.header.seqNo < 0x10_0000_0000 ==> Received(p).header.seqNo == p.header.seqNo
    ensures FromBigEndian32(PackageBytes(p)[..4]) == |PackageBytes(p)|
  {
    var h := p.header.(length := HEADER_LENGTH + |p.content|);
    HeaderRoundTrip(h, p.content);
    assert PackageBytes(p)[HEADER_LENGTH..] == p.content;
  }

  /** A received packet encodes to the same bytes again, and is itself received unchanged. */
  lemma ReceivedIsStable(p: Package)
    requires HEADER_LENGTH + |p.content| < 0x1_0000_0000
    ensures PackageBytes(Received(p)) == PackageBytes(p)
    ensures Received(Received(p)) == Received(p)
  {
    hide FlagWord, BigEndian16, BigEndian32;
    var s := p.header.seqNo;
    assert s % 0x10_0000_0000 % 0x1_0000_0000 == s % 0x1_0000_0000;
    assert SeqHigh(s % 0x10_0000_0000) == SeqHigh(s);
  }

  class NetPackageHeader {
    var length: u32
    var seqNo: u64
    var cmd: u16
    var flag: Flag

    constructor (cmd: u16, seqNo: u64, compress: byte, encrypt: byte)
      ensures Value() == Header(HEADER_LENGTH, seqNo, cmd, Flag(0, SeqHigh(seqNo), 0, encrypt % 8, compress % 8))
    {
      this.length := HEADER_LENGTH;
      this.cmd := cmd;
      this.seqNo := seqNo;
      this.flag := Flag(0, SeqHigh(seqNo), 0, encrypt % 8, compress % 8);
    }

    function Value(): Header
      reads this
    {
      Header(length, seqNo, cmd, flag)
    }

    /** Write the header at nPos, growing the vector when it is too short. */
    method Encode(data: ByteVector, nPos: nat) returns (pos: nat)
      requires nPos + HEADER_LENGTH <= INT32_MAX
      modifies this`flag, data, data.buf
      ensures pos == nPos + HEADER_LENGTH
      ensures Value() == old(Value()).(flag := old(flag).(seqHigh := SeqHigh(seqNo)))
      ensures data.buf == old(data.buf) || fresh(data.buf)
      ensures data.buf[..] == Spliced(old(data.buf[..]), nPos, HeaderBytes(Value()))
    {
      if data.buf.Length < nPos + HEADER_LENGTH {
        data.Resize(nPos + HEADER_LENGTH);
      }
      ghost var room := data.buf[..];
      ghost var written := BigEndian32(length);
      pos := nPos;
      data.Write(pos, BigEndian32(length));
      pos := pos + 4;
      data.Write(pos, BigEndian32(seqNo % 0x1_0000_0000));
      OverwriteAdjacent(room, nPos, written, BigEndian32(seqNo % 0x1_0000_0000));
      written := written + BigEndian32(seqNo % 0x1_0000_0000);
      pos := pos + 4;
      data.Write(pos, BigEndian16(cmd));
      OverwriteAdjacent(room, nPos, written, BigEndian16(cmd));
      written := written + BigEndian16(cmd);
      pos := pos + 2;
      flag := flag.(seqHigh := SeqHigh(seqNo));
      data.Write(pos, BigEndian16(FlagWord(flag)));
      OverwriteAdjacent(room, nPos, written, BigEndian16(FlagWord(flag)));
      pos := pos + 2;
    }

    /** Read the header found at nPos. */
    method Decode(data: seq<byte>, nPos: nat) returns (pos: nat)
      requires nPos + HEADER_LENGTH <= |data|
      modifies this
      ensures pos == nPos + HEADER_LENGTH
      ensures Value() == ParseHeader(data[nPos..pos])
      ensures length == data[nPos] as int * 0x100_0000 + data[nPos + 1] as int * 0x1_0000
                        + data[nPos + 2] as int * 0x100 + data[nPos + 3] as int
      ensures cmd == data[nPos + 8] as int * 0x100 + data[nPos + 9] as int
      ensures flag.reserved == data[nPos + 10] as int / 16 && flag.seqHigh == data[nPos + 10] as int % 16
      ensures flag.version == data[nPos + 11] as int / 64 && flag.encrypt == data[nPos + 11] as int / 8 % 8
      ensures flag.compress == data[nPos + 11] as int % 8
    {
      hide ParseFlag, FromBigEndian16, FromBigEndian32, JoinSeq;
      pos := nPos;
      length := FromBigEndian32(data[pos..pos + 4]);
      pos := pos + 4;
      seqNo := FromBigEndian32(data[pos..pos + 4]);
      pos := pos + 4;
      cmd := FromBigEndian16(data[pos..pos + 2]);
      pos := pos + 2;
      flag := ParseFlag(FromBigEndian16(data[pos..pos + 2]));
      seqNo := JoinSeq(flag.seqHigh, seqNo);
      pos := pos + 2;
      ghost var b := data[nPos..pos];
      assert b[..4] == data[nPos..nPos + 4] && b[4..8] == data[nPos + 4..nPos + 8];
      assert b[8..10] == data[nPos + 8..nPos + 10] && b[10..12] == data[nPos + 10..nPos + 12];
      ParseLayout(b);
    }
  }

  class NetPackage {
    const pkgHeader: NetPackageHeader
    var pkgContent: seq<byte>

    constructor (header: NetPackageHeader, content: seq<byte>)
      ensures pkgHeader == header && pkgContent == content
    {
      pkgHeader := header;
      pkgContent := content;
    }

    function Value(): Package
      reads this, pkgHeader
    {
      Package(pkgHeader.Value(), pkgContent)
    }

    /** Write header and content at nPos, setting the header's length field first. */
    method Encode(data: ByteVector, nPos: nat) returns (pos: nat)
      requires nPos + HEADER_LENGTH + |pkgContent| <= INT32_MAX
      modifies pkgHeader, data, data.buf
      ensures pos == nPos + HEADER_LENGTH + |pkgContent|
      ensures data.buf == old(data.buf) || fresh(data.buf)
      ensures data.buf[..] == Spliced(old(data.buf[..]), nPos, PackageBytes(old(Value())))
      ensures pkgHeader.length == HEADER_LENGTH + |pkgContent| && OnWire(pkgHeader.Value()) == Received(old(Value())).header
    {
      hide HeaderBytes, ParseHeader, Resized, Overwritten;
      pkgHeader.length := HEADER_LENGTH + |pkgContent|;
      if data.buf.Length < pkgHeader.length + nPos {
        data.Resize(pkgHeader.length + nPos);
      }
      ghost var room := data.buf[..];
      pos := pkgHeader.Encode(data, nPos);
      ghost var headerBytes := HeaderBytes(old(pkgHeader.Value()).(length := pkgHeader.length));
      if |pkgContent| > 0 {
        data.Write(pos, pkgContent);
      }
      OverwriteNothing(Overwritten(room, nPos, headerBytes), pos);
      HeaderBytesKeepSeq(old(pkgHeader.Value()).(length := pkgHeader.length), SeqHigh(pkgHeader.seqNo));
      OverwriteAdjacent(room, nPos, headerBytes, pkgContent);
      pos := pos + |pkgContent|;
    }

    /** Read a packet of pkgLength bytes found at nPos. */
    method Decode(data: seq<byte>, pkgLength: nat, nPos: nat) returns (pos: nat)
      requires HEADER_LENGTH <= pkgLength && nPos + pkgLength <= |data|
      modifies this, pkgHeader
      ensures pos == nPos + pkgLength
      ensures Value() == ParsePackage(data[nPos..pos])
    {
      pos := pkgHeader.Decode(data, nPos);
      pkgContent := data[pos..pos + pkgLength - HEADER_LENGTH];
      pos := pos + |pkgContent|;
      ghost var b := data[nPos..pos];
      assert b[..HEADER_LENGTH] == data[nPos..nPos + HEADER_LENGTH];
      ParseHeaderPrefix(b);
      assert b[HEADER_LENGTH..] == pkgContent;
    }
  }

  /** A packet object with the given fields. */
  method Wrap(p: Package) returns (q: NetPackage)
    ensures fresh(q) && fresh(q.pkgHeader) && q.Value() == p
  {
    var header := new NetPackageHeader(p.header.cmd, p.header.seqNo, 0, 0);
    header.length, header.flag := p.header.length, p.header.flag;
    q := new NetPackage(header, p.content);
  }

  /** A header is read from the first twelve bytes only. */
  lemma ParseHeaderPrefix(b: seq<byte>)
    requires |b| >= HEADER_LENGTH
    ensures ParseHeader(b) == ParseHeader(b[..HEADER_LENGTH])
  {
  }

  /** Encoding at any offset and decoding there returns the packet; bytes outside are untouched. */
  method EncodeThenDecode(p: NetPackage, q: NetPackage, data: ByteVector, nPos: nat) returns (pos: nat)
    requires nPos + HEADER_LENGTH + |p.pkgContent| <= INT32_MAX
    requires p != q && p.pkgHeader != q.pkgHeader
    modifies p.pkgHeader, q, q.pkgHeader, data, data.buf
    ensures q.Value() == Received(old(p.Value()))
    ensures pos == nPos + HEADER_LENGTH + |p.pkgContent| <= data.buf.Length
    ensures old(data.buf.Length) <= data.buf.Length
    ensures forall i :: 0 <= i < old(data.buf.Length) && !(nPos <= i < pos) ==> data.buf[i] == old(data.buf[i])
  {
    ghost var value := p.Value();
    ghost var before := data.buf[..];
    pos := p.Encode(data, nPos);
    var bytes := data.buf[..];
    assert bytes[nPos..pos] == PackageBytes(value);
    assert forall i :: 0 <= i < |before| && !(nPos <= i < pos) ==> bytes[i] == before[i];
    var end := q.Decode(bytes, pos - nPos, nPos);
    PackageRoundTrip(value);
  }
}

/** Bytes, fixed-width unsigned integers in network byte order, and the growable
    byte vector that the repository calls ByteArray. */
module Bytes {
  type byte = x: int | 0 <= x < 0x100
  type u16 = x: int | 0 <= x < 0x1_0000
  type u32 = x: int | 0 <= x < 0x1_0000_0000
  type u64 = x: int | 0 <= x < 0x1_0000_0000_0000_0000

  const INT32_MAX: int := 0x7FFF_FFFF

  /** The four bytes that htonl followed by memcpy leaves in memory. */
  function BigEndian32(v: u32): (b: seq<byte>)
    ensures |b| == 4
  {
    [v / 0x100_0000, v / 0x1_0000 % 0x100, v / 0x100 % 0x100, v % 0x100]
  }

  function BigEndian16(v: u16): (b: seq<byte>)
    ensures |b| == 2
  {
    [v / 0x100, v % 0x100]
  }

  /** memcpy of four bytes followed by ntohl. */
  function FromBigEndian32(b: seq<byte>): u32
    requires |b| == 4
  {
    var b0: int, b1: int, b2: int := b[0], b[1], b[2];
    b0 * 0x100_0000 + b1 * 0x1_0000 + b2 * 0x100 + b[3]
  }

  function FromBigEndian16(b: seq<byte>): u16
    requires |b| == 2
  {
    var b0: int := b[0];
    b0 * 0x100 + b[1]
  }

  lemma BigEndianInverse(v: u32, w: u16)
    ensures FromBigEndian32(BigEndian32(v)) == v
    ensures FromBigEndian16(BigEndian16(w)) == w
  {
    var v1, v2, v3 := v / 0x100, v / 0x1_0000, v / 0x100_0000;
    assert v1 / 0x100 == v2 && v2 / 0x100 == v3;
  }

  lemma Multiple(k: int, d: nat)
    ensures k >= 1 ==> k * d >= d
  {
  }

  /** A number written as a quotient and a remainder. */
  lemma Divided(x: int, d: nat, q: int, r: nat)
    requires r < d && x == q * d + r
    ensures x / d == q && x % d == r
  {
    var k := q - x / d;
    Multiple(k, d);
    Multiple(-k, d);
    assert k * d == x % d - r;
  }

  lemma FromBigEndianInverse(b: seq<byte>, c: seq<byte>)
    requires |b| == 4 && |c| == 2
    ensures BigEndian32(FromBigEndian32(b)) == b
    ensures BigEndian16(FromBigEndian16(c)) == c
  {
    var b0: int, b1: int, b2: int, v: int := b[0], b[1], b[2], FromBigEndian32(b);
    var w := b0 * 0x100 + b1;
    var u := w * 0x100 + b2;
    Divided(v, 0x100, u, b[3]);
    Divided(v, 0x1_0000, w, b2 * 0x100 + b[3]);
    Divided(v, 0x100_0000, b0, b1 * 0x1_0000 + b2 * 0x100 + b[3]);
    Divided(w, 0x100, b0, b1);
    Divided(u, 0x100, w, b2);
  }

  /** Network byte order: the most significant byte comes first. */
  lemma BigEndianBytes(v: u32, w: u16)
    ensures var b := BigEndian32(v);
            b[0] as int * 0x100_0000 + b[1] as int * 0x1_0000 + b[2] as int * 0x100 + b[3] as int == v
    ensures var c := BigEndian16(w); c[0] as int == w / 0x100 && c[1] as int == w % 0x100
  {
    BigEndianInverse(v, w);
  }

  lemma FromBigEndianBytes(b: seq<byte>, c: seq<byte>)
    requires |b| == 4 && |c| == 2
    ensures FromBigEndian32(b) == b[0] as int * 0x100_0000 + b[1] as int * 0x1_0000 + b[2] as int * 0x100 + b[3] as int
    ensures FromBigEndian16(c) == c[0] as int * 0x100 + c[1] as int
  {
  }

  function Zeros(n: nat): (z: seq<byte>)
    ensures |z| == n && forall i :: 0 <= i < n ==> z[i] == 0
  {
    seq(n, _ => 0)
  }

  /** What std::vector::resize(n) leaves: a truncation, or an extension by zeros. */
  function Resized(s: seq<byte>, n: nat): (r: seq<byte>)
    ensures |r| == n
  {
    if n <= |s| then s[..n] else s + Zeros(n - |s|)
  }

  /** s grown by zeros until `bytes` fits at `pos`, with `bytes` written there. */
  function Spliced(s: seq<byte>, pos: nat, bytes: seq<byte>): (r: seq<byte>)
    ensures |r| == if |s| < pos + |bytes| then pos + |bytes| else |s|
  {
    var room := if |s| < pos + |bytes| then Resized(s, pos + |bytes|) else s;
    Overwritten(room, pos, bytes)
  }

  /** `s` with `done` written at `pos`. */
  function Overwritten(s: seq<byte>, pos: nat, done: seq<byte>): (r: seq<byte>)
    requires pos + |done| <= |s|
    ensures |r| == |s|
  {
    s[..pos] + done + s[pos + |done|..]
  }

  /** Writing just behind a range extends it. */
  lemma OverwriteExtends(s: seq<byte>, from: nat, pos: nat, more: seq<byte>)
    requires from <= pos && pos + |more| <= |s|
    ensures Overwritten(s, pos, more)[from..pos + |more|] == s[from..pos] + more
  {
  }

  /** Two adjacent writes make one. */
  lemma OverwriteAdjacent(s: seq<byte>, pos: nat, done: seq<byte>, more: seq<byte>)
    requires pos + |done| + |more| <= |s|
    ensures Overwritten(Overwritten(s, pos, done), pos + |done|, more) == Overwritten(s, pos, done + more)
  {
  }

  lemma SpliceAlone(bytes: seq<byte>)
    ensures Spliced([], 0, bytes) == bytes
  {
  }

  lemma OverwriteNothing(s: seq<byte>, pos: nat)
    requires pos <= |s|
    ensures Overwritten(s, pos, []) == s
  {
  }

  /** memcpy(&buf[pos], &bytes[0], |bytes|). */
  method CopyInto(buf: array<byte>, pos: nat, bytes: seq<byte>)
    requires pos + |bytes| <= buf.Length
    modifies buf
    ensures buf[..] == Overwritten(old(buf[..]), pos, bytes)
  {
    forall i | 0 <= i < |bytes| {
      buf[pos + i] := bytes[i];
    }
  }

  /** New storage of n bytes that starts with what fits of the old. */
  method Moved(buf: array<byte>, n: nat) returns (r: array<byte>)
    ensures fresh(r) && r[..] == Resized(buf[..], n)
  {
    var contents := Resized(buf[..], n);
    r := new byte[n](i requires 0 <= i < |contents| => contents[i]);
  }

  /** A growable array: std::vector<BYTE>. Resizing moves the elements to new storage. */
  class ByteVector {
    var buf: array<byte>

    constructor (contents: seq<byte>)
      ensures fresh(buf) && buf[..] == contents
    {
      buf := new byte[|contents|](i requires 0 <= i < |contents| => contents[i]);
    }

    method Resize(n: nat)
      modifies this
      ensures fresh(buf) && buf[..] == Resized(old(buf[..]), n)
    {
      buf := Moved(buf, n);
    }

    method Write(pos: nat, bytes: seq<byte>)
      requires pos + |bytes| <= buf.Length
      modifies buf
      ensures buf[..] == Overwritten(old(buf[..]), pos, bytes)
    {
      CopyInto(buf, pos, bytes);
    }
  }
}

/** Base64 as RFC 4648 defines it: groups of three bytes read as four six-bit digits. The encoder
    and decoder of base64.c are proved against these definitions. */
module Base64Spec {
  import opened Bytes

  type sextet = x: int | 0 <= x < 64

  // ----- Bytes to sextets and back -----

  /** A 24-bit group. */
  type word24 = w: int | 0 <= w < 0x100_0000

  function WordOfBytes(b0: byte, b1: byte, b2: byte): word24 {
    var hi: int, mid: int := b0, b1;
    (hi * 0x100 + mid) * 0x100 + b2
  }

  function WordOfSextets(x0: sextet, x1: sextet, x2: sextet, x3: sextet): word24 {
    var y0: int, y1: int, y2: int := x0, x1, x2;
    ((y0 * 64 + y1) * 64 + y2) * 64 + x3
  }

  function BytesOfWord(w: word24): (b: seq<byte>)
    ensures |b| == 3
  {
    [w / 0x1_0000, w / 0x100 % 0x100, w % 0x100]
  }

  function SextetsOfWord(w: word24): (g: seq<sextet>)
    ensures |g| == 4
  {
    [w / 0x4_0000, w / 0x1000 % 64, w / 64 % 64, w % 64]
  }

  /** Section 4 of RFC 4648: three bytes as four six-bit digits. */
  function GroupSextets(b0: byte, b1: byte, b2: byte): (g: seq<sextet>)
    ensures |g| == 4
  {
    SextetsOfWord(WordOfBytes(b0, b1, b2))
  }

  /** The same group, read back as three bytes. */
  function GroupBytes(x0: sextet, x1: sextet, x2: sextet, x3: sextet): (g: seq<byte>)
    ensures |g| == 3
  {
    BytesOfWord(WordOfSextets(x0, x1, x2, x3))
  }

  /** A last group of one or two bytes is filled up with zero bits. */
  function Sextets(b: seq<byte>): seq<sextet>
    decreases |b|
  {
    if |b| == 0 then []
    else if |b| == 1 then GroupSextets(b[0], 0, 0)[..2]
    else if |b| == 2 then GroupSextets(b[0], b[1], 0)[..3]
    else GroupSextets(b[0], b[1], b[2]) + Sextets(b[3..])
  }

  /** The whole bytes in a string of sextets. */
  function Pack(xs: seq<sextet>): seq<byte>
    decreases |xs|
  {
    if |xs| <= 1 then []
    else if |xs| == 2 then GroupBytes(xs[0], xs[1], 0, 0)[..1]
    else if |xs| == 3 then GroupBytes(xs[0], xs[1], xs[2], 0)[..2]
    else GroupBytes(xs[0], xs[1], xs[2], xs[3]) + Pack(xs[4..])
  }

  /** Section 3.5 of RFC 4648: no lone sextet, and the bits beyond the last byte are zero. */
  predicate Canonical(xs: seq<sextet>) {
    var n := |xs|;
    n % 4 != 1 && (n % 4 == 2 ==> xs[n - 1] % 16 == 0) && (n % 4 == 3 ==> xs[n - 1] % 4 == 0)
  }

  lemma BytesRoundTrip(b0: byte, b1: byte, b2: byte)
    ensures BytesOfWord(WordOfBytes(b0, b1, b2)) == [b0, b1, b2]
  {
  }

  lemma SextetsRoundTrip(x0: sextet, x1: sextet, x2: sextet, x3: sextet)
    ensures SextetsOfWord(WordOfSextets(x0, x1, x2, x3)) == [x0, x1, x2, x3]
  {
    var y0: int, y1: int, y2: int := x0, x1, x2;
    var w := WordOfSextets(x0, x1, x2, x3);
    assert w / 64 == (y0 * 64 + y1) * 64 + y2 && w / 0x1000 == y0 * 64 + y1 && w / 0x4_0000 == y0;
  }

  lemma WordRoundTrip(w: word24)
    ensures var b := BytesOfWord(w); WordOfBytes(b[0], b[1], b[2]) == w
    ensures var x := SextetsOfWord(w); WordOfSextets(x[0], x[1], x[2], x[3]) == w
  {
    assert w / 0x100 / 0x100 == w / 0x1_0000;
    assert w / 64 / 64 == w / 0x1000 && w / 0x1000 / 64 == w / 0x4_0000;
  }

  /** A group of three bytes and its four digits determine each other. */
  lemma GroupRoundTrip(b0: byte, b1: byte, b2: byte)
    ensures var g := GroupSextets(b0, b1, b2); GroupBytes(g[0], g[1], g[2], g[3]) == [b0, b1, b2]
  {
    hide WordOfBytes, BytesOfWord, SextetsOfWord, WordOfSextets;
    WordRoundTrip(WordOfBytes(b0, b1, b2));
    BytesRoundTrip(b0, b1, b2);
  }

  lemma GroupBack(x0: sextet, x1: sextet, x2: sextet, x3: sextet)
    ensures var g := GroupBytes(x0, x1, x2, x3); GroupSextets(g[0], g[1], g[2]) == [x0, x1, x2, x3]
  {
    hide WordOfBytes, BytesOfWord, SextetsOfWord, WordOfSextets;
    WordRoundTrip(WordOfSextets(x0, x1, x2, x3));
    SextetsRoundTrip(x0, x1, x2, x3);
  }

  /** Zero bytes at the end of a group are zero bits at the end of its digits. */
  lemma ShortBytes(b0: byte, b1: byte)
    ensures var g := GroupSextets(b0, b1, 0); g[3] == 0 && g[2] % 4 == 0
  {
    var hi: int, mid: int := b0, b1;
    var w := hi * 0x100 + mid;
    assert WordOfBytes(b0, b1, 0) == w * 4 * 64;
    assert w * 4 * 64 / 64 == w * 4;
  }

  lemma ShorterBytes(b0: byte)
    ensures var g := GroupSextets(b0, 0, 0); g[3] == 0 && g[2] == 0 && g[1] % 16 == 0
  {
    var hi: int := b0;
    var w := hi * 16;
    assert WordOfBytes(b0, 0, 0) == w * 0x1000;
    assert w * 0x1000 / 0x1000 == w && w * 0x1000 / 64 == w * 64;
  }

  lemma ShortSextets(x0: sextet, x1: sextet, x2: sextet)
    ensures x2 % 4 == 0 ==> GroupBytes(x0, x1, x2, 0)[2] == 0
  {
    var y0: int, y1: int, y2: int := x0, x1, x2;
    if x2 % 4 == 0 {
      var k := (y0 * 64 + y1) * 16 + y2 / 4;
      assert WordOfSextets(x0, x1, x2, 0) == k * 0x100;
    }
  }

  lemma ShorterSextets(x0: sextet, x1: sextet)
    ensures x1 % 16 == 0 ==> GroupBytes(x0, x1, 0, 0)[1] == 0 && GroupBytes(x0, x1, 0, 0)[2] == 0
  {
    var y0: int, y1: int := x0, x1;
    if x1 % 16 == 0 {
      var k := y0 * 4 + y1 / 16;
      assert WordOfSextets(x0, x1, 0, 0) == k * 0x1_0000;
      assert k * 0x1_0000 / 0x100 == k * 0x100;
    }
  }

  /** How many sextets n bytes take. */
  function SextetCount(n: nat): nat {
    n / 3 * 4 + if n % 3 == 0 then 0 else n % 3 + 1
  }

  /** Every byte string is recovered from its sextets, which are canonical. */
  lemma {:induction false} PackSextets(b: seq<byte>)
    ensures Pack(Sextets(b)) == b && Canonical(Sextets(b)) && |Sextets(b)| == SextetCount(|b|)
    decreases |b|
  {
    hide GroupSextets, GroupBytes;
    if |b| >= 3 {
      GroupRoundTrip(b[0], b[1], b[2]);
      PackSextets(b[3..]);
      PackGroup(GroupSextets(b[0], b[1], b[2]), Sextets(b[3..]));
      assert b == [b[0], b[1], b[2]] + b[3..];
    } else if |b| == 2 {
      GroupRoundTrip(b[0], b[1], 0);
      ShortBytes(b[0], b[1]);
    } else if |b| == 1 {
      GroupRoundTrip(b[0], 0, 0);
      ShorterBytes(b[0]);
    }
  }

  lemma PackGroup(g: seq<sextet>, more: seq<sextet>)
    requires |g| == 4
    ensures Pack(g + more) == GroupBytes(g[0], g[1], g[2], g[3]) + Pack(more)
    ensures Canonical(g + more) <==> Canonical(more)
  {
    hide GroupBytes;
    assert (g + more)[4..] == more;
  }

  /** Every canonical string of sextets is recovered from its bytes. */
  lemma {:induction false} SextetsPack(xs: seq<sextet>)
    requires Canonical(xs)
    ensures Sextets(Pack(xs)) == xs
    decreases |xs|
  {
    hide GroupSextets, GroupBytes;
    if |xs| >= 4 {
      var g, more := GroupBytes(xs[0], xs[1], xs[2], xs[3]), Pack(xs[4..]);
      GroupBack(xs[0], xs[1], xs[2], xs[3]);
      assert xs == [xs[0], xs[1], xs[2], xs[3]] + xs[4..];
      SextetsPack(xs[4..]);
      assert (g + more)[3..] == more;
    } else if |xs| == 3 {
      GroupBack(xs[0], xs[1], xs[2], 0);
      ShortSextets(xs[0], xs[1], xs[2]);
    } else if |xs| == 2 {
      GroupBack(xs[0], xs[1], 0, 0);
      ShorterSextets(xs[0], xs[1]);
    }
  }

  /** The byte at i, or zero bits behind the end. */
  function ByteAt(b: seq<byte>, i: nat): int {
    if i < |b| then b[i] else 0
  }

  /** Which bits each digit holds: six at a time, the most significant first. */
  lemma {:induction false} SextetsAt(b: seq<byte>, i: nat)
    ensures |Sextets(b)| == |b| / 3 * 4 + if |b| % 3 == 0 then 0 else |b| % 3 + 1
    ensures i < |Sextets(b)| ==>
              var b0, b1, b2 := ByteAt(b, i / 4 * 3), ByteAt(b, i / 4 * 3 + 1), ByteAt(b, i / 4 * 3 + 2);
              Sextets(b)[i] == match i % 4
                case 0 => b0 / 4
                case 1 => b0 % 4 * 16 + b1 / 16
                case 2 => b1 % 16 * 4 + b2 / 64
                case _ => b2 % 64
    decreases |b|
  {
    hide GroupSextets;
    if |b| >= 3 {
      GroupBits(b[0], b[1], b[2]);
      var j := if i >= 4 then i - 4 else 0;
      SextetsAt(b[3..], j);
      assert |b[3..]| / 3 == |b| / 3 - 1 && |b[3..]| % 3 == |b| % 3;
      if i >= 4 {
        assert i / 4 == j / 4 + 1 && i % 4 == j % 4;
        BytesBehind(b, j / 4 * 3);
      }
    } else {
      GroupBits(ByteAt(b, 0), ByteAt(b, 1), 0);
    }
  }

  lemma BytesBehind(b: seq<byte>, k: nat)
    requires |b| >= 3
    ensures forall j: nat :: k <= j <= k + 2 ==> ByteAt(b[3..], j) == ByteAt(b, j + 3)
  {
  }

  lemma GroupBits(b0: byte, b1: byte, b2: byte)
    ensures var c0: int, c1: int, c2: int := b0, b1, b2;
            GroupSextets(b0, b1, b2) == [c0 / 4, c0 % 4 * 16 + c1 / 16, c1 % 16 * 4 + c2 / 64, c2 % 64]
  {
    var c0: int, c1: int, c2: int := b0, b1, b2;
    var w := WordOfBytes(b0, b1, b2);
    var p1, p0, q1, q0, r1, r0 := c0 / 4, c0 % 4, c1 / 16, c1 % 16, c2 / 64, c2 % 64;
    var x1, x2 := p0 * 16 + q1, q0 * 4 + r1;
    Divided(w, 0x4_0000, p1, x1 * 0x1000 + x2 * 64 + r0);
    Divided(w, 0x1000, p1 * 64 + x1, x2 * 64 + r0);
    Divided(w, 64, (p1 * 64 + x1) * 64 + x2, r0);
    Divided(p1 * 64 + x1, 64, p1, x1);
    Divided((p1 * 64 + x1) * 64 + x2, 64, p1 * 64 + x1, x2);
  }

  // ----- Alphabets -----

  /** Sixty-four digits and a padding character, all different and none of them NUL. */
  predicate IsAlphabet(a: seq<byte>) {
    && |a| == 65
    && (forall i :: 0 <= i < 65 ==> a[i] != 0)
    && (forall i, j :: 0 <= i < j < 65 ==> a[i] != a[j])
  }

  /** What the table says of a byte: its place in the alphabet, or 65. */
  function Place(a: seq<byte>, c: byte): (p: nat)
    requires |a| <= 65
    ensures (p < |a| && a[p] == c) || (p == 65 && c !in a)
  {
    PlaceFrom(a, c, 0)
  }

  function PlaceFrom(a: seq<byte>, c: byte, i: nat): (p: nat)
    requires i <= |a| <= 65
    ensures (i <= p < |a| && a[p] == c) || (p == 65 && forall j :: i <= j < |a| ==> a[j] != c)
    decreases |a| - i
  {
    if i == |a| then 65 else if a[i] == c then i else PlaceFrom(a, c, i + 1)
  }

  /** The characters of the given digits. */
  function Spell(a: seq<byte>, xs: seq<sextet>): (t: seq<byte>)
    requires IsAlphabet(a)
    ensures |t| == |xs| && forall i :: 0 <= i < |xs| ==> t[i] == a[xs[i]]
  {
    seq(|xs|, i requires 0 <= i < |xs| => a[xs[i]])
  }

  // ----- Encoded text -----

  const NEWLINE: byte := 10

  /** A newline after every 76 characters. */
  function Lines(t: seq<byte>): seq<byte>
    decreases |t|
  {
    if |t| < 76 then t else t[..76] + [NEWLINE] + Lines(t[76..])
  }

  function Padding(a: seq<byte>, n: nat): (p: seq<byte>)
    requires IsAlphabet(a)
    ensures |p| == if n % 3 == 0 then 0 else 3 - n % 3
  {
    if n % 3 == 0 then [] else if n % 3 == 1 then [a[64], a[64]] else [a[64]]
  }

  datatype Flags = Flags(noPadding: bool, autoNewline: bool)

  /** The text that encodes b: line breaks go only between the characters of whole groups. */
  function Text(a: seq<byte>, b: seq<byte>, flags: Flags): seq<byte>
    requires IsAlphabet(a)
  {
    var whole := |b| / 3 * 3;
    var body := Spell(a, Sextets(b[..whole]));
    (if flags.autoNewline then Lines(body) else body) +
    Spell(a, Sextets(b[whole..])) +
    (if flags.noPadding then [] else Padding(a, |b|))
  }

  lemma {:induction false} SextetsAppend(b: seq<byte>, more: seq<byte>)
    requires |b| % 3 == 0
    ensures Sextets(b + more) == Sextets(b) + Sextets(more)
    decreases |b|
  {
    hide GroupSextets;
    if b == [] {
      assert b + more == more && [] + Sextets(more) == Sextets(more);
    } else {
      var s := b + more;
      assert s[3..] == b[3..] + more;
      SextetsAppend(b[3..], more);
      var g := GroupSextets(b[0], b[1], b[2]);
      assert g + (Sextets(b[3..]) + Sextets(more)) == g + Sextets(b[3..]) + Sextets(more);
    }
  }

  lemma SpellAppend(a: seq<byte>, xs: seq<sextet>, ys: seq<sextet>)
    requires IsAlphabet(a)
    ensures Spell(a, xs + ys) == Spell(a, xs) + Spell(a, ys)
  {
  }

  /** Writing on the last line: it gets its newline when it becomes full. */
  lemma {:induction false} LinesAppend(t: seq<byte>, g: seq<byte>)
    requires 0 < |g| && |t| % 76 + |g| <= 76
    ensures Lines(t + g) == Lines(t) + g + if |t| % 76 + |g| == 76 then [NEWLINE] else []
    ensures |Lines(t)| == |t| + |t| / 76
    decreases |t|
  {
    if |t| < 76 {
      if |t| + |g| == 76 {
        assert (t + g)[..76] == t + g && (t + g)[76..] == [];
        assert t + g + [NEWLINE] + [] == t + g + [NEWLINE];
      } else {
        assert t + g + [] == t + g;
      }
    } else {
      assert (t + g)[..76] == t[..76] && (t + g)[76..] == t[76..] + g;
      LinesAppend(t[76..], g);
      var end := if |t| % 76 + |g| == 76 then [NEWLINE] else [];
      assert t[..76] + [NEWLINE] + (Lines(t[76..]) + g + end) == t[..76] + [NEWLINE] + Lines(t[76..]) + g + end;
    }
  }

  /** Where the newlines are: one ends each full line of 76, and there are no others. */
  lemma {:induction false} LinesShape(t: seq<byte>)
    requires NEWLINE !in t
    ensures |Lines(t)| == |t| + |t| / 76
    ensures forall i :: 0 <= i < |Lines(t)| ==> (Lines(t)[i] == NEWLINE <==> i % 77 == 76)
    decreases |t|
  {
    if |t| >= 76 {
      LinesShape(t[76..]);
      var l, m := Lines(t), Lines(t[76..]);
      forall i | 0 <= i < |l|
        ensures l[i] == NEWLINE <==> i % 77 == 76
      {
        if i >= 77 {
          assert l[i] == m[i - 77] && i % 77 == (i - 77) % 77;
        }
      }
    }
  }

  /** Lines of 76 characters, each ended by character 10. */
  lemma {:induction false} LinesAt(t: seq<byte>, i: nat)
    ensures |Lines(t)| == |t| + |t| / 76
    ensures i < |Lines(t)| ==>
              if i % 77 == 76 then Lines(t)[i] == 10 else i - i / 77 < |t| && Lines(t)[i] == t[i - i / 77]
    decreases |t|
  {
    if |t| >= 76 {
      if i >= 77 {
        LinesAt(t[76..], i - 77);
        assert i / 77 == (i - 77) / 77 + 1 && i % 77 == (i - 77) % 77;
      } else {
        LinesAt(t[76..], 0);
      }
    }
  }

  /** Four characters a group, the tail, and a newline every nineteen groups. */
  function EncodedLength(n: nat, flags: Flags): nat {
    var tail := if n % 3 == 0 then 0 else if flags.noPadding then n % 3 + 1 else 4;
    4 * (n / 3) + tail + if flags.autoNewline then n / 3 / 19 else 0
  }

  /** The parts of the text add up. */
  lemma LengthsAdd(n: nat, flags: Flags)
    ensures var groups := n / 3;
            var body := groups * 4;
            var pad := if flags.noPadding || n % 3 == 0 then 0 else 3 - n % 3;
            && n / 3 * 3 / 3 == groups && n / 3 * 3 % 3 == 0 && n - n / 3 * 3 == n % 3
            && EncodedLength(n, flags) ==
                 body + (if flags.autoNewline then body / 76 else 0) + (if n % 3 == 0 then 0 else n % 3 + 1) + pad
    ensures EncodedLength(n, Flags(true, false)) == (n * 4 + 2) / 3
  {
  }

  lemma LengthIs(n: nat, flags: Flags)
    ensures EncodedLength(n, flags) ==
              4 * (n / 3) + (if n % 3 == 0 then 0 else if flags.noPadding then n % 3 + 1 else 4)
              + (if flags.autoNewline then n / 3 / 19 else 0)
  {
  }

  /** Encoder length: four characters a group, the tail, and (n/3)/19 newlines; without padding
      and newlines it is the header's BASE64_LEN(n). */
  lemma TextLength(a: seq<byte>, b: seq<byte>, flags: Flags)
    requires IsAlphabet(a)
    ensures |Text(a, b, flags)| == EncodedLength(|b|, flags)
    ensures var n := |b|;
            |Text(a, b, flags)| ==
              4 * (n / 3) + (if n % 3 == 0 then 0 else if flags.noPadding then n % 3 + 1 else 4)
              + (if flags.autoNewline then n / 3 / 19 else 0)
    ensures flags.noPadding && !flags.autoNewline ==> |Text(a, b, flags)| == (|b| * 4 + 2) / 3
  {
    hide Text, EncodedLength, IsAlphabet;
    PartsLength(a, b, flags);
    LengthIs(|b|, flags);
    LengthsAdd(|b|, flags);
  }

  lemma PartsLength(a: seq<byte>, b: seq<byte>, flags: Flags)
    requires IsAlphabet(a)
    ensures |Text(a, b, flags)| == EncodedLength(|b|, flags)
  {
    hide Sextets, Lines, IsAlphabet, EncodedLength;
    var whole := |b| / 3 * 3;
    PackSextets(b[..whole]);
    PackSextets(b[whole..]);
    LinesAppend(Spell(a, Sextets(b[..whole])), [0]);
    LengthsAdd(|b|, flags);
  }

  /** Encoder lines: every line but the last has 76 characters, and the last has no more. */
  lemma TextLines(a: seq<byte>, b: seq<byte>, noPadding: bool)
    requires IsAlphabet(a) && 10 !in a
    ensures var t := Text(a, b, Flags(noPadding, true));
            && (forall i :: 0 <= i < |t| ==> (t[i] == 10 <==> i % 77 == 76))
            && |t| - 77 * (|b| / 3 / 19) <= 76
  {
    hide Sextets, Lines, Spell, Padding, EncodedLength, Pack, Canonical;
    var whole := |b| / 3 * 3;
    var body := Spell(a, Sextets(b[..whole]));
    var rest := Spell(a, Sextets(b[whole..])) + if noPadding then [] else Padding(a, |b|);
    PackSextets(b[..whole]);
    PackSextets(b[whole..]);
    SpelledWithout(a, Sextets(b[..whole]));
    SpelledWithout(a, Sextets(b[whole..]));
    PaddedWithout(a, |b|);
    LinesShape(body);
    var l := Lines(body);
    assert Text(a, b, Flags(noPadding, true)) == l + rest;
    LineCount(|b| / 3);
    assert |body| == |b| / 3 * 4 && |rest| <= 4;
    NoBreakAfter(l, rest, |body| / 76, |body| % 76);
  }

  /** Nineteen groups a line. */
  lemma LineCount(groups: nat)
    ensures var n := groups * 4;
            n / 76 == groups / 19 && n % 76 <= 72 && n + n / 76 == 77 * (n / 76) + n % 76
  {
    var q, r := groups / 19, groups % 19;
    assert groups * 4 == q * 76 + r * 4;
  }

  lemma NoBreakAfter(l: seq<byte>, rest: seq<byte>, q: nat, r: nat)
    requires |l| == 77 * q + r && r <= 72 && |rest| <= 4 && NEWLINE !in rest
    requires forall i :: 0 <= i < |l| ==> (l[i] == NEWLINE <==> i % 77 == 76)
    ensures forall i :: 0 <= i < |l + rest| ==> ((l + rest)[i] == NEWLINE <==> i % 77 == 76)
  {
  }

  lemma SpelledWithout(a: seq<byte>, xs: seq<sextet>)
    requires IsAlphabet(a) && NEWLINE !in a
    ensures NEWLINE !in Spell(a, xs)
  {
  }

  lemma PaddedWithout(a: seq<byte>, n: nat)
    requires IsAlphabet(a) && NEWLINE !in a
    ensures NEWLINE !in Padding(a, n)
  {
  }

  // ----- Every character of the encoded text -----

  /** Which character stands where: with line breaks every 77th is character 10; the others are those
      of the digits in order, and behind the last digit there is nothing but padding. */
  lemma TextAt(a: seq<byte>, b: seq<byte>, flags: Flags, i: nat)
    requires IsAlphabet(a) && i < |Text(a, b, flags)|
    ensures var t, xs := Text(a, b, flags), Sextets(b);
            if flags.autoNewline && i % 77 == 76 then t[i] == 10
            else
              var j := if flags.autoNewline then i - i / 77 else i;
              t[i] == if j < |xs| then a[xs[j]] else a[64]
  {
    hide Sextets, Lines, IsAlphabet, EncodedLength, Pack, Canonical, Text, Spell, Padding;
    var whole := |b| / 3 * 3;
    var xs, ys := Sextets(b[..whole]), Sextets(b[whole..]);
    assert b == b[..whole] + b[whole..];
    SextetsAppend(b[..whole], b[whole..]);
    PackSextets(b[..whole]);
    PackSextets(b[whole..]);
    var body, rest := Spell(a, xs), Spell(a, ys);
    var l := if flags.autoNewline then Lines(body) else body;
    var pad := if flags.noPadding then [] else Padding(a, |b|);
    TextIsParts(a, b, flags);
    LinesAt(body, i);
    InParts(l, rest, pad, i);
    if i >= |l| && flags.autoNewline {
      TailLength(|b|);
      BehindLines(|b| / 3, i);
    }
    OnlyPadding(a, |b|);
  }

  lemma OnlyPadding(a: seq<byte>, n: nat)
    requires IsAlphabet(a)
    ensures forall i :: 0 <= i < |Padding(a, n)| ==> Padding(a, n)[i] == a[64]
  {
  }

  lemma TextIsParts(a: seq<byte>, b: seq<byte>, flags: Flags)
    requires IsAlphabet(a)
    ensures var body := Spell(a, Sextets(b[..|b| / 3 * 3]));
            Text(a, b, flags) ==
              (if flags.autoNewline then Lines(body) else body) + Spell(a, Sextets(b[|b| / 3 * 3..])) +
              (if flags.noPadding then [] else Padding(a, |b|))
  {
  }

  lemma InParts(l: seq<byte>, rest: seq<byte>, pad: seq<byte>, i: nat)
    requires i < |l + rest + pad|
    ensures (l + rest + pad)[i] == if i < |l| then l[i] else if i < |l| + |rest| then rest[i - |l|] else pad[i - |l| - |rest|]
  {
  }

  lemma TailLength(n: nat)
    ensures var k := n % 3;
            && SextetCount(n / 3 * 3) == n / 3 * 4
            && SextetCount(n - n / 3 * 3) == (if k == 0 then 0 else k + 1)
            && (k == 0 ==> n / 3 * 3 == n)
  {
  }

  /** Behind the lines, the last of which is short, as many breaks have been written as there are. */
  lemma BehindLines(groups: nat, i: nat)
    requires var n := groups * 4; n + n / 76 <= i < n + n / 76 + 4
    ensures i % 77 != 76 && i / 77 == groups * 4 / 76
  {
    var q, r := groups / 19, groups % 19;
    Divided(groups * 4, 76, q, r * 4);
    Divided(i, 77, q, i - 77 * q);
  }

  /** Padding only follows the unpadded text: two characters for one byte in the last group, one for
      two, none for a full group; without line breaks the length is then a multiple of 4. */
  lemma TextPadding(a: seq<byte>, b: seq<byte>, autoNewline: bool)
    requires IsAlphabet(a)
    ensures var plain, t := Text(a, b, Flags(true, autoNewline)), Text(a, b, Flags(false, autoNewline));
            && t == plain + match |b| % 3 { case 0 => [] case 1 => [a[64], a[64]] case _ => [a[64]] }
            && (!autoNewline ==> |t| % 4 == 0)
  {
    hide Sextets, Lines, Spell, IsAlphabet, EncodedLength;
    TextLength(a, b, Flags(false, autoNewline));
  }
}

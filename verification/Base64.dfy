/** base64.c: table construction, encoder and decoder. */
module Base64 {
  import opened Bytes
  import opened Base64Spec
  import opened Base64Scan

  /** (c << 4 | d >> 4) & 0x3F */
  function HighPair(c: int, d: int): sextet {
    (c * 16 + d / 16) % 64
  }

  /** (c << 2 | d >> 6) & 0x3F */
  function LowPair(c: int, d: int): sextet {
    (c * 4 + d / 64) % 64
  }

  // ----- What the encoder writes -----

  /** The characters written for whole groups. */
  function Body(a: seq<byte>, b: seq<byte>, autoNewline: bool): seq<byte>
    requires IsAlphabet(a)
  {
    var t := Spell(a, Sextets(b));
    if autoNewline then Lines(t) else t
  }

  /** The shifts and masks of the encoder compute the digits of a group. */
  lemma GroupDigits(c0: byte, c1: byte, c2: byte)
    ensures GroupSextets(c0, c1, c2) == [c0 / 4, HighPair(c0, c1), LowPair(c1, c2), c2 % 64]
  {
    WordByDigits(c0, c1, c2);
  }

  lemma WordByDigits(c0: byte, c1: byte, c2: byte)
    ensures var h: int, m: int, l: int := c0, c1, c2;
            var w := WordOfBytes(c0, c1, c2);
            && w % 64 == l % 64
            && w / 64 % 64 == (m * 4 + l / 64) % 64
            && w / 0x1000 == h * 16 + m / 16
            && w / 0x4_0000 == h / 4
  {
    var h: int, m: int, l: int := c0, c1, c2;
    var u := h * 16 * 64 + (m * 4 + l / 64);
    assert WordOfBytes(c0, c1, c2) == u * 64 + l % 64;
    assert u / 64 == h * 16 + m / 16 && u % 64 == (m * 4 + l / 64) % 64;
  }

  lemma GroupChars(a: seq<byte>, c0: byte, c1: byte, c2: byte)
    requires IsAlphabet(a)
    ensures Spell(a, GroupSextets(c0, c1, c2)) == [a[c0 / 4], a[HighPair(c0, c1)], a[LowPair(c1, c2)], a[c2 % 64]]
  {
    hide GroupSextets, HighPair, LowPair, IsAlphabet;
    GroupDigits(c0, c1, c2);
  }

  /** How many characters the body has after |b|/3 groups. */
  lemma BodyLength(a: seq<byte>, b: seq<byte>, autoNewline: bool)
    requires IsAlphabet(a) && |b| % 3 == 0
    ensures |Body(a, b, autoNewline)| == 4 * (|b| / 3) + if autoNewline then |b| / 3 / 19 else 0
  {
    hide Sextets, Lines, IsAlphabet;
    PackSextets(b);
    LinesAppend(Spell(a, Sextets(b)), [0]);
  }

  /** What is written of the body fits in the room for all of it. */
  lemma BodyRoom(a: seq<byte>, input: seq<byte>, s: nat, autoNewline: bool)
    requires IsAlphabet(a) && s % 3 == 0 && s <= |input|
    ensures |Body(a, input[..s], autoNewline)| <= 4 * (|input| / 3) + if autoNewline then |input| / 3 / 19 else 0
    ensures Body(a, input[..0], autoNewline) == []
  {
    hide Body, IsAlphabet;
    BodyLength(a, input[..s], autoNewline);
    BodyLength(a, input[..0], autoNewline);
    assert s / 3 <= |input| / 3;
  }

  /** One more group: its four characters, and a newline when the line is full. The test on the
      number of characters written so far finds full lines. */
  lemma BodyStep(a: seq<byte>, b: seq<byte>, c0: byte, c1: byte, c2: byte, autoNewline: bool)
    requires IsAlphabet(a) && |b| % 3 == 0
    ensures var d := |Body(a, b, autoNewline)| + 4;
            Body(a, b + [c0, c1, c2], autoNewline) ==
              Body(a, b, autoNewline) + Spell(a, GroupSextets(c0, c1, c2)) +
              if autoNewline && (d + 1) % 77 == 0 then [NEWLINE] else []
  {
    hide Lines, IsAlphabet, GroupSextets, Sextets, Spell;
    var t, g := Spell(a, Sextets(b)), Spell(a, GroupSextets(c0, c1, c2));
    SextetsAppend(b, [c0, c1, c2]);
    SextetsOfGroup(c0, c1, c2);
    SpellAppend(a, Sextets(b), GroupSextets(c0, c1, c2));
    assert t + g + [] == t + g;
    if autoNewline {
      PackSextets(b);
      FullLine(|t|);
      LinesAppend(t, g);
    }
  }

  lemma SextetsOfGroup(c0: byte, c1: byte, c2: byte)
    ensures Sextets([c0, c1, c2]) == GroupSextets(c0, c1, c2)
  {
  }

  lemma FullLine(n: nat)
    requires n % 4 == 0
    ensures n % 76 + 4 <= 76
    ensures (n + n / 76 + 4 + 1) % 77 == 0 <==> n % 76 + 4 == 76
  {
  }

  // ----- What the decoder packs -----

  lemma {:induction false} PackAppend(xs: seq<sextet>, ys: seq<sextet>)
    requires |xs| % 4 == 0
    ensures Pack(xs + ys) == Pack(xs) + Pack(ys)
    decreases |xs|
  {
    hide GroupBytes;
    if xs == [] {
      assert xs + ys == ys && [] + Pack(ys) == Pack(ys);
    } else {
      assert (xs + ys)[4..] == xs[4..] + ys;
      PackAppend(xs[4..], ys);
      var g := GroupBytes(xs[0], xs[1], xs[2], xs[3]);
      assert g + (Pack(xs[4..]) + Pack(ys)) == g + Pack(xs[4..]) + Pack(ys);
    }
  }

  /** The byte that a digit x completes, when n digits of the group and `last` came before it. */
  function Completed(n: nat, last: int, x: int): seq<byte>
    requires n < 4
  {
    match n
    case 0 => []
    case 1 => [(last * 4 + x / 16) % 0x100]
    case 2 => [(last * 16 + x / 4) % 0x100]
    case _ => [(last * 64 + x) % 0x100]
  }

  lemma CompletedOne(x0: sextet, x1: sextet)
    ensures Pack([x0, x1]) == Completed(1, x0, x1)
  {
  }

  lemma TwoBytes(x0: sextet, x1: sextet, x2: sextet)
    ensures var y0: int, y1: int, y2: int := x0, x1, x2;
            var w := WordOfSextets(x0, x1, x2, 0);
            w / 0x1_0000 == y0 * 4 + y1 / 16 && w / 0x100 % 0x100 == (y1 * 16 + y2 / 4) % 0x100
  {
    var y0: int, y1: int, y2: int := x0, x1, x2;
    var u := (y0 * 64 + y1) * 64 + y2;
    assert WordOfSextets(x0, x1, x2, 0) == u * 64;
    assert u * 64 / 0x100 == u / 4;
    assert u / 4 == y0 * 4 * 0x100 + (y1 * 16 + y2 / 4);
  }

  lemma CompletedTwo(x0: sextet, x1: sextet, x2: sextet)
    ensures Pack([x0, x1, x2]) == Pack([x0, x1]) + Completed(2, x1, x2)
  {
    hide WordOfSextets;
    TwoBytes(x0, x1, x2);
    TwoBytes(x0, x1, 0);
  }

  lemma CompletedThree(x0: sextet, x1: sextet, x2: sextet, x3: sextet)
    ensures Pack([x0, x1, x2, x3]) == Pack([x0, x1, x2]) + Completed(3, x2, x3)
  {
    hide WordOfSextets;
    ThreeBytes(x0, x1, x2, x3);
    assert [x0, x1, x2, x3][4..] == [] && GroupBytes(x0, x1, x2, x3) + [] == GroupBytes(x0, x1, x2, x3);
  }

  lemma ThreeBytes(x0: sextet, x1: sextet, x2: sextet, x3: sextet)
    ensures var y2: int, y3: int := x2, x3;
            var w, v := WordOfSextets(x0, x1, x2, x3), WordOfSextets(x0, x1, x2, 0);
            w / 0x1_0000 == v / 0x1_0000 && w / 0x100 == v / 0x100 && w % 0x100 == (y2 * 64 + y3) % 0x100
  {
    var y0: int, y1: int, y2: int, y3: int := x0, x1, x2, x3;
    var p, q := y0 * 64 + y1, y2 * 64;
    var p1, p0, q1, q0 := p / 16, p % 16, y2 / 4, y2 % 4;
    TwoPlaces(p1, p0 * 16 + q1, q0 * 64 + y3);
    TwoPlaces(p1, p0 * 16 + q1, q0 * 64);
    Divided(q + y3, 0x100, q1, q0 * 64 + y3);
  }

  lemma TwoPlaces(hi: nat, mid: byte, lo: byte)
    ensures var w := hi * 0x1_0000 + mid * 0x100 + lo;
            w / 0x1_0000 == hi && w / 0x100 == hi * 0x100 + mid && w % 0x100 == lo
  {
    var m: int := mid;
    var w := hi * 0x1_0000 + m * 0x100 + lo;
    Divided(w, 0x1_0000, hi, m * 0x100 + lo);
    Divided(w, 0x100, hi * 0x100 + m, lo);
  }

  lemma PackFew(t: seq<sextet>)
    ensures |t| <= 1 ==> Pack(t) == []
  {
  }

  lemma CompletedNone(x: int)
    ensures Completed(0, 0, x) == []
  {
  }

  /** Packing within one group. */
  lemma PackWithin(t: seq<sextet>, x: sextet)
    requires |t| < 4
    ensures Pack(t + [x]) == Pack(t) + Completed(|t|, if t == [] then 0 else t[|t| - 1], x)
  {
    hide Pack, Completed;
    PackFew(t);
    if |t| == 0 {
      CompletedNone(x);
      PackFew(t + [x]);
    } else if |t| == 1 {
      assert t + [x] == [t[0], x];
      CompletedOne(t[0], x);
    } else if |t| == 2 {
      assert t == [t[0], t[1]] && t + [x] == [t[0], t[1], x];
      CompletedTwo(t[0], t[1], x);
    } else {
      assert t == [t[0], t[1], t[2]] && t + [x] == [t[0], t[1], t[2], x];
      CompletedThree(t[0], t[1], t[2], x);
    }
  }

  /** One digit more: the four states of the decoder pack as the definition does. */
  lemma {:induction false} PackStep(xs: seq<sextet>, x: sextet)
    ensures var n := |xs| % 4;
            Pack(xs + [x]) == Pack(xs) + Completed(n, if n == 0 then 0 else xs[|xs| - 1], x)
    decreases |xs|
  {
    hide Completed, GroupBytes;
    if |xs| < 4 {
      PackWithin(xs, x);
    } else {
      PackStep(xs[4..], x);
      assert (xs + [x])[4..] == xs[4..] + [x];
    }
  }

  /** What the variable r holds: the last digit, shifted by twice the number of digits seen. */
  predicate Holds(r: int, xs: seq<sextet>) {
    var n := |xs| % 4;
    n == 0 ||
    var last: int := xs[|xs| - 1];
    r == if n == 1 then last * 4 else if n == 2 then last * 16 else last * 64
  }

  /** The decoder's last test is the canonical-bits rule. */
  lemma LastTest(r: int, xs: seq<sextet>)
    requires Holds(r, xs)
    ensures var n := |xs| % 4; !(n == 1 || (n != 0 && r % 0x100 != 0)) <==> Canonical(xs)
  {
  }

  lemma {:induction false} PackPrefix(xs: seq<sextet>, ys: seq<sextet>)
    ensures Pack(xs) <= Pack(xs + ys)
    decreases |ys|
  {
    hide Pack, Completed;
    if ys == [] {
      assert xs + ys == xs;
    } else {
      PackStep(xs, ys[0]);
      assert xs + ys == xs + [ys[0]] + ys[1..];
      PackPrefix(xs + [ys[0]], ys[1..]);
    }
  }

  lemma ScanEnd(a: seq<byte>, input: seq<byte>, len: nat, pos: nat, c: byte, mode: Mode)
    requires IsAlphabet(a) && len <= |input| && pos <= |input|
    requires !InRun(a, input, pos) && StaysWithin(a, input, len, mode, pos)
    ensures pos >= len ==> Scan(a, input, len, pos, c, mode) == Halt([], pos, c)
  {
  }

  lemma ScanStep(xs: seq<sextet>, x: sextet, h: Halt)
    ensures xs + Cons(x, h).xs == xs + [x] + h.xs
  {
  }

  class Base64 {
    const alphabet: array<byte>
    const detab: array<byte>

    constructor ()
      ensures fresh(alphabet) && fresh(detab) && alphabet.Length == 66 && detab.Length == 256
    {
      alphabet := new byte[66](_ => 0);
      detab := new byte[256](_ => 0);
    }

    /** The alphabet with its padding character. */
    ghost function Alphabet(): (a: seq<byte>)
      requires alphabet.Length == 66
      reads alphabet
      ensures |a| == 65
    {
      alphabet[..65]
    }

    /** The tables that base64_init leaves when it succeeds. */
    ghost predicate Valid()
      reads alphabet, detab
    {
      && alphabet.Length == 66 && detab.Length == 256 && alphabet != detab
      && IsAlphabet(Alphabet())
      && forall c: byte :: detab[c] == Place(Alphabet(), c)
    }

    /** The alphabet a C string asks for: 64 characters, then its own padding or '='. */
    static function Requested(s: seq<byte>): seq<byte>
      requires |s| >= 64
    {
      s[..64] + [if |s| > 64 then s[64] else '=' as byte]
    }

    static lemma RequestedIs(s: seq<byte>)
      requires |s| >= 64 && forall i :: 0 <= i < |s| ==> s[i] != 0
      ensures var p := if |s| > 64 then s[64] else 61;
              IsAlphabet(Requested(s)) <==> p !in s[..64] && forall i, j :: 0 <= i < j < 64 ==> s[i] != s[j]
    {
      var a, p := Requested(s), if |s| > 64 then s[64] else 61;
      assert forall i :: 0 <= i < 64 ==> a[i] == s[i] == s[..64][i];
      assert a[64] == p != 0;
      if p in s[..64] {
        var k :| 0 <= k < 64 && s[..64][k] == p;
        assert a[k] == a[64];
      } else {
        assert forall i :: 0 <= i < 64 ==> a[i] != a[64];
      }
      assert forall i, j :: 0 <= i < j < 64 ==> (a[i] != a[j] <==> s[i] != s[j]);
    }

    /** Build the tables from a C string; -1 when it is too short or repeats a character. */
    method Init(s: seq<byte>) returns (r: int)
      requires alphabet.Length == 66 && detab.Length == 256 && alphabet != detab
      requires forall i :: 0 <= i < |s| ==> s[i] != 0
      modifies alphabet, detab
      ensures r == 0 || r == -1
      ensures r == 0 <==> |s| >= 64 && IsAlphabet(Requested(s))
      ensures r == 0 <==> |s| >= 64 && var p := if |s| > 64 then s[64] else 61;
                            p !in s[..64] && forall i, j :: 0 <= i < j < 64 ==> s[i] != s[j]
      ensures r == 0 ==> Valid() && Alphabet() == Requested(s)
      ensures r == 0 ==> Alphabet()[..64] == s[..64] && Alphabet()[64] == if |s| > 64 then s[64] else 61
    {
      if |s| < 64 {
        return -1;
      }
      RequestedIs(s);
      CopyInto(alphabet, 0, s[..64]);
      alphabet[64] := if |s| > 64 then s[64] else '=' as byte;
      alphabet[65] := 0;
      ghost var a := Requested(s);
      assert alphabet[..65] == a;
      for i := 0 to 65
        invariant alphabet[..65] == a
        invariant forall j, k :: 0 <= j < i && j < k < 65 ==> a[j] != a[k]
      {
        if alphabet[i] in alphabet[i + 1..65] {
          return -1;
        }
        assert forall k :: i < k < 65 ==> a[k] == alphabet[i + 1..65][k - i - 1];
      }
      FillTable();
      return 0;
    }

    method FillTable()
      requires alphabet.Length == 66 && detab.Length == 256 && alphabet != detab
      requires IsAlphabet(Alphabet())
      modifies detab
      ensures Valid() && Alphabet() == old(Alphabet())
    {
      ghost var a := Alphabet();
      forall c | 0 <= c < 256 {
        detab[c] := 65;
      }
      for i := 0 to 65
        invariant alphabet[..65] == a
        invariant forall c: byte :: c in a[..i] ==> detab[c] < i && a[detab[c]] == c
        invariant forall c: byte :: c !in a[..i] ==> detab[c] == 65
      {
        assert a[..i + 1] == a[..i] + [a[i]];
        detab[alphabet[i]] := i;
      }
      assert a[..65] == a;
    }

    /** Encode input into out, end it with NUL, and return the number of characters. */
    method Encode(out: array<byte>, input: seq<byte>, flags: Flags) returns (n: nat)
      requires Valid() && out != alphabet && out != detab
      requires EncodedLength(|input|, flags) < out.Length
      modifies out
      ensures n < out.Length && out[..n] == Text(Alphabet(), input, flags) && out[n] == 0
      ensures forall i :: n < i < out.Length ==> out[i] == old(out[i])
    {
      hide Text, Body, IsAlphabet, Tail;
      TextLength(Alphabet(), input, flags);
      TextParts(Alphabet(), input, flags);
      n := EncodeGroups(out, input, flags);
      n := EncodeTail(out, n, input, flags);
      out[n] := 0;
    }

    /** Write characters at d, and move behind them. */
    static method Emit(out: array<byte>, d: nat, chars: seq<byte>) returns (e: nat)
      requires d + |chars| <= out.Length
      modifies out
      ensures e == d + |chars| && out[..e] == old(out[..d]) + chars
      ensures forall i :: e <= i < out.Length ==> out[i] == old(out[i])
    {
      OverwriteExtends(out[..], 0, d, chars);
      CopyInto(out, d, chars);
      e := d + |chars|;
    }

    /** The loop over whole groups. */
    method EncodeGroups(out: array<byte>, input: seq<byte>, flags: Flags) returns (d: nat)
      requires alphabet.Length == 66 && IsAlphabet(Alphabet()) && out != alphabet
      requires 4 * (|input| / 3) + (if flags.autoNewline then |input| / 3 / 19 else 0) < out.Length
      modifies out
      ensures d < out.Length && out[..d] == Body(Alphabet(), input[..|input| / 3 * 3], flags.autoNewline)
      ensures d == 4 * (|input| / 3) + if flags.autoNewline then |input| / 3 / 19 else 0
      ensures forall i :: d <= i < out.Length ==> out[i] == old(out[i])
    {
      hide Body, IsAlphabet, GroupSextets, HighPair, LowPair, Spell;
      ghost var a := Alphabet();
      var s, end := 0, |input| / 3 * 3;
      d := 0;
      BodyRoom(a, input, 0, flags.autoNewline);
      while s < end
        invariant s <= end && s % 3 == 0
        invariant d < out.Length && out[..d] == Body(a, input[..s], flags.autoNewline)
        invariant forall i :: d <= i < out.Length ==> out[i] == old(out[i])
      {
        var c0, c1, c2 := input[s], input[s + 1], input[s + 2];
        GroupChars(a, c0, c1, c2);
        BodyStep(a, input[..s], c0, c1, c2, flags.autoNewline);
        assert input[..s + 3] == input[..s] + [c0, c1, c2];
        s := s + 3;
        BodyRoom(a, input, s, flags.autoNewline);
        d := Emit(out, d, [alphabet[c0 / 4], alphabet[HighPair(c0, c1)], alphabet[LowPair(c1, c2)], alphabet[c2 % 64]]);
        if flags.autoNewline && (d + 1) % 77 == 0 {
          d := Emit(out, d, [NEWLINE]);
        }
      }
      BodyLength(a, input[..end], flags.autoNewline);
    }

    /** The switch on the remaining bytes. */
    method EncodeTail(out: array<byte>, at: nat, input: seq<byte>, flags: Flags) returns (d: nat)
      requires alphabet.Length == 66 && IsAlphabet(Alphabet()) && out != alphabet
      requires at + |Tail(Alphabet(), input, flags)| < out.Length
      modifies out
      ensures d < out.Length && out[..d] == old(out[..at]) + Tail(Alphabet(), input, flags)
      ensures forall i :: d <= i < out.Length ==> out[i] == old(out[i])
    {
      hide IsAlphabet;
      d := at;
      TailDigits(Alphabet(), input, flags);
      var whole := |input| / 3 * 3;
      match |input| % 3
      case 1 =>
        var c0 := input[whole];
        d := Emit(out, d, [alphabet[c0 / 4], alphabet[HighPair(c0, 0)]]);
        if !flags.noPadding {
          d := Emit(out, d, [alphabet[64], alphabet[64]]);
        }
      case 2 =>
        var c0, c1 := input[whole], input[whole + 1];
        d := Emit(out, d, [alphabet[c0 / 4], alphabet[HighPair(c0, c1)], alphabet[LowPair(c1, 0)]]);
        if !flags.noPadding {
          d := Emit(out, d, [alphabet[64]]);
        }
      case _ =>
    }

    /** The inner loops of the decoder. */
    method SkipCharacters(input: seq<byte>, pos: nat, mode: Mode, x: nat) returns (s: nat, c: byte, y: nat)
      requires Valid() && Stopped(Alphabet(), input, pos, mode)
      ensures Skipped(s, c, y) == Skip(Alphabet(), input, pos, mode, x)
    {
      hide IsAlphabet;
      ghost var a := Alphabet();
      s, y := pos, x;
      while true
        invariant Stopped(a, input, s, mode)
        invariant Skip(a, input, s, mode, y) == Skip(a, input, pos, mode, x)
        decreases |input| - s
      {
        c := input[s];
        s := s + 1;
        if c == 0 {
          break;
        }
        y := detab[c];
        assert y == Place(a, c);
        if !(y > 64 && (mode.IgnoreNonAlphabet? || IsSpace(c))) {
          break;
        }
      }
    }

    /** Read up to the next digit; x is 64 or more when there is none and decoding stops. */
    method NextDigit(input: seq<byte>, len: nat, pos: nat, mode: Mode, ghost before: byte) returns (s: nat, c: byte, x: nat)
      requires Valid() && pos < len <= |input|
      requires !InRun(Alphabet(), input, pos) && StaysWithin(Alphabet(), input, len, mode, pos)
      ensures pos < s <= |input|
      ensures var h := Scan(Alphabet(), input, len, pos, before, mode);
              if x >= 64 then h == Halt([], s, c)
              else !InRun(Alphabet(), input, s) && StaysWithin(Alphabet(), input, len, mode, s)
                   && h == Cons(x, Scan(Alphabet(), input, len, s, c, mode))
    {
      hide IsAlphabet;
      c := input[pos];
      s := pos + 1;
      if c == 0 {
        return s, c, 65;
      }
      x := detab[c];
      if x < 64 || (x > 64 && !mode.Strict?) {
        ReadsOn(Alphabet(), input, len, pos, mode);
      }
      if x > 64 && !mode.Strict? {
        SkipEnds(Alphabet(), input, len, s, mode);
        s, c, x := SkipCharacters(input, s, mode, x);
      }
    }

    /** Decode the first len characters of input into out: the number of bytes written, or the
        number of characters consumed, negated, when the input is rejected. */
    method Decode(out: array<byte>, input: seq<byte>, len: nat, mode: Mode) returns (r: int)
      requires Valid() && out != alphabet && out != detab
      requires len <= |input| && StaysWithin(Alphabet(), input, len, mode, 0)
      requires |Pack(Scan(Alphabet(), input, len, 0, 0, mode).xs)| <= out.Length
      modifies out
      ensures Valid() && Alphabet() == old(Alphabet())
      ensures var h := Scan(Alphabet(), input, len, 0, 0, mode);
              && out[..|Pack(h.xs)|] == Pack(h.xs)
              && if Fails(Alphabet(), len, h) then r == -(h.pos as int) && r < 0 else r == |Pack(h.xs)|
      ensures match Base64Scan.Decode(Alphabet(), input, len, mode)
              case Decoded(b) => 0 <= r <= out.Length && out[..r] == b
              case Rejected(consumed) => r == -(consumed as int) && r < 0
    {
      hide IsAlphabet, Pack, Completed, Holds, Canonical, Scan, StaysWithin;
      ghost var a := Alphabet();
      ghost var h := Scan(a, input, len, 0, 0, mode);
      ghost var xs: seq<sextet> := [];
      var s: nat, d: nat, n: nat, rest: int, c: byte := 0, 0, 0, 0, 0;
      PackNone();
      HoldsNone();
      assert [] + h.xs == h.xs && xs + [] == xs;
      ScanEnd(a, input, len, s, c, mode);
      while s < len
        invariant s <= |input| && n == |xs| % 4 && Holds(rest, xs)
        invariant s == 0 ==> xs == [] && c == 0
        invariant Alphabet() == a && Valid()
        invariant !InRun(a, input, s) && StaysWithin(a, input, len, mode, s)
        invariant var g := Scan(a, input, len, s, c, mode); h == Halt(xs + g.xs, g.pos, g.c)
        invariant s >= len ==> h == Halt(xs, s, c)
        invariant d <= out.Length && out[..d] == Pack(xs)
        decreases |input| - s
      {
        assert xs + [] == xs;
        var x: nat;
        s, c, x := NextDigit(input, len, s, mode, c);
        if x >= 64 {
          break;
        }
        ghost var g := Scan(a, input, len, s, c, mode);
        ScanStep(xs, x, g);
        PackPrefix(xs + [x], g.xs);
        n, rest, d := Absorb(out, d, n, rest, x, xs);
        xs := xs + [x];
        assert xs + [] == xs;
        ScanEnd(a, input, len, s, c, mode);
      }
      LastTest(rest, xs);
      if (s < len && c != 0 && c != alphabet[64]) || n == 1 || (n != 0 && rest % 0x100 != 0) {
        return -(s as int);
      }
      return d;
    }

    /** The switch on n: take in one digit. */
    static method Absorb(out: array<byte>, d: nat, n: nat, r: int, x: sextet, ghost xs: seq<sextet>)
      returns (n': nat, r': int, d': nat)
      requires n == |xs| % 4 && Holds(r, xs)
      requires d <= out.Length && out[..d] == Pack(xs) && |Pack(xs + [x])| <= out.Length
      modifies out
      ensures n' == |xs + [x]| % 4 && Holds(r', xs + [x])
      ensures d' <= out.Length && out[..d'] == Pack(xs + [x])
    {
      hide Pack;
      PackStep(xs, x);
      var wide: int := x;
      match n
      case 0 =>
        n', r', d' := 1, wide * 4, d;
      case 1 =>
        d' := Emit(out, d, [(r + wide / 16) % 0x100]);
        n', r' := 2, wide * 16;
      case 2 =>
        d' := Emit(out, d, [(r + wide / 4) % 0x100]);
        n', r' := 3, wide * 64;
      case _ =>
        d' := Emit(out, d, [(r + wide) % 0x100]);
        n', r' := 0, r;
    }
  }

  lemma PackNone()
    ensures Pack([]) == []
  {
  }

  lemma HoldsNone()
    ensures Holds(0, [])
  {
  }

  /** The characters written for the last one or two bytes, and the padding. */
  function Tail(a: seq<byte>, b: seq<byte>, flags: Flags): seq<byte>
    requires IsAlphabet(a)
  {
    Spell(a, Sextets(b[|b| / 3 * 3..])) + if flags.noPadding then [] else Padding(a, |b|)
  }

  lemma TextParts(a: seq<byte>, b: seq<byte>, flags: Flags)
    requires IsAlphabet(a)
    ensures Text(a, b, flags) == Body(a, b[..|b| / 3 * 3], flags.autoNewline) + Tail(a, b, flags)
    ensures |Tail(a, b, flags)| == if |b| % 3 == 0 then 0 else if flags.noPadding then |b| % 3 + 1 else 4
  {
    hide Sextets, Spell, Lines, Padding, IsAlphabet;
    PackSextets(b[|b| / 3 * 3..]);
  }

  lemma TailDigits(a: seq<byte>, b: seq<byte>, flags: Flags)
    requires IsAlphabet(a)
    ensures var w := |b| / 3 * 3;
            var pad := if flags.noPadding then [] else Padding(a, |b|);
            Tail(a, b, flags) ==
              match |b| % 3
              case 1 => [a[b[w] / 4], a[HighPair(b[w], 0)]] + pad
              case 2 => [a[b[w] / 4], a[HighPair(b[w], b[w + 1])], a[LowPair(b[w + 1], 0)]] + pad
              case _ => []
  {
    hide GroupSextets, HighPair, LowPair, IsAlphabet;
    var w := |b| / 3 * 3;
    if |b| % 3 == 1 {
      GroupDigits(b[w], 0, 0);
    } else if |b| % 3 == 2 {
      GroupDigits(b[w], b[w + 1], 0);
    }
  }
}

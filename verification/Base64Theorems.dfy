/** Encoder and decoder are inverse to each other, both ways. */
module Base64Theorems {
  import opened Bytes
  import opened Base64Spec
  import opened Base64Scan

  // ----- Digits and characters -----

  predicate AllDigits(a: seq<byte>, t: seq<byte>)
    requires IsAlphabet(a)
  {
    forall i :: 0 <= i < |t| ==> IsDigit(a, t[i])
  }

  lemma {:induction false} DigitsAppend(a: seq<byte>, s: seq<byte>, t: seq<byte>)
    requires IsAlphabet(a)
    ensures Digits(a, s + t) == Digits(a, s) + Digits(a, t)
    decreases |s|
  {
    hide Place;
    if s == [] {
      assert s + t == t && [] + Digits(a, t) == Digits(a, t);
    } else {
      assert (s + t)[1..] == s[1..] + t;
      DigitsAppend(a, s[1..], t);
      if IsDigit(a, s[0]) {
        assert [Place(a, s[0])] + (Digits(a, s[1..]) + Digits(a, t)) == [Place(a, s[0])] + Digits(a, s[1..]) + Digits(a, t);
      }
    }
  }

  /** A text of alphabet characters spells its own digits. */
  lemma {:induction false} SpellDigits(a: seq<byte>, t: seq<byte>)
    requires IsAlphabet(a) && AllDigits(a, t)
    ensures |Digits(a, t)| == |t| && Spell(a, Digits(a, t)) == t
    decreases |t|
  {
    hide Place;
    if t != [] {
      SpellDigits(a, t[1..]);
      assert a[Place(a, t[0])] == t[0];
      SpellAppend(a, [Place(a, t[0])], Digits(a, t[1..]));
    }
  }

  lemma PlaceOfDigit(a: seq<byte>, x: sextet)
    requires IsAlphabet(a)
    ensures Place(a, a[x]) == x
  {
  }

  /** Spelling digits and reading them back. */
  lemma {:induction false} DigitsSpell(a: seq<byte>, xs: seq<sextet>)
    requires IsAlphabet(a)
    ensures AllDigits(a, Spell(a, xs)) && Digits(a, Spell(a, xs)) == xs
    decreases |xs|
  {
    hide IsAlphabet, Place;
    if xs != [] {
      DigitsSpell(a, xs[1..]);
      PlaceOfDigit(a, xs[0]);
      var t := Spell(a, xs);
      assert t[1..] == Spell(a, xs[1..]) && t[0] == a[xs[0]];
      assert forall i :: 1 <= i < |t| ==> t[i] == t[1..][i - 1];
    }
  }

  // ----- Text to bytes to text -----

  /** Without padding and line breaks, the text is the digits of the whole byte string. */
  lemma PlainText(a: seq<byte>, b: seq<byte>)
    requires IsAlphabet(a)
    ensures Text(a, b, Flags(true, false)) == Spell(a, Sextets(b))
  {
    hide IsAlphabet, Sextets, Spell;
    var whole := |b| / 3 * 3;
    assert b == b[..whole] + b[whole..];
    SextetsAppend(b[..whole], b[whole..]);
    SpellAppend(a, Sextets(b[..whole]), Sextets(b[whole..]));
    assert Spell(a, Sextets(b)) + [] == Spell(a, Sextets(b));
  }

  /** Inverse on canonical text: in every mode, a text of alphabet characters that a NUL or the
      length ends is accepted if and only if its length is not 1 more
      than a multiple of 4 and the bits it does not use are zero, and then encoding the bytes
      without padding gives the same text. */
  lemma CanonicalText(a: seq<byte>, t: seq<byte>, after: seq<byte>, len: nat, mode: Mode)
    requires IsAlphabet(a) && AllDigits(a, t) && |t| <= len <= |t| + |after|
    requires (after != [] && after[0] == 0) || len == |t|
    ensures StaysWithin(a, t + after, len, mode, 0)
    ensures var n, r := |t|, Decode(a, t + after, len, mode);
            && (r.Decoded? <==>
                  && n % 4 != 1
                  && (n % 4 == 2 ==> Place(a, t[n - 1]) % 16 == 0)
                  && (n % 4 == 3 ==> Place(a, t[n - 1]) % 4 == 0))
            && (r.Decoded? ==> Text(a, r.b, Flags(true, false)) == t)
  {
    hide IsAlphabet, Place, Scan, Digits, Text, Spell, Pack, Readable;
    var input := t + after;
    assert after != [] ==> input[|t|] == after[0];
    assert input[..|t|] == t && (t != [] ==> input[|t| - 1] == t[|t| - 1]);
    DigitsOnly(a, t, mode);
    ScanText(a, input, len, |t|, mode);
    SpellDigits(a, t);
    LastDigit(a, t);
    var xs := Digits(a, t);
    if Canonical(xs) {
      SextetsPack(xs);
      PlainText(a, Pack(xs));
    }
  }

  lemma LastDigit(a: seq<byte>, t: seq<byte>)
    requires IsAlphabet(a) && AllDigits(a, t)
    ensures |Digits(a, t)| == |t|
    ensures t != [] ==> Digits(a, t)[|t| - 1] == Place(a, t[|t| - 1])
  {
  }

  // ----- Bytes to text to bytes -----

  /** Line breaks do not change the digits, and every other character stays a digit. */
  lemma {:induction false} DigitsLines(a: seq<byte>, t: seq<byte>)
    requires IsAlphabet(a) && AllDigits(a, t) && NEWLINE !in a
    ensures Digits(a, Lines(t)) == Digits(a, t)
    ensures Readable(a, Lines(t), IgnoreSpace)
    decreases |t|
  {
    hide IsAlphabet, Place;
    if |t| >= 76 {
      var first, more := t[..76] + [NEWLINE], Lines(t[76..]);
      DigitsLines(a, t[76..]);
      NewlineIsJunk(a);
      DigitsAppend(a, first, more);
      DigitsAppend(a, t[..76], [NEWLINE]);
      DigitsAppend(a, t[..76], t[76..]);
      assert t == t[..76] + t[76..];
      assert Digits(a, [NEWLINE]) == [];
      ReadableLines(a, t, more);
    } else {
      DigitsOnly(a, t, IgnoreSpace);
    }
  }

  lemma NewlineIsJunk(a: seq<byte>)
    requires IsAlphabet(a) && NEWLINE !in a
    ensures IsJunk(a, NEWLINE) && IsSpace(NEWLINE) && !IsDigit(a, NEWLINE)
  {
  }

  lemma DigitsOnly(a: seq<byte>, t: seq<byte>, mode: Mode)
    requires IsAlphabet(a) && AllDigits(a, t)
    ensures Readable(a, t, mode)
  {
  }

  lemma ReadableLines(a: seq<byte>, t: seq<byte>, more: seq<byte>)
    requires IsAlphabet(a) && AllDigits(a, t) && |t| >= 76 && IsJunk(a, NEWLINE)
    requires Readable(a, more, IgnoreSpace) && more == Lines(t[76..])
    ensures Readable(a, t[..76] + [NEWLINE] + more, IgnoreSpace)
  {
  }

  /** The characters before the padding read as the digits of the byte string. */
  lemma TextDigits(a: seq<byte>, b: seq<byte>, newline: bool)
    requires IsAlphabet(a) && (newline ==> NEWLINE !in a)
    ensures Digits(a, Text(a, b, Flags(true, newline))) == Sextets(b)
  {
    hide IsAlphabet, Place, Sextets, Spell, Lines, Digits, Readable, AllDigits, Text;
    var whole := |b| / 3 * 3;
    var xs, ys := Sextets(b[..whole]), Sextets(b[whole..]);
    var body, rest := Spell(a, xs), Spell(a, ys);
    var lines := if newline then Lines(body) else body;
    DigitsSpell(a, xs);
    DigitsSpell(a, ys);
    DigitsAppend(a, lines, rest);
    assert b == b[..whole] + b[whole..];
    SextetsAppend(b[..whole], b[whole..]);
    UnpaddedText(a, b, newline);
    if newline {
      DigitsLines(a, body);
    }
  }

  lemma UnpaddedText(a: seq<byte>, b: seq<byte>, newline: bool)
    requires IsAlphabet(a)
    ensures var body := Spell(a, Sextets(b[..|b| / 3 * 3]));
            Text(a, b, Flags(true, newline)) == (if newline then Lines(body) else body) + Spell(a, Sextets(b[|b| / 3 * 3..]))
  {
  }

  /** They are readable in any mode that skips the line breaks there are. */
  lemma TextReadable(a: seq<byte>, b: seq<byte>, newline: bool, mode: Mode)
    requires IsAlphabet(a)
    requires newline ==> NEWLINE !in a && !mode.Strict?
    ensures Readable(a, Text(a, b, Flags(true, newline)), mode)
  {
    hide IsAlphabet, Place, Sextets, Spell, Lines, Digits, IsSpace, Text;
    var whole := |b| / 3 * 3;
    var body, rest := Spell(a, Sextets(b[..whole])), Spell(a, Sextets(b[whole..]));
    var lines := if newline then Lines(body) else body;
    DigitsSpell(a, Sextets(b[..whole]));
    DigitsSpell(a, Sextets(b[whole..]));
    UnpaddedText(a, b, newline);
    if newline {
      DigitsLines(a, body);
    } else {
      DigitsOnly(a, body, mode);
    }
    ReadableAppend(a, lines, rest, mode);
  }

  lemma ReadableAppend(a: seq<byte>, s: seq<byte>, t: seq<byte>, mode: Mode)
    requires IsAlphabet(a) && Readable(a, s, mode) && AllDigits(a, t)
    ensures Readable(a, s + t, mode)
  {
  }

  /** Round trip: every byte string comes back from its encoding, with or without padding, in every
      mode, when a NUL ends it, or the length if the last character is no line break; with line
      breaks, in the modes that skip them, when the alphabet does not contain the newline. */
  lemma RoundTrip(a: seq<byte>, b: seq<byte>, flags: Flags, after: seq<byte>, len: nat, mode: Mode)
    requires IsAlphabet(a)
    requires flags.autoNewline ==> NEWLINE !in a && !mode.Strict?
    requires EncodedLength(|b|, flags) <= len <= EncodedLength(|b|, flags) + |after|
    requires (after != [] && after[0] == 0)
             || (len == |Text(a, b, flags)| && !InRun(a, Text(a, b, flags), len))
    ensures |Text(a, b, flags)| == EncodedLength(|b|, flags)
    ensures StaysWithin(a, Text(a, b, flags) + after, len, mode, 0)
    ensures Decode(a, Text(a, b, flags) + after, len, mode) == Decoded(b)
  {
    hide IsAlphabet, Place, Scan, Digits, Readable, Pack, Sextets, Text, StaysWithin, IsJunk;
    TextLength(a, b, flags);
    var t, plain := Text(a, b, flags), Text(a, b, Flags(true, flags.autoNewline));
    var input := t + after;
    PaddedText(a, b, flags);
    var end := |plain|;
    assert after != [] ==> input[|t|] == after[0];
    assert t != [] ==> input[|t| - 1] == t[|t| - 1];
    assert input[..end] == plain;
    assert t != plain ==> input[end] == t[end];
    TextDigits(a, b, flags.autoNewline);
    TextReadable(a, b, flags.autoNewline, mode);
    ScanText(a, input, len, end, mode);
    PackSextets(b);
  }

  /** Padding only adds padding characters behind the text. */
  lemma PaddedText(a: seq<byte>, b: seq<byte>, flags: Flags)
    requires IsAlphabet(a)
    ensures var t, plain := Text(a, b, flags), Text(a, b, Flags(true, flags.autoNewline));
            plain <= t && (t == plain || t[|plain|] == a[64])
  {
  }
}

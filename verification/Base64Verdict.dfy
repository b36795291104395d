/** What the decoder makes of every input, in every mode. */
module Base64Verdict {
  import opened Bytes
  import opened Base64Spec
  import opened Base64Scan
  import opened Base64Theorems

  /** The verdict on every input in every mode: with k the place where reading ends, the digits
      before k decode if and only if they are canonical and what stands at k is NUL, padding, or
      nothing that lies before the last place of the input; otherwise the characters consumed are
      reported. */
  lemma Verdict(a: seq<byte>, input: seq<byte>, len: nat, mode: Mode)
    requires IsAlphabet(a) && len <= |input| && StaysWithin(a, input, len, mode, 0)
    ensures var k := ReadEnd(a, input, len, mode, 0);
            var xs := Digits(a, input[..k]);
            Decode(a, input, len, mode) ==
              if Canonical(xs) && (k + 1 >= len || input[k] == 0 || input[k] == a[64]) then Decoded(Pack(xs))
              else Rejected(Consumed(a, input, len, k))
  {
    hide IsAlphabet, Place, Scan, Digits, Pack, Canonical, ReadEnd, StaysWithin;
    ScanEnds(a, input, len, 0, 0, mode);
    var k := ReadEnd(a, input, len, mode, 0);
    assert input[0..k] == input[..k];
  }

  // ----- The skipping modes -----

  /** At k, a character outside the alphabet stands behind another and is no white space. */
  predicate Objectionable(a: seq<byte>, t: seq<byte>, k: nat) {
    0 < k < |t| && t[k - 1] !in a && t[k] !in a && t[k] !in [9, 10, 11, 12, 13, 32]
  }

  /** With t the text before the first NUL or padding, ignoring all that is not in the alphabet
      accepts t if and only if its digits are canonical; ignoring space, if and only if in addition
      nothing in it is objectionable. When the length ends at t as well, the very last character is
      not looked at. Either decodes to the digits. What is rejected is consumed as far as the first
      objectionable character, or as what ended the text. */
  lemma SkippingVerdict(a: seq<byte>, input: seq<byte>, len: nat, e: nat, mode: Mode)
    requires IsAlphabet(a) && e <= len <= |input| && e < |input| && !mode.Strict?
    requires input[e] == 0 || input[e] == a[64]
    requires forall i :: 0 <= i < e ==> input[i] != 0 && input[i] != a[64]
    ensures StaysWithin(a, input, len, mode, 0)
    ensures var t, r := input[..e], Decode(a, input, len, mode);
            var seen := if e < len || e == 0 then t else t[..e - 1];
            var clean := forall k :: 0 < k < |seen| ==> !Objectionable(a, seen, k);
            && (r.Decoded? <==> Canonical(Digits(a, t)) && (mode.IgnoreSpace? ==> clean))
            && (r.Decoded? ==> r.b == Pack(Digits(a, t)))
            && (r.Rejected? && mode.IgnoreNonAlphabet? ==>
                  r.consumed == if e < len || (e > 0 && input[e - 1] !in a) then e + 1 else e)
            && (r.Rejected? && mode.IgnoreSpace? && !clean ==>
                  && r.consumed > 0 && Objectionable(a, seen, r.consumed - 1)
                  && forall k :: 0 < k < r.consumed - 1 ==> !Objectionable(a, seen, k))
  {
    hide IsAlphabet, Place, Digits, Pack, Canonical, Decode, Objectionable;
    var k, t := ReadEnd(a, input, len, mode, 0), input[..e];
    assert EndsAt(a, input, len, mode, e);
    Verdict(a, input, len, mode);
    TextOutside(a, t);
    forall i | 0 < i < e && i <= k
      ensures mode.IgnoreSpace? ==> (Objectionable(a, t, i) <==> i == k)
    {
      assert EndsAt(a, input, len, mode, i) <==> i == k;
      assert t[i - 1] == input[i - 1] && t[i] == input[i];
      ObjectionIs(a, t, i);
    }
    if k < e {
      assert EndsAt(a, input, len, mode, k);
      assert t[k] == input[k] && t[k - 1] == input[k - 1];
      if k + 1 == e {
        StrayAtEnd(a, t);
        assert t[..k] == input[..k];
      }
    } else if e > 0 {
      assert t[e - 1] == input[e - 1];
    }
    var seen := if e < len || e == 0 then t else t[..e - 1];
    SeenIs(a, t, seen);
    if k < |seen| {
      assert Objectionable(a, seen, k);
    }
  }

  lemma SeenIs(a: seq<byte>, t: seq<byte>, seen: seq<byte>)
    requires seen <= t
    ensures forall i: nat :: i < |seen| ==> (Objectionable(a, seen, i) <==> Objectionable(a, t, i))
  {
  }

  lemma ObjectionIs(a: seq<byte>, t: seq<byte>, i: nat)
    requires IsAlphabet(a) && 0 < i < |t| && (IsJunk(a, t[i]) <==> t[i] !in a) && (IsJunk(a, t[i - 1]) <==> t[i - 1] !in a)
    ensures Objectionable(a, t, i) <==> IsJunk(a, t[i - 1]) && IsJunk(a, t[i]) && !IsSpace(t[i])
  {
    hide IsAlphabet, IsJunk;
  }

  /** Of the characters that are neither NUL nor padding, the stray ones are those outside the alphabet. */
  lemma TextOutside(a: seq<byte>, t: seq<byte>)
    requires IsAlphabet(a) && forall i :: 0 <= i < |t| ==> t[i] != 0 && t[i] != a[64]
    ensures forall i :: 0 <= i < |t| ==> (IsJunk(a, t[i]) <==> t[i] !in a)
  {
  }

  /** A stray character at the end adds no digit. */
  lemma StrayAtEnd(a: seq<byte>, t: seq<byte>)
    requires IsAlphabet(a) && t != [] && IsJunk(a, t[|t| - 1])
    ensures Digits(a, t[..|t| - 1]) == Digits(a, t)
  {
    hide IsAlphabet;
    var n := |t| - 1;
    DigitsAppend(a, t[..n], [t[n]]);
    JunkHasNoDigits(a, t[n]);
    assert t == t[..n] + [t[n]];
  }

  /** Ignoring white space also ignores one character of any other kind between two digits. */
  lemma IgnoreSpaceLetsOneThrough(a: seq<byte>, s: seq<byte>, junk: byte, t: seq<byte>, len: nat)
    requires IsAlphabet(a) && AllDigits(a, s) && AllDigits(a, t) && IsJunk(a, junk)
    requires |s| + |t| < len <= |s| + |t| + 2
    ensures var input, xs := s + [junk] + t + [0], Digits(a, s) + Digits(a, t);
            StaysWithin(a, input, len, IgnoreSpace, 0)
            && (Decode(a, input, len, IgnoreSpace) == Decoded(Pack(xs)) <==> Canonical(xs))
  {
    hide IsAlphabet, Pack, Place, Digits, Canonical, Decode, StaysWithin;
    var text := s + [junk] + t;
    var input := text + [0];
    assert input[|text|] == 0 && input[..|text|] == text;
    assert forall k :: 0 < k < |text| - 1 ==> (Objectionable(a, text[..|text| - 1], k) <==> Objectionable(a, text, k));
    OneStray(a, s, junk, t);
    SkippingVerdict(a, input, len, |text|, IgnoreSpace);
    DigitsAppend(a, s + [junk], t);
    DigitsAppend(a, s, [junk]);
    JunkHasNoDigits(a, junk);
    assert Digits(a, s) + [] == Digits(a, s);
  }

  lemma OneStray(a: seq<byte>, s: seq<byte>, junk: byte, t: seq<byte>)
    requires IsAlphabet(a) && AllDigits(a, s) && AllDigits(a, t) && IsJunk(a, junk)
    ensures var text := s + [junk] + t;
            && (forall k :: 0 < k < |text| ==> !Objectionable(a, text, k))
            && forall i :: 0 <= i < |text| ==> text[i] != 0 && text[i] != a[64]
  {
    PadPlace(a);
  }

  lemma JunkHasNoDigits(a: seq<byte>, junk: byte)
    requires IsAlphabet(a) && IsJunk(a, junk)
    ensures Digits(a, [junk]) == []
  {
  }

  // ----- The strict mode -----

  /** How many characters of the alphabet the input begins with. */
  function DigitRun(a: seq<byte>, t: seq<byte>): (k: nat)
    requires IsAlphabet(a)
    ensures k <= |t| && (forall i :: 0 <= i < k ==> IsDigit(a, t[i])) && (k < |t| ==> !IsDigit(a, t[k]))
  {
    if t == [] || !IsDigit(a, t[0]) then 0 else 1 + DigitRun(a, t[1..])
  }

  /** In the strict mode reading ends behind the first characters of the alphabet. */
  lemma {:induction false} StrictEnd(a: seq<byte>, input: seq<byte>, len: nat, i: nat)
    requires IsAlphabet(a) && i <= len <= |input| && !InRun(a, input, i)
    ensures ReadEnd(a, input, len, Strict, i) == i + DigitRun(a, input[i..len])
    decreases len - i
  {
    hide Place, IsAlphabet;
    PadPlace(a);
    if i < len {
      assert input[i..len][1..] == input[i + 1..len];
      if IsDigit(a, input[i]) {
        ReadsOn(a, input, len, i, Strict);
        StrictEnd(a, input, len, i + 1);
      } else if input[i] != 0 && input[i] != a[64] {
        PlaceOfStray(a, input[i]);
      }
    }
  }

  /** What the strict mode makes of every input: it accepts those whose digits, up to the first other
      character, are canonical, when that character is NUL, padding, or the very last one. What
      follows is never looked at, and one stray character at the very end goes unnoticed. */
  lemma StrictVerdict(a: seq<byte>, input: seq<byte>, len: nat)
    requires IsAlphabet(a) && len <= |input|
    ensures var k := DigitRun(a, input[..len]);
            var xs := Digits(a, input[..k]);
            Decode(a, input, len, Strict) ==
              if Canonical(xs) && (k + 1 >= len || input[k] == 0 || input[k] == a[64]) then Decoded(Pack(xs))
              else Rejected(if k < len then k + 1 else len)
  {
    hide IsAlphabet, Place, Scan, Digits, Pack;
    Verdict(a, input, len, Strict);
    StrictEnd(a, input, len, 0);
    assert input[0..len] == input[..len];
    var k := DigitRun(a, input[..len]);
    assert k == len && k > 0 ==> IsDigit(a, input[..len][k - 1]);
  }
}

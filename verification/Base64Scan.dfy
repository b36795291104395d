/** How the decoder of base64.c reads its input: which characters it takes as digits, which it
    skips, and where it stops. */
module Base64Scan {
  import opened Bytes
  import opened Base64Spec

  /** What is done about characters outside the alphabet. */
  datatype Mode = Strict | IgnoreSpace | IgnoreNonAlphabet

  /** isspace in the C locale. */
  predicate IsSpace(c: byte) {
    c == 32 || 9 <= c <= 13
  }

  predicate IsDigit(a: seq<byte>, c: byte)
    requires IsAlphabet(a)
  {
    Place(a, c) < 64
  }

  /** Outside the alphabet, and not NUL. */
  predicate IsJunk(a: seq<byte>, c: byte)
    requires IsAlphabet(a)
  {
    c != 0 && Place(a, c) == 65
  }

  lemma PadPlace(a: seq<byte>)
    requires IsAlphabet(a)
    ensures Place(a, a[64]) == 64 && a[64] != 0
    ensures Place(a, 0) == 65
  {
  }

  lemma PlaceOfStray(a: seq<byte>, c: byte)
    requires IsAlphabet(a) && c != 0 && c != a[64] && !IsDigit(a, c)
    ensures IsJunk(a, c)
  {
  }

  // ----- Where reading ends -----

  /** Directly behind a stray character. */
  predicate InRun(a: seq<byte>, input: seq<byte>, i: nat)
    requires IsAlphabet(a) && i <= |input|
  {
    i > 0 && IsJunk(a, input[i - 1])
  }

  /** Reading ends before character i: behind `len`, except within a run of skipped characters; at
      a NUL or padding; or at a stray character that the mode does not skip. Ignoring space skips
      the first stray character of a run whatever it is. */
  predicate EndsAt(a: seq<byte>, input: seq<byte>, len: nat, mode: Mode, i: nat)
    requires IsAlphabet(a) && i <= |input|
  {
    || i == |input|
    || (i >= len && !InRun(a, input, i))
    || input[i] == 0 || input[i] == a[64]
    || (IsJunk(a, input[i]) && (mode.Strict? || (mode.IgnoreSpace? && InRun(a, input, i) && !IsSpace(input[i]))))
  }

  /** The first place from i on where reading ends. */
  function ReadEnd(a: seq<byte>, input: seq<byte>, len: nat, mode: Mode, i: nat): (k: nat)
    requires IsAlphabet(a) && i <= |input|
    ensures i <= k <= |input| && EndsAt(a, input, len, mode, k)
    ensures forall j :: i <= j < k ==> !EndsAt(a, input, len, mode, j)
    decreases |input| - i
  {
    if EndsAt(a, input, len, mode, i) then i else ReadEnd(a, input, len, mode, i + 1)
  }

  /** What the source demands of its callers: no run of skipped characters is still open where the
      input ends, for within a run the decoder reads on without looking at `len`. A NUL or a
      padding character, or reading that ends before, is enough. */
  predicate StaysWithin(a: seq<byte>, input: seq<byte>, len: nat, mode: Mode, pos: nat)
    requires IsAlphabet(a) && pos <= |input|
  {
    mode.Strict? || ReadEnd(a, input, len, mode, pos) < |input| || !InRun(a, input, |input|)
  }

  // ----- The loops -----

  /** The inner loop reads on behind such a character. */
  predicate Skips(a: seq<byte>, c: byte, mode: Mode)
    requires |a| <= 65
  {
    c != 0 && Place(a, c) > 64 && (mode.IgnoreNonAlphabet? || IsSpace(c))
  }

  /** A character that is not skipped lies ahead. */
  ghost predicate Stopped(a: seq<byte>, input: seq<byte>, pos: nat, mode: Mode)
    requires |a| <= 65
  {
    exists i :: pos <= i < |input| && !Skips(a, input[i], mode)
  }

  /** The state after a run of skipped characters: the position behind the last character read,
      that character, and the table's answer that ended the run. */
  datatype Skipped = Skipped(pos: nat, c: byte, x: nat)

  /** The inner loops: read on while characters are to be skipped. They do not look for `len`. */
  function Skip(a: seq<byte>, input: seq<byte>, pos: nat, mode: Mode, x: nat): (r: Skipped)
    requires |a| <= 65 && Stopped(a, input, pos, mode)
    ensures pos < r.pos <= |input| && r.c == input[r.pos - 1]
    ensures r.c != 0 ==> r.x == Place(a, r.c)
    ensures r.c == 0 ==> r.x == x || r.x == 65
    decreases |input| - pos
  {
    var c := input[pos];
    if c == 0 then Skipped(pos + 1, 0, x)
    else if Skips(a, c, mode) then Skip(a, input, pos + 1, mode, Place(a, c))
    else Skipped(pos + 1, c, Place(a, c))
  }

  /** A run of skipped characters stops within the input. It ends at the next digit, and reading
      goes on behind it, or it ends where reading ends. */
  lemma {:induction false} SkipEnds(a: seq<byte>, input: seq<byte>, len: nat, pos: nat, mode: Mode)
    requires IsAlphabet(a) && !mode.Strict? && pos <= |input| && InRun(a, input, pos)
    requires StaysWithin(a, input, len, mode, pos)
    ensures pos < |input| && Stopped(a, input, pos, mode)
    ensures var s, k := Skip(a, input, pos, mode, 65), ReadEnd(a, input, len, mode, pos);
            && (s.x < 64 ==>
                  && s.pos <= k == ReadEnd(a, input, len, mode, s.pos) && IsDigit(a, s.c)
                  && !InRun(a, input, s.pos) && StaysWithin(a, input, len, mode, s.pos)
                  && Digits(a, input[pos..k]) == [s.x] + Digits(a, input[s.pos..k]))
            && (s.x >= 64 ==>
                  k < |input| && s.pos == k + 1 && s.c == input[k] && Digits(a, input[pos..k]) == []
                  && InRun(a, input, k))
    decreases |input| - pos
  {
    hide Place, IsAlphabet;
    PadPlace(a);
    var c, k := input[pos], ReadEnd(a, input, len, mode, pos);
    if EndsAt(a, input, len, mode, pos) {
      StopsHere(a, input, len, pos, mode);
    } else {
      assert input[pos..k][0] == c && input[pos..k][1..] == input[pos + 1..k];
      if IsDigit(a, c) {
        DigitStops(a, input, pos, mode);
      } else {
        PlaceOfStray(a, c);
        SkipEnds(a, input, len, pos + 1, mode);
      }
    }
  }

  lemma DigitStops(a: seq<byte>, input: seq<byte>, pos: nat, mode: Mode)
    requires IsAlphabet(a) && pos < |input| && IsDigit(a, input[pos])
    ensures Stopped(a, input, pos, mode)
  {
    assert !Skips(a, input[pos], mode);
  }

  lemma StopsHere(a: seq<byte>, input: seq<byte>, len: nat, pos: nat, mode: Mode)
    requires IsAlphabet(a) && !mode.Strict? && pos < |input| && InRun(a, input, pos)
    requires EndsAt(a, input, len, mode, pos)
    ensures Stopped(a, input, pos, mode)
    ensures Skip(a, input, pos, mode, 65).pos == pos + 1 && Skip(a, input, pos, mode, 65).x >= 64
  {
    assert !Skips(a, input[pos], mode);
  }

  /** The digits taken, the position behind the last character read, and that character. */
  datatype Halt = Halt(xs: seq<sextet>, pos: nat, c: byte)

  function Cons(x: sextet, h: Halt): Halt {
    h.(xs := [x] + h.xs)
  }

  /** The outer loop from `pos` on; `c` is the last character read before. */
  function Scan(a: seq<byte>, input: seq<byte>, len: nat, pos: nat, c: byte, mode: Mode): (h: Halt)
    requires IsAlphabet(a) && len <= |input| && pos <= |input| && !InRun(a, input, pos)
    requires StaysWithin(a, input, len, mode, pos)
    ensures pos <= h.pos <= |input|
    decreases |input| - pos
  {
    if pos >= len then Halt([], pos, c)
    else
      var d := input[pos];
      if d == 0 then Halt([], pos + 1, d)
      else
        var x := Place(a, d);
        if x < 64 then
          ReadsOn(a, input, len, pos, mode);
          Cons(x, Scan(a, input, len, pos + 1, d, mode))
        else if x == 64 || mode.Strict? then Halt([], pos + 1, d)
        else
          ReadsOn(a, input, len, pos, mode);
          SkipEnds(a, input, len, pos + 1, mode);
          var s := Skip(a, input, pos + 1, mode, x);
          if s.x >= 64 then Halt([], s.pos, s.c) else Cons(s.x, Scan(a, input, len, s.pos, s.c, mode))
  }

  /** Reading does not end at a digit, nor at a first stray character that may be skipped. */
  lemma ReadsOn(a: seq<byte>, input: seq<byte>, len: nat, pos: nat, mode: Mode)
    requires IsAlphabet(a) && pos < len <= |input| && input[pos] != 0 && !InRun(a, input, pos)
    requires IsDigit(a, input[pos]) || (IsJunk(a, input[pos]) && !mode.Strict?)
    ensures !EndsAt(a, input, len, mode, pos)
    ensures ReadEnd(a, input, len, mode, pos) == ReadEnd(a, input, len, mode, pos + 1)
    ensures StaysWithin(a, input, len, mode, pos) ==> StaysWithin(a, input, len, mode, pos + 1)
    ensures InRun(a, input, pos + 1) <==> IsJunk(a, input[pos])
  {
  }

  /** The decoder's verdict: it objects to a character that is neither NUL nor padding, unless it
      was the last, to a lone sextet, and to bits beyond the last byte. */
  predicate Fails(a: seq<byte>, len: nat, h: Halt)
    requires IsAlphabet(a)
  {
    (h.pos < len && h.c != 0 && h.c != a[64]) || !Canonical(h.xs)
  }

  /** What the decoder makes of an input. */
  datatype Result = Decoded(b: seq<byte>) | Rejected(consumed: nat)

  function Decode(a: seq<byte>, input: seq<byte>, len: nat, mode: Mode): Result
    requires IsAlphabet(a) && len <= |input| && StaysWithin(a, input, len, mode, 0)
  {
    var h := Scan(a, input, len, 0, 0, mode);
    if Fails(a, len, h) then Rejected(h.pos) else Decoded(Pack(h.xs))
  }

  // ----- What the decoder reads -----

  /** The digits of a text, everything else left out. */
  function Digits(a: seq<byte>, t: seq<byte>): seq<sextet>
    requires IsAlphabet(a)
  {
    if t == [] then []
    else if IsDigit(a, t[0]) then [Place(a, t[0])] + Digits(a, t[1..])
    else Digits(a, t[1..])
  }

  /** How many characters are consumed when reading ends at k: the one at k too, unless the loop
      ended because it was behind `len`. */
  function Consumed(a: seq<byte>, input: seq<byte>, len: nat, k: nat): nat
    requires IsAlphabet(a) && k <= |input|
  {
    if k < len || InRun(a, input, k) then k + 1 else k
  }

  /** The outer loop takes the digits up to the place where reading ends. */
  lemma {:induction false} ScanEnds(a: seq<byte>, input: seq<byte>, len: nat, pos: nat, c: byte, mode: Mode)
    requires IsAlphabet(a) && pos <= |input| && len <= |input| && !InRun(a, input, pos)
    requires StaysWithin(a, input, len, mode, pos)
    ensures var h, k := Scan(a, input, len, pos, c, mode), ReadEnd(a, input, len, mode, pos);
            && h.xs == Digits(a, input[pos..k]) && h.pos == Consumed(a, input, len, k)
            && (k < len ==> h.c == input[k])
    decreases |input| - pos
  {
    hide Place, Skip, StaysWithin;
    PadPlace(a);
    var k := ReadEnd(a, input, len, mode, pos);
    if pos < len {
      var d := input[pos];
      if IsDigit(a, d) {
        ReadsOn(a, input, len, pos, mode);
        ScanEnds(a, input, len, pos + 1, d, mode);
        assert input[pos..k][0] == d && input[pos..k][1..] == input[pos + 1..k];
      } else if d != 0 && d != a[64] && !mode.Strict? {
        PlaceOfStray(a, d);
        ReadsOn(a, input, len, pos, mode);
        SkipEnds(a, input, len, pos + 1, mode);
        assert input[pos..k][0] == d && input[pos..k][1..] == input[pos + 1..k];
        var s := Skip(a, input, pos + 1, mode, 65);
        if s.x < 64 {
          ScanEnds(a, input, len, s.pos, s.c, mode);
        }
      } else {
        StrayStops(a, input, len, pos, mode);
      }
    }
  }

  lemma StrayStops(a: seq<byte>, input: seq<byte>, len: nat, pos: nat, mode: Mode)
    requires IsAlphabet(a) && pos < len <= |input| && !IsDigit(a, input[pos])
    requires input[pos] == 0 || input[pos] == a[64] || mode.Strict?
    ensures EndsAt(a, input, len, mode, pos)
  {
  }

  /** Behind a stray character, every further stray character is white space. */
  predicate RunsOfSpace(a: seq<byte>, t: seq<byte>)
    requires IsAlphabet(a)
  {
    forall i :: 0 < i < |t| && IsJunk(a, t[i - 1]) && IsJunk(a, t[i]) ==> IsSpace(t[i])
  }

  /** A text that the mode reads to its end. Ignoring space lets one character of any kind pass
      after a digit: only those that follow it must be white space. */
  predicate Readable(a: seq<byte>, t: seq<byte>, mode: Mode)
    requires IsAlphabet(a)
  {
    && (forall i :: 0 <= i < |t| ==> IsDigit(a, t[i]) || (IsJunk(a, t[i]) && !mode.Strict?))
    && (mode.IgnoreSpace? ==> RunsOfSpace(a, t))
  }

  /** The text input[..end] is followed by NUL or padding, or it fills the length and leaves no run open. */
  predicate Ends(a: seq<byte>, input: seq<byte>, len: nat, end: nat)
    requires IsAlphabet(a)
  {
    && end <= len <= |input|
    && ((end < |input| && (input[end] == 0 || input[end] == a[64])) || (end == len && !InRun(a, input, end)))
  }

  /** The decoder takes exactly the digits of a readable text, and stops without objection. */
  lemma ScanText(a: seq<byte>, input: seq<byte>, len: nat, end: nat, mode: Mode)
    requires IsAlphabet(a) && Ends(a, input, len, end) && Readable(a, input[..end], mode)
    ensures StaysWithin(a, input, len, mode, 0)
    ensures var h := Scan(a, input, len, 0, 0, mode);
            h.xs == Digits(a, input[..end]) && (h.pos < len ==> h.c == 0 || h.c == a[64])
  {
    hide Place, IsSpace, Digits, Scan;
    PadPlace(a);
    var t, k := input[..end], ReadEnd(a, input, len, mode, 0);
    assert EndsAt(a, input, len, mode, end);
    assert k == end;
    ScanEnds(a, input, len, 0, 0, mode);
    assert input[0..k] == t;
  }
}

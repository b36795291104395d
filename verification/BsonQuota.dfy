/** bsonAddQuota of strings.cpp: put double quotes around the keys of a text. */
module BsonQuota {
  import opened StringReplace
  import opened Wrappers

  const QUOTE: char := '"'

  /** s[a..q] is a key: it stands between a space and a colon, holds neither, and neither begins
      nor ends with a double quote. */
  predicate IsKey(s: string, a: nat, q: nat) {
    && 0 < a < q < |s|
    && s[a - 1] == ' ' && s[q] == ':'
    && (forall i :: a <= i < q ==> s[i] != ' ' && s[i] != ':')
    && s[a] != QUOTE && s[q - 1] != QUOTE
  }

  ghost predicate Opens(s: string, a: nat) {
    exists q :: IsKey(s, a, q)
  }

  ghost predicate Closes(s: string, q: nat) {
    exists a :: IsKey(s, a, q)
  }

  /** What is inserted before s[i]. */
  ghost function Inserted(s: string, i: nat): string {
    if Opens(s, i) || Closes(s, i) then [QUOTE] else ""
  }

  /** The first n characters of s, with a quote before each key and before the colon behind it. */
  ghost function Marked(s: string, n: nat): string
    requires n <= |s|
  {
    if n == 0 then "" else Marked(s, n - 1) + Inserted(s, n - 1) + [s[n - 1]]
  }

  /** Every unquoted key between a space and its colon, quoted. */
  ghost function Quoted(s: string): string {
    Marked(s, |s|)
  }

  /** No key reaches across `at`: nothing is open there. */
  ghost predicate Settled(s: string, at: nat) {
    forall a: nat, q: nat :: a <= at < q ==> !IsKey(s, a, q)
  }

  // ----- Stretches that are copied as they are -----

  lemma {:induction false} MarkedPlain(s: string, from: nat, to: nat)
    requires from <= to <= |s|
    requires forall i :: from <= i < to ==> !Opens(s, i) && !Closes(s, i)
    ensures Marked(s, to) == Marked(s, from) + s[from..to]
  {
    if from == to {
      assert Marked(s, from) + s[from..to] == Marked(s, to);
    } else {
      MarkedPlain(s, from, to - 1);
      assert Marked(s, from) + s[from..to - 1] + "" + [s[to - 1]] == Marked(s, from) + s[from..to];
    }
  }

  /** Where no key reaches across and no space follows, nothing is inserted. */
  lemma NothingInserted(s: string, at: nat, to: nat)
    requires at < to <= |s| && Settled(s, at)
    requires forall i :: at <= i < to - 1 ==> s[i] != ' '
    ensures forall i :: at < i < to ==> !Opens(s, i) && !Closes(s, i)
  {
  }

  /** The text written so far when everything before s[at] is done: the quote that closes a key
      at s[at] is already there. */
  ghost function Written(s: string, at: nat): string
    requires at <= |s|
  {
    Marked(s, at) + if Closes(s, at) then [QUOTE] else ""
  }

  lemma WrittenWhole(s: string)
    ensures Written(s, |s|) == Quoted(s)
  {
  }

  /** Copying up to the next space, or to the end. */
  lemma WrittenPlain(s: string, at: nat, to: nat)
    requires at <= to <= |s| && Settled(s, at)
    requires forall i :: at <= i < to ==> s[i] != ' '
    requires to < |s| ==> s[to] == ' '
    ensures Written(s, to) == Written(s, at) + s[at..to]
  {
    hide IsKey, Settled;
    if at == to {
      assert Written(s, to) + s[at..to] == Written(s, to);
    } else {
      NothingInserted(s, at, to);
      MarkedPlain(s, at + 1, to);
      ClosesAtColon(s, to);
      SettledOpensNothing(s, at);
      var ins := Inserted(s, at);
      assert Marked(s, to) == Marked(s, at) + ins + [s[at]] + s[at + 1..to];
      assert Marked(s, at) + ins + [s[at]] + s[at + 1..to] == Marked(s, at) + ins + s[at..to];
      assert Marked(s, to) + "" == Marked(s, to);
    }
  }

  lemma ClosesAtColon(s: string, q: nat)
    ensures Closes(s, q) ==> q < |s| && s[q] == ':'
    ensures Opens(s, q) ==> q < |s| && s[q] != ':' && s[q] != ' ' && 0 < q && s[q - 1] == ' '
  {
  }

  lemma SettledOpensNothing(s: string, at: nat)
    requires Settled(s, at)
    ensures !Opens(s, at)
  {
  }

  // ----- The two branches -----

  lemma KeyHoldsNeither(s: string, a: nat, q: nat, i: nat)
    ensures IsKey(s, a, q) && a <= i < q ==> s[i] != ' ' && s[i] != ':'
  {
  }

  /** The source's test for a key behind the space at `space`. */
  predicate KeyAhead(s: string, space: nat, nextSpace: Option<nat>, nextColon: Option<nat>)
    requires space < |s| && (nextColon.Some? ==> space < nextColon.value < |s|)
  {
    && nextColon.Some?
    && nextColon.value - space > 1
    && (space == |s| - 1 || s[space + 1] != '"')
    && s[nextColon.value - 1] != '"'
    && (nextSpace.None? || nextSpace.value > nextColon.value)
  }

  /** It finds exactly the keys that begin there. */
  lemma KeyTest(s: string, space: nat, a: nat)
    requires a == space + 1 <= |s| && s[space] == ' '
    ensures var nextColon := FindChar(s, ':', a);
            KeyAhead(s, space, FindChar(s, ' ', a), nextColon) <==> nextColon.Some? && IsKey(s, a, nextColon.value)
    ensures forall q: nat :: IsKey(s, a, q) ==> FindChar(s, ':', a) == Some(q)
  {
    var nextColon := FindChar(s, ':', a);
    forall q: nat | IsKey(s, a, q)
      ensures nextColon == Some(q)
    {
      assert s[q] == ':' && nextColon.Some?;
      KeyHoldsNeither(s, a, q, nextColon.value);
    }
  }

  /** Searching two texts that agree from there on. */
  lemma SearchShifted(s: string, i: nat, t: string, j: nat, c: char)
    requires i <= |s| && j <= |t| && s[i..] == t[j..]
    ensures var f, g := FindChar(s, c, i), FindChar(t, c, j);
            (f.None? <==> g.None?) && (f.Some? ==> f.value - i == g.value - j)
  {
  }

  /** The text up to a colon found, and from there on. */
  lemma CutShifted(s: string, i: nat, t: string, j: nat, n: nat)
    requires i + n < |s| && j + n < |t| && s[i..] == t[j..]
    ensures s[i + n] == t[j + n] && s[i..i + n] == t[j..j + n] && s[i + n..] == t[j + n..]
  {
  }

  /** The test depends only on the text from the space on. */
  lemma TestShifted(s: string, i: nat, t: string, j: nat)
    requires i < |s| && j < |t| && s[i..] == t[j..]
    ensures KeyAhead(s, i, FindChar(s, ' ', i + 1), FindChar(s, ':', i + 1)) <==>
            KeyAhead(t, j, FindChar(t, ' ', j + 1), FindChar(t, ':', j + 1))
    ensures var f, g := FindChar(s, ':', i + 1), FindChar(t, ':', j + 1);
            (f.None? <==> g.None?) && (f.Some? ==> f.value - i == g.value - j)
  {
    assert s[i + 1..] == s[i..][1..] == t[j + 1..];
    SearchShifted(s, i + 1, t, j + 1, ' ');
    SearchShifted(s, i + 1, t, j + 1, ':');
    var f := FindChar(s, ':', i + 1);
    assert |s| - i == |t| - j;
    if f.Some? {
      CutShifted(s, i, t, j, 1);
      CutShifted(s, i, t, j, f.value - i - 1);
    }
  }

  lemma WrittenSpace(s: string, space: nat)
    requires space < |s| && s[space] == ' '
    ensures Marked(s, space + 1) == Written(s, space) + [' '] && Written(s, space) == Marked(s, space)
  {
  }

  /** Nothing is open at a colon. */
  lemma SettledAtColon(s: string, q: nat)
    requires q < |s| && s[q] == ':'
    ensures Settled(s, q)
  {
  }

  /** Inside a key nothing is inserted. */
  lemma NothingInside(s: string, a: nat, q: nat)
    requires IsKey(s, a, q)
    ensures forall i :: a < i < q ==> !Opens(s, i) && !Closes(s, i)
  {
  }

  lemma MarkedOpen(s: string, a: nat)
    requires a < |s| && Opens(s, a)
    ensures Marked(s, a + 1) == Marked(s, a) + [QUOTE] + [s[a]]
  {
  }

  /** A key is written with both its quotes. */
  lemma WrittenKey(s: string, a: nat, q: nat)
    requires IsKey(s, a, q)
    ensures Written(s, q) == Written(s, a - 1) + [' ', QUOTE] + s[a..q] + [QUOTE]
  {
    assert Opens(s, a) && Closes(s, q);
    assert 0 < a < q < |s| && s[a - 1] == ' ';
    NothingInside(s, a, q);
    hide IsKey, Opens, Closes, Marked;
    WrittenSpace(s, a - 1);
    MarkedOpen(s, a);
    MarkedPlain(s, a + 1, q);
    assert [s[a]] + s[a + 1..q] == s[a..q];
    assert Marked(s, a) + [QUOTE] + [s[a]] + s[a + 1..q] == Marked(s, a) + [QUOTE] + s[a..q];
    assert Written(s, a - 1) + [' '] + [QUOTE] == Written(s, a - 1) + [' ', QUOTE];
  }

  // ----- The loop -----

  /** The search goes on at s[at], or at the closing quote just written in front of it. */
  ghost predicate Resumes(s: string, at: nat, str: string, pos: nat) {
    && at <= |s| && Settled(s, at) && str == Written(s, at) + s[at..]
    && var n := |Written(s, at)|;
       pos == n || (pos == n - 1 && Written(s, at)[pos] == QUOTE)
  }

  /** Finding the next space in the text so far is finding it in the input. */
  lemma NextSpace(s: string, at: nat, str: string, pos: nat) returns (space: nat)
    requires Resumes(s, at, str, pos)
    ensures at <= space <= |s| && str == Written(s, space) + s[space..]
    ensures match FindChar(str, ' ', pos)
            case None => space == |s|
            case Some(found) => space < |s| && s[space] == ' ' && found == |Written(s, space)|
  {
    hide Written, Settled;
    var w := Written(s, at);
    assert str[|w|..] == s[at..];
    SearchShifted(str, |w|, s, at, ' ');
    assert pos < |w| ==> str[pos] == w[pos];
    var next := FindChar(s, ' ', at);
    space := if next.Some? then next.value else |s|;
    WrittenPlain(s, at, space);
    assert s[at..] == s[at..space] + s[space..];
    assert w + (s[at..space] + s[space..]) == w + s[at..space] + s[space..];
  }

  /** The text after a key has been quoted. */
  lemma AfterKey(s: string, space: nat, q: nat, str: string, colon: nat)
    requires space < |s| && s[space] == ' ' && IsKey(s, space + 1, q)
    requires str == Written(s, space) + s[space..]
    requires colon == |Written(s, space)| + (q - space)
    ensures var p := |Written(s, space)|;
            && colon <= |str|
            && Resumes(s, q, str[..p + 1] + [QUOTE] + str[p + 1..colon] + [QUOTE] + str[colon..], colon + 1)
  {
    hide Written, Settled;
    var w := Written(s, space);
    WrittenKey(s, space + 1, q);
    SettledAtColon(s, q);
    assert str[..|w| + 1] == w + [' '];
    assert str[|w| + 1..colon] == s[space + 1..q];
    assert str[colon..] == s[q..];
    assert w + [' '] + [QUOTE] == w + [' ', QUOTE];
  }

  /** The text when there was no key behind the space. */
  lemma AfterSpace(s: string, space: nat, str: string)
    requires space < |s| && s[space] == ' ' && !Opens(s, space + 1)
    requires str == Written(s, space) + s[space..]
    ensures Resumes(s, space + 1, str, |Written(s, space)| + 1)
  {
  }

  lemma Starts(s: string)
    ensures Resumes(s, 0, s, 0)
  {
  }

  /** When no space is left, all is written. */
  lemma NoSpaceLeft(s: string, at: nat, str: string, pos: nat)
    requires Resumes(s, at, str, pos) && FindChar(str, ' ', pos).None?
    ensures str == Quoted(s)
  {
    hide Resumes, Written, Quoted;
    var space := NextSpace(s, at, str, pos);
    WrittenWhole(s);
    assert Written(s, |s|) + "" == Written(s, |s|);
  }

  /** One turn of the loop, at the space found: with or without a key behind it. */
  lemma Turn(s: string, at: nat, str: string, pos: nat, found: nat) returns (next: nat)
    requires Resumes(s, at, str, pos) && FindChar(str, ' ', pos) == Some(found)
    ensures var nextColon := FindChar(str, ':', found + 1);
            if KeyAhead(str, found, FindChar(str, ' ', found + 1), nextColon) then
              var colon := nextColon.value;
              Resumes(s, next, str[..found + 1] + [QUOTE] + str[found + 1..colon] + [QUOTE] + str[colon..], colon + 1)
            else Resumes(s, next, str, found + 1)
  {
    hide IsKey, Resumes, Written, KeyAhead, Find, OccursAt;
    var space := NextSpace(s, at, str, pos);
    assert str[found..] == s[space..];
    TestShifted(str, found, s, space);
    KeyTest(s, space, space + 1);
    var nextColon := FindChar(str, ':', found + 1);
    if KeyAhead(str, found, FindChar(str, ' ', found + 1), nextColon) {
      KeyAheadFinds(str, found, FindChar(str, ' ', found + 1), nextColon);
      next := FindChar(s, ':', space + 1).value;
      AfterKey(s, space, next, str, nextColon.value);
    } else {
      KeyAheadFinds(s, space, FindChar(s, ' ', space + 1), FindChar(s, ':', space + 1));
      AfterSpace(s, space, str);
      next := space + 1;
    }
  }

  lemma KeyAheadFinds(s: string, space: nat, nextSpace: Option<nat>, nextColon: Option<nat>)
    requires space < |s| && (nextColon.Some? ==> space < nextColon.value < |s|)
    ensures KeyAhead(s, space, nextSpace, nextColon) ==> nextColon.Some? && nextColon.value - space > 1
  {
  }

  /** bsonAddQuota: find the next space, and quote what follows it up to the next colon if that is a
      key. The text grows with every key, but what is left of it shrinks. */
  method BsonAddQuota(input: string) returns (str: string)
    ensures str == Quoted(input)
  {
    hide Quoted, Resumes, KeyAhead, Find, OccursAt;
    str := input;
    var posSpace: nat := 0;
    ghost var at: nat := 0;
    Starts(input);
    while true
      invariant posSpace <= |str| && Resumes(input, at, str, posSpace)
      decreases |str| - posSpace
    {
      var found := FindChar(str, ' ', posSpace);
      if found.None? {
        NoSpaceLeft(input, at, str, posSpace);
        break;
      }
      at := Turn(input, at, str, posSpace, found.value);
      posSpace := found.value;
      var posNextSpace := FindChar(str, ' ', posSpace + 1);
      var posNextColon := FindChar(str, ':', posSpace + 1);
      if KeyAhead(str, posSpace, posNextSpace, posNextColon) {
        KeyAheadFinds(str, posSpace, posNextSpace, posNextColon);
        var colon := posNextColon.value;
        var n := colon - posSpace - 1;
        str := str[..posSpace + 1] + ['"'] + str[posSpace + 1..colon] + ['"'] + str[colon..];
        posSpace := posSpace + (n + 2);
      } else {
        posSpace := posSpace + 1;
      }
    }
  }

  // ----- Deleting the inserted quotes -----

  /** Which characters of Marked(s, n) were inserted. */
  ghost function Flags(s: string, n: nat): (f: seq<bool>)
    requires n <= |s|
    ensures |f| == |Marked(s, n)|
  {
    if n == 0 then [] else Flags(s, n - 1) + seq(|Inserted(s, n - 1)|, _ => true) + [false]
  }

  /** The characters that are not flagged. */
  function Unflagged(t: string, flags: seq<bool>): string
    requires |t| == |flags|
  {
    if t == "" then ""
    else
      var n := |t| - 1;
      Unflagged(t[..n], flags[..n]) + if flags[n] then "" else [t[n]]
  }

  lemma FlagsStep(s: string, n: nat)
    requires 0 < n <= |s|
    ensures var t, f, c := Marked(s, n - 1), Flags(s, n - 1), s[n - 1];
            (Marked(s, n) == t + [c] && Flags(s, n) == f + [false]) ||
            (Marked(s, n) == t + [QUOTE] + [c] && Flags(s, n) == f + [true] + [false])
  {
  }

  lemma NothingMarked(s: string)
    ensures Marked(s, 0) == "" && Flags(s, 0) == [] && Unflagged("", []) == ""
  {
  }

  /** Only quotes are inserted. */
  lemma {:induction false} OnlyQuotesInserted(s: string, n: nat)
    requires n <= |s|
    ensures forall i :: 0 <= i < |Marked(s, n)| && Flags(s, n)[i] ==> Marked(s, n)[i] == QUOTE
    decreases n
  {
    hide Marked, Flags;
    NothingMarked(s);
    if n > 0 {
      OnlyQuotesInserted(s, n - 1);
      FlagsStep(s, n);
    }
  }

  /** Deleting what was inserted gives the input back. */
  lemma {:induction false} DeletingInserted(s: string, n: nat)
    requires n <= |s|
    ensures Unflagged(Marked(s, n), Flags(s, n)) == s[..n]
    decreases n
  {
    hide Marked, Flags, Unflagged;
    NothingMarked(s);
    if n > 0 {
      DeletingInserted(s, n - 1);
      DeletingStep(s, n);
      assert s[..n] == s[..n - 1] + [s[n - 1]];
    }
  }

  /** The quoted text is the input with quotes inserted, and with nothing else changed. */
  lemma QuotedOnlyInserts(s: string)
    ensures |Flags(s, |s|)| == |Quoted(s)|
    ensures forall i :: 0 <= i < |Quoted(s)| && Flags(s, |s|)[i] ==> Quoted(s)[i] == '"'
    ensures Unflagged(Quoted(s), Flags(s, |s|)) == s
  {
    hide Marked, Flags, Unflagged;
    OnlyQuotesInserted(s, |s|);
    DeletingInserted(s, |s|);
    assert s[..|s|] == s;
  }

  lemma DeletingStep(s: string, n: nat)
    requires 0 < n <= |s|
    ensures Unflagged(Marked(s, n), Flags(s, n)) == Unflagged(Marked(s, n - 1), Flags(s, n - 1)) + [s[n - 1]]
  {
    hide Inserted, Unflagged, Marked, Flags;
    FlagsStep(s, n);
    UnflaggedStep(Marked(s, n - 1), Flags(s, n - 1), s[n - 1], Marked(s, n), Flags(s, n));
  }

  lemma UnflaggedStep(t: string, f: seq<bool>, c: char, t': string, f': seq<bool>)
    requires |t| == |f|
    requires (t' == t + [c] && f' == f + [false]) || (t' == t + [QUOTE] + [c] && f' == f + [true] + [false])
    ensures |t'| == |f'| && Unflagged(t', f') == Unflagged(t, f) + [c]
  {
  }

  // ----- Idempotence -----

  predicate FreeOfSeparators(w: string) {
    forall i :: 0 <= i < |w| ==> w[i] != ' ' && w[i] != ':'
  }

  /** Behind the space at s[i] there is no separator up to s[n], and w is what is written there. */
  ghost predicate Behind(s: string, n: nat, i: nat, w: string) {
    && i < n <= |s| && s[i] == ' ' && FreeOfSeparators(s[i + 1..n])
    && w == (if i + 1 < n && Opens(s, i + 1) then [QUOTE] else "") + s[i + 1..n]
  }

  lemma BehindSpace(s: string, n: nat)
    requires 0 < n <= |s| && s[n - 1] == ' '
    ensures Behind(s, n, n - 1, "")
  {
  }

  lemma BehindOpening(s: string, n: nat)
    requires 1 < n <= |s| && s[n - 2] == ' ' && Opens(s, n - 1) && s[n - 1] != ' ' && s[n - 1] != ':'
    ensures Behind(s, n, n - 2, [QUOTE] + [s[n - 1]])
  {
  }

  lemma BehindMore(s: string, n: nat, i: nat, v: string)
    requires 0 < n <= |s| && Behind(s, n - 1, i, v) && !Opens(s, n - 1) && s[n - 1] != ' ' && s[n - 1] != ':'
    ensures Behind(s, n, i, v + [s[n - 1]])
  {
    hide Opens;
    var c := s[n - 1];
    assert s[i + 1..n] == s[i + 1..n - 1] + [c];
    var pre := if i + 1 < n - 1 && Opens(s, i + 1) then [QUOTE] else "";
    assert pre + s[i + 1..n - 1] + [c] == pre + s[i + 1..n];
  }

  /** What stands behind the last space of the marked text stands behind it in the input, with an
      opening quote in front if a key opens there. */
  lemma {:induction false} BehindLastSpace(s: string, n: nat, x: string, w: string) returns (i: nat)
    requires n <= |s| && Marked(s, n) == x + [' '] + w && FreeOfSeparators(w)
    ensures Behind(s, n, i, w)
    decreases n
  {
    hide IsKey, Opens, Closes, Behind, FreeOfSeparators;
    var c := s[n - 1];
    var before := Marked(s, n - 1);
    ClosesAtColon(s, n - 1);
    CutLast(before + Inserted(s, n - 1), c, x, w);
    if w == "" {
      i := n - 1;
      BehindSpace(s, n);
    } else {
      var v := w[..|w| - 1];
      if Opens(s, n - 1) {
        SpaceLast(s, n - 1);
        i := n - 2;
        OneQuote(before, x, v);
        BehindOpening(s, n);
      } else {
        assert before + "" == before;
        i := BehindLastSpace(s, n - 1, x, v);
        BehindMore(s, n, i, v);
      }
    }
  }

  lemma CutLast(before: string, c: char, x: string, w: string)
    requires before + [c] == x + [' '] + w && FreeOfSeparators(w)
    ensures w == "" ==> c == ' '
    ensures w != "" ==>
              && w == w[..|w| - 1] + [c] && before == x + [' '] + w[..|w| - 1]
              && c != ' ' && c != ':' && FreeOfSeparators(w[..|w| - 1])
  {
    var t := before + [c];
    assert t[|t| - 1] == c && before == t[..|t| - 1];
    if w != "" {
      assert (x + [' '] + w)[|t| - 1] == w[|w| - 1];
      assert (x + [' '] + w)[..|t| - 1] == x + [' '] + w[..|w| - 1];
    }
  }

  lemma SpaceLast(s: string, n: nat)
    requires 0 < n <= |s| && s[n - 1] == ' '
    ensures Marked(s, n) != "" && Marked(s, n)[|Marked(s, n)| - 1] == ' '
  {
  }

  /** If a quote follows a space directly, nothing else stands between them. */
  lemma OneQuote(before: string, x: string, v: string)
    requires before != "" && before[|before| - 1] == ' '
    requires before + [QUOTE] == x + [' '] + v && FreeOfSeparators(v)
    ensures v == [QUOTE]
  {
    var t := x + [' '] + v;
    assert t[|t| - 1] == QUOTE && t[|t| - 2] == ' ';
  }

  /** A colon that closes no key ends no key of the marked text either. */
  lemma NoKeyAtEnd(s: string, n: nat, x: string, w: string)
    requires 0 < n <= |s| && s[n - 1] == ':' && !Closes(s, n - 1)
    requires Marked(s, n - 1) == x + [' '] + w && FreeOfSeparators(w) && w != ""
    ensures w[0] == QUOTE || w[|w| - 1] == QUOTE
  {
    var i := BehindLastSpace(s, n - 1, x, w);
    BareKey(s, n - 1, i, w);
  }

  lemma BareKey(s: string, m: nat, i: nat, w: string)
    requires m < |s| && s[m] == ':' && Behind(s, m, i, w) && w != ""
    requires !Closes(s, m)
    ensures w[0] == QUOTE || w[|w| - 1] == QUOTE
  {
    hide Opens;
    var v := s[i + 1..m];
    if i + 1 < m && !Opens(s, i + 1) {
      assert w == "" + v == v;
      assert v[0] == s[i + 1] && v[|v| - 1] == s[m - 1];
      assert forall j :: i + 1 <= j < m ==> s[j] == v[j - i - 1];
      assert !IsKey(s, i + 1, m);
    }
  }

  lemma KeyParts(t: string, a: nat, q: nat)
    requires IsKey(t, a, q)
    ensures t[..q] == t[..a - 1] + [' '] + t[a..q]
    ensures FreeOfSeparators(t[a..q]) && t[a..q] != "" && t[a..q][0] != '"' && t[a..q][q - a - 1] != '"'
  {
  }

  /** The last character of the marked text ends no key: a quote is in its way. */
  lemma NoKeyEndsLast(s: string, n: nat, a: nat, q: nat)
    requires 0 < n <= |s| && q >= |Marked(s, n - 1)|
    ensures !IsKey(Marked(s, n), a, q)
  {
    hide Opens, Closes;
    var t, before, c := Marked(s, n), Marked(s, n - 1), s[n - 1];
    ClosesAtColon(s, n - 1);
    assert t == before + Inserted(s, n - 1) + [c];
    if IsKey(t, a, q) {
      KeyParts(t, a, q);
      if !Closes(s, n - 1) && c == ':' {
        assert before + "" == before && before == t[..q];
        NoKeyAtEnd(s, n, t[..a - 1], t[a..q]);
      }
      assert false;
    }
  }

  /** The marked text holds no key. */
  lemma {:induction false} MarkedHasNoKey(s: string, n: nat, a: nat, q: nat)
    requires n <= |s|
    ensures !IsKey(Marked(s, n), a, q)
    decreases n
  {
    hide IsKey, Inserted;
    if n == 0 {
      NothingMarked(s);
      EmptyHasNoKey(a, q);
    } else {
      var before := Marked(s, n - 1);
      if q < |before| {
        MarkedHasNoKey(s, n - 1, a, q);
        KeyInPrefix(before, Inserted(s, n - 1) + [s[n - 1]], a, q);
        assert Marked(s, n) == before + (Inserted(s, n - 1) + [s[n - 1]]);
      } else {
        NoKeyEndsLast(s, n, a, q);
      }
    }
  }

  lemma EmptyHasNoKey(a: nat, q: nat)
    ensures !IsKey("", a, q)
  {
  }

  lemma KeyInPrefix(before: string, more: string, a: nat, q: nat)
    requires q < |before| && !IsKey(before, a, q)
    ensures !IsKey(before + more, a, q)
  {
    var t := before + more;
    assert forall i :: 0 <= i < |before| ==> t[i] == before[i];
  }

  /** Quoting a second time changes nothing. */
  lemma QuotedTwice(s: string)
    ensures Quoted(Quoted(s)) == Quoted(s)
  {
    hide IsKey, Marked;
    var t := Quoted(s);
    forall i | 0 <= i < |t|
      ensures !Opens(t, i) && !Closes(t, i)
    {
      forall a: nat, q: nat
        ensures !IsKey(t, a, q)
      {
        MarkedHasNoKey(s, |s|, a, q);
      }
    }
    MarkedPlain(t, 0, |t|);
    MarkedNothing(t);
    assert "" + t[0..|t|] == t;
  }

  lemma MarkedNothing(s: string)
    ensures Marked(s, 0) == ""
  {
  }
}

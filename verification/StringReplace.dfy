/** The replacing functions of strings.cpp. */
module StringReplace {
  import opened Wrappers

  predicate OccursAt(s: string, pat: string, i: nat) {
    i + |pat| <= |s| && s[i..i + |pat|] == pat
  }

  /** std::string::find: the first occurrence at or behind pos. */
  function Find(s: string, pat: string, pos: nat): (r: Option<nat>)
    ensures r.Some? ==> pos <= r.value && r.value + |pat| <= |s| && OccursAt(s, pat, r.value)
    ensures r.Some? ==> forall j :: pos <= j < r.value ==> !OccursAt(s, pat, j)
    ensures r.None? ==> forall j :: pos <= j ==> !OccursAt(s, pat, j)
    decreases |s| - pos
  {
    if pos + |pat| > |s| then None
    else if OccursAt(s, pat, pos) then Some(pos)
    else Find(s, pat, pos + 1)
  }

  /** Leftmost, non-overlapping replacement. */
  function Replaced(s: string, src: string, dst: string): string
    requires src != ""
    decreases |s|
  {
    if s == "" then ""
    else if OccursAt(s, src, 0) then dst + Replaced(s[|src|..], src, dst)
    else [s[0]] + Replaced(s[1..], src, dst)
  }

  /** Up to the first occurrence nothing changes. */
  lemma {:induction false} ReplacedSkips(s: string, src: string, dst: string, n: nat)
    requires src != "" && n <= |s|
    requires forall j :: 0 <= j < n ==> !OccursAt(s, src, j)
    ensures Replaced(s, src, dst) == s[..n] + Replaced(s[n..], src, dst)
    decreases n
  {
    if n == 0 {
      assert s[..0] + Replaced(s[0..], src, dst) == Replaced(s, src, dst);
    } else {
      var t := s[1..];
      assert !OccursAt(s, src, 0);
      forall j | 0 <= j < n - 1
        ensures !OccursAt(t, src, j)
      {
        OccursInTail(s, src, 1, j);
      }
      ReplacedSkips(t, src, dst, n - 1);
      assert t[n - 1..] == s[n..] && s[..n] == [s[0]] + t[..n - 1];
    }
  }

  lemma OccursInTail(s: string, src: string, pos: nat, j: nat)
    requires pos <= |s|
    ensures OccursAt(s[pos..], src, j) <==> OccursAt(s, src, pos + j)
  {
  }

  /** One turn of the loop: copy up to the occurrence, then write dst. */
  lemma ReplacedAt(s: string, src: string, dst: string, pos: nat, i: nat)
    requires src != "" && pos <= i && OccursAt(s, src, i)
    requires forall j :: pos <= j < i ==> !OccursAt(s, src, j)
    ensures Replaced(s[pos..], src, dst) == s[pos..i] + dst + Replaced(s[i + |src|..], src, dst)
  {
    hide Replaced;
    var t := s[pos..];
    forall j | 0 <= j < i - pos
      ensures !OccursAt(t, src, j)
    {
      OccursInTail(s, src, pos, j);
    }
    ReplacedSkips(t, src, dst, i - pos);
    assert t[i - pos..] == s[i..] && t[..i - pos] == s[pos..i];
    OccursInTail(s, src, i, 0);
    ReplacedHere(s[i..], src, dst);
    assert s[i..][|src|..] == s[i + |src|..];
  }

  lemma ReplacedHere(s: string, src: string, dst: string)
    requires src != "" && OccursAt(s, src, 0)
    ensures Replaced(s, src, dst) == dst + Replaced(s[|src|..], src, dst)
  {
  }

  lemma ReplacedNowhere(s: string, src: string, dst: string, pos: nat)
    requires src != "" && pos <= |s|
    requires forall j :: pos <= j ==> !OccursAt(s, src, j)
    ensures Replaced(s[pos..], src, dst) == s[pos..]
  {
    var t := s[pos..];
    forall j | 0 <= j < |t|
      ensures !OccursAt(t, src, j)
    {
      OccursInTail(s, src, pos, j);
    }
    ReplacedSkips(t, src, dst, |t|);
    assert t[|t|..] == "" && t[..|t|] + "" == t;
  }

  /** string_replace with a string pattern. An empty pattern makes the source loop for ever. */
  method StringReplace(strBig: string, strsrc: string, strdst: string) returns (r: string)
    requires strsrc != ""
    ensures r == Replaced(strBig, strsrc, strdst)
  {
    hide Replaced, OccursAt;
    var lastPos, pos := 0, 0;
    var ss := "";
    while true
      invariant pos == lastPos <= |strBig|
      invariant Replaced(strBig, strsrc, strdst) == ss + Replaced(strBig[lastPos..], strsrc, strdst)
      decreases |strBig| - pos
    {
      match Find(strBig, strsrc, pos)
      case None =>
        ReplacedNowhere(strBig, strsrc, strdst, pos);
        break;
      case Some(i) =>
        ReplacedAt(strBig, strsrc, strdst, pos, i);
        ss := ss + strBig[lastPos..i] + strdst;
        pos := i + |strsrc|;
        lastPos := pos;
    }
    r := ss + strBig[lastPos..];
  }

  /** std::string::find of a character. */
  function FindChar(s: string, c: char, pos: nat): (r: Option<nat>)
    ensures r == Find(s, [c], pos)
    ensures r.Some? ==> pos <= r.value < |s| && s[r.value] == c && forall j :: pos <= j < r.value ==> s[j] != c
    ensures r.None? ==> forall j :: pos <= j < |s| ==> s[j] != c
    decreases |s| - pos
  {
    if pos >= |s| then None
    else if s[pos] == c then Some(pos)
    else FindChar(s, c, pos + 1)
  }

  /** string_replace with a character: the one-character string in its place gives the same. */
  method StringReplaceChar(strBig: string, c: char, strdst: string) returns (r: string)
    ensures r == Replaced(strBig, [c], strdst)
  {
    hide Replaced, OccursAt;
    var lastPos, pos := 0, 0;
    var ss := "";
    while true
      invariant pos == lastPos <= |strBig|
      invariant Replaced(strBig, [c], strdst) == ss + Replaced(strBig[lastPos..], [c], strdst)
      decreases |strBig| - pos
    {
      match FindChar(strBig, c, pos)
      case None =>
        ReplacedNowhere(strBig, [c], strdst, pos);
        break;
      case Some(i) =>
        ReplacedAt(strBig, [c], strdst, pos, i);
        ss := ss + strBig[lastPos..i] + strdst;
        pos := i + 1;
        lastPos := pos;
    }
    r := ss + strBig[lastPos..];
  }

  /** fixSqlString: a backslash before every double quote. */
  method FixSqlString(content: string) returns (strOut: string)
    ensures strOut == Replaced(content, "\"", "\\\"")
  {
    hide Replaced;
    strOut := "";
    ReplacedEmpty();
    assert content[0..] == content && "" + Replaced(content, "\"", "\\\"") == Replaced(content, "\"", "\\\"");
    for i := 0 to |content|
      invariant Replaced(content, "\"", "\\\"") == strOut + Replaced(content[i..], "\"", "\\\"")
    {
      ReplacedStep(content[i..]);
      assert content[i..][1..] == content[i + 1..];
      if content[i] == '"' {
        strOut := strOut + "\\";
      }
      strOut := strOut + [content[i]];
    }
    assert content[|content|..] == "";
  }

  lemma ReplacedEmpty()
    ensures Replaced("", "\"", "\\\"") == ""
  {
  }

  lemma ReplacedStep(s: string)
    requires s != ""
    ensures Replaced(s, "\"", "\\\"") == (if s[0] == '"' then "\\\"" else [s[0]]) + Replaced(s[1..], "\"", "\\\"")
  {
  }

  // ----- What replacing means -----

  /** Replacing a pattern by itself changes nothing. */
  lemma {:induction false} ReplacedByItself(s: string, src: string)
    requires src != ""
    ensures Replaced(s, src, src) == s
    decreases |s|
  {
    if s != "" {
      if OccursAt(s, src, 0) {
        ReplacedByItself(s[|src|..], src);
        assert s == s[0..|src|] + s[|src|..];
      } else {
        ReplacedByItself(s[1..], src);
        assert s == [s[0]] + s[1..];
      }
    }
  }

  /** Pieces with `glue` between them. */
  function Glued(pieces: seq<string>, glue: string): string
    requires pieces != []
  {
    if |pieces| == 1 then pieces[0] else pieces[0] + glue + Glued(pieces[1..], glue)
  }

  ghost predicate Absent(s: string, src: string) {
    forall j :: 0 <= j <= |s| ==> !OccursAt(s, src, j)
  }

  /** Between consecutive pieces src begins for the first time, and the last piece is free of it. */
  ghost predicate LeftmostPieces(pieces: seq<string>, src: string)
    requires pieces != []
  {
    && (forall i, j :: 0 <= i < |pieces| - 1 && 0 <= j < |pieces[i]| ==> !OccursAt(pieces[i] + src, src, j))
    && Absent(pieces[|pieces| - 1], src)
  }

  /** The pieces between the occurrences that string_replace finds. */
  function Pieces(s: string, src: string, pos: nat): (p: seq<string>)
    requires src != "" && pos <= |s|
    ensures p != []
    decreases |s| - pos
  {
    match Find(s, src, pos)
    case None => [s[pos..]]
    case Some(i) => [s[pos..i]] + Pieces(s, src, i + |src|)
  }

  /** Replacement as a relation: cut the string where src begins, leftmost first and without
      overlap, and glue the pieces together with dst instead. */
  lemma {:induction false} ReplacedIsGlued(s: string, src: string, dst: string, pos: nat)
    requires src != "" && pos <= |s|
    ensures var p := Pieces(s, src, pos);
            && Glued(p, src) == s[pos..]
            && Glued(p, dst) == Replaced(s[pos..], src, dst)
            && LeftmostPieces(p, src)
    decreases |s| - pos
  {
    hide Replaced, OccursAt, LeftmostPieces, Absent;
    match Find(s, src, pos)
    case None =>
      ReplacedNowhere(s, src, dst, pos);
      LastPiece(s, src, pos);
    case Some(i) =>
      var more := Pieces(s, src, i + |src|);
      ReplacedIsGlued(s, src, dst, i + |src|);
      ReplacedAt(s, src, dst, pos, i);
      assert ([s[pos..i]] + more)[1..] == more;
      AroundOccurrence(s, src, pos, i);
      forall j | 0 <= j < |s[pos..i]|
        ensures !OccursAt(s[pos..i] + src, src, j)
      {
        FirstPiece(s, src, pos, i, j);
      }
      PiecesCons(s[pos..i], more, src);
  }

  /** However a string was cut that way, replacing glues the same pieces with dst. */
  lemma {:induction false} GluedIsReplaced(pieces: seq<string>, src: string, dst: string)
    requires src != "" && pieces != [] && LeftmostPieces(pieces, src)
    ensures Replaced(Glued(pieces, src), src, dst) == Glued(pieces, dst)
    decreases |pieces|
  {
    hide Replaced, OccursAt, Absent;
    var p := pieces[0];
    if |pieces| == 1 {
      AbsentEverywhere(p, src);
      ReplacedNowhere(p, src, dst, 0);
      assert p[0..] == p;
    } else {
      assert LeftmostPieces(pieces[1..], src);
      GluedIsReplaced(pieces[1..], src, dst);
      var rest := Glued(pieces[1..], src);
      var s := p + src + rest;
      forall j | 0 <= j < |p|
        ensures !OccursAt(s, src, j)
      {
        OccursWithin(p, src, rest, j);
      }
      OccursBehind(p, src, rest);
      ReplacedAt(s, src, dst, 0, |p|);
      assert s[0..] == s && s[0..|p|] == p && s[|p| + |src|..] == rest;
    }
  }

  lemma OccursWithin(p: string, src: string, rest: string, j: nat)
    requires j < |p|
    ensures OccursAt(p + src + rest, src, j) <==> OccursAt(p + src, src, j)
  {
  }

  lemma OccursBehind(p: string, src: string, rest: string)
    ensures OccursAt(p + src + rest, src, |p|)
  {
  }

  lemma AbsentEverywhere(s: string, src: string)
    requires Absent(s, src) && src != ""
    ensures forall j :: 0 <= j ==> !OccursAt(s, src, j)
  {
  }

  lemma AroundOccurrence(s: string, src: string, pos: nat, i: nat)
    requires pos <= i && OccursAt(s, src, i)
    ensures s[pos..] == s[pos..i] + src + s[i + |src|..]
  {
  }

  lemma LastPiece(s: string, src: string, pos: nat)
    requires pos <= |s| && forall j :: pos <= j ==> !OccursAt(s, src, j)
    ensures LeftmostPieces([s[pos..]], src)
  {
    hide OccursAt;
    forall j | 0 <= j <= |s[pos..]|
      ensures !OccursAt(s[pos..], src, j)
    {
      OccursInTail(s, src, pos, j);
    }
  }

  lemma FirstPiece(s: string, src: string, pos: nat, i: nat, j: nat)
    requires src != "" && pos <= i && OccursAt(s, src, i) && j < i - pos
    requires !OccursAt(s, src, pos + j)
    ensures !OccursAt(s[pos..i] + src, src, j)
  {
    var t := s[pos..i] + src;
    assert t == s[pos..i + |src|];
    SliceOfSlice(s, pos, i + |src|, j, j + |src|);
  }

  lemma SliceOfSlice(s: string, from: nat, to: nat, j: nat, k: nat)
    requires from <= to <= |s| && j <= k <= to - from
    ensures s[from..to][j..k] == s[from + j..from + k]
  {
    var u := s[from..to];
    assert forall i :: 0 <= i < k - j ==> u[j..k][i] == u[j + i] == s[from + j + i];
  }

  lemma PiecesCons(p: string, more: seq<string>, src: string)
    requires more != [] && LeftmostPieces(more, src)
    requires forall j :: 0 <= j < |p| ==> !OccursAt(p + src, src, j)
    ensures LeftmostPieces([p] + more, src)
  {
  }

  /** fixSqlString loses nothing: replacing \" by " gives the content back. */
  lemma {:induction false} FixSqlIsInvertible(s: string)
    ensures Replaced(Replaced(s, "\"", "\\\""), "\\\"", "\"") == s
    decreases |s|
  {
    if s != "" {
      var t := Replaced(s[1..], "\"", "\\\"");
      ReplacedStep(s);
      FixSqlIsInvertible(s[1..]);
      if s[0] == '"' {
        var u := "\\\"" + t;
        assert u[0..2] == "\\\"" && u[2..] == t;
      } else {
        var u := [s[0]] + t;
        NoQuoteFirst(s[1..]);
        assert u[1..] == t;
        assert |u| >= 2 ==> u[0..2][1] == t[0];
      }
    }
  }

  lemma NoQuoteFirst(s: string)
    ensures var t := Replaced(s, "\"", "\\\""); t != "" ==> t[0] != '"'
  {
  }
}

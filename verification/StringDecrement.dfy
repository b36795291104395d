/** getStringDefOne of strings.cpp, which subtracts one from the number spelled by a string's
    digits, and compareStr of strings.h, the order in which the result is smaller. */
module StringDecrement {
  predicate IsDigit(c: char) {
    '0' <= c <= '9'
  }

  /** The number that the digits of s spell, other characters left out. */
  function Number(s: string): nat
    decreases |s|
  {
    if s == "" then 0
    else
      var n := |s| - 1;
      if IsDigit(s[n]) then Number(s[..n]) * 10 + (s[n] as int - '0' as int) else Number(s[..n])
  }

  predicate HasDigit(s: string) {
    exists i :: 0 <= i < |s| && IsDigit(s[i])
  }

  /** One less: zeros at the end become nines, up to the first other digit. */
  function Lowered(s: string): (r: string)
    requires Number(s) > 0
    ensures |r| == |s|
    decreases |s|
  {
    var n := |s| - 1;
    if !IsDigit(s[n]) then Lowered(s[..n]) + [s[n]]
    else if s[n] == '0' then Lowered(s[..n]) + ['9']
    else s[..n] + [(s[n] as int - 1) as char]
  }

  /** What getStringDefOne returns. */
  function DefOne(s: string): string {
    if !HasDigit(s) then s else if Number(s) == 0 then "" else Lowered(s)
  }

  /** Digits sit where digits sat, and every other character is as it was. */
  predicate SameShape(r: string, s: string) {
    |r| == |s| && forall i :: 0 <= i < |s| ==> if IsDigit(s[i]) then IsDigit(r[i]) else r[i] == s[i]
  }

  /** Lowering subtracts exactly one, and keeps the length and every character that is no digit. */
  lemma {:induction false} LoweredMeaning(s: string)
    requires Number(s) > 0
    ensures Number(Lowered(s)) == Number(s) - 1 && SameShape(Lowered(s), s) && HasDigit(s)
    decreases |s|
  {
    var n := |s| - 1;
    var r := Lowered(s);
    if IsDigit(s[n]) && s[n] != '0' {
      assert r[..n] == s[..n];
    } else {
      LoweredMeaning(s[..n]);
      assert r[..n] == Lowered(s[..n]);
      var i :| 0 <= i < n && IsDigit(s[..n][i]);
      assert IsDigit(s[i]);
    }
  }

  /** Of two strings of one shape that spell the same number, neither differs from the other. */
  lemma {:induction false} ShapeAndNumberDetermine(r: string, s: string, t: string)
    requires SameShape(r, t) && SameShape(s, t) && Number(r) == Number(s)
    ensures r == s
    decreases |t|
  {
    if t != "" {
      var n := |t| - 1;
      if IsDigit(t[n]) {
        var x, y := r[n] as int - '0' as int, s[n] as int - '0' as int;
        assert Number(r) == Number(r[..n]) * 10 + x && Number(s) == Number(s[..n]) * 10 + y;
        assert Number(r) % 10 == x && Number(s) % 10 == y;
      }
      ShapeAndNumberDetermine(r[..n], s[..n], t[..n]);
      assert r == r[..n] + [r[n]] && s == s[..n] + [s[n]];
    }
  }

  /** getStringDefOne: all-zero digits give "", no digits give the input, and otherwise the result
      is the one string of the same shape whose number is one less. */
  lemma DefOneMeaning(s: string)
    ensures !HasDigit(s) ==> DefOne(s) == s
    ensures HasDigit(s) && Number(s) == 0 ==> DefOne(s) == ""
    ensures HasDigit(s) && Number(s) > 0 ==>
              forall r :: r == DefOne(s) <==> SameShape(r, s) && Number(r) == Number(s) - 1
  {
    if HasDigit(s) && Number(s) > 0 {
      LoweredMeaning(s);
      forall r | SameShape(r, s) && Number(r) == Number(s) - 1
        ensures r == DefOne(s)
      {
        ShapeAndNumberDetermine(r, DefOne(s), s);
      }
    }
  }

  // ----- The loop -----

  /** Every digit a nine. */
  function Nines(s: string): (r: string)
    ensures |r| == |s| && forall i :: 0 <= i < |s| ==> r[i] == if IsDigit(s[i]) then '9' else s[i]
  {
    seq(|s|, i requires 0 <= i < |s| => if IsDigit(s[i]) then '9' else s[i])
  }

  predicate ZeroDigits(s: string) {
    forall i :: 0 <= i < |s| && IsDigit(s[i]) ==> s[i] == '0'
  }

  lemma {:induction false} ZeroDigitsNumber(s: string)
    requires ZeroDigits(s)
    ensures Number(s) == 0
    decreases |s|
  {
    if s != "" {
      ZeroDigitsNumber(s[..|s| - 1]);
    }
  }

  /** The first digit from the right that is no zero is lowered, and the zeros behind it are nines. */
  lemma {:induction false} LoweredIs(p: string, d: char, z: string)
    requires IsDigit(d) && d != '0' && ZeroDigits(z)
    ensures Number(p + [d] + z) > 0
    ensures Lowered(p + [d] + z) == p + [(d as int - 1) as char] + Nines(z)
    decreases |z|
  {
    var s := p + [d] + z;
    var n := |s| - 1;
    var e := (d as int - 1) as char;
    if z == "" {
      assert s == p + [d] && s[..n] == p;
      assert p + [e] + Nines(z) == p + [e];
    } else {
      var m := |z| - 1;
      assert s[..n] == p + [d] + z[..m] && s[n] == z[m];
      LoweredIs(p, d, z[..m]);
      assert Nines(z) == Nines(z[..m]) + [if IsDigit(z[m]) then '9' else z[m]];
      assert p + [e] + (Nines(z[..m]) + [Nines(z)[m]]) == p + [e] + Nines(z[..m]) + [Nines(z)[m]];
    }
  }

  /** getStringDefOne: walk from the right, turning zeros into nines, until a digit can be lowered. */
  method GetStringDefOne(inStr: string) returns (r: string)
    ensures r == DefOne(inStr)
  {
    hide Number, Lowered, Nines, HasDigit, ZeroDigits;
    r := inStr;
    var fix := false;
    var i := |inStr| - 1;
    WalkStarts(inStr);
    while i >= 0
      invariant -1 <= i < |inStr|
      invariant r == Walked(inStr, i + 1)
      invariant ZeroDigits(inStr[i + 1..])
      invariant fix <==> HasDigit(inStr[i + 1..])
    {
      WalkStep(inStr, i);
      var tmpK := r[i];
      if IsDigit(tmpK) {
        if tmpK == '0' {
          r := r[i := '9'];
          fix := true;
        } else {
          r := r[i := (tmpK as int - 1) as char];
          return;
        }
      }
      i := i - 1;
    }
    WalkEnds(inStr);
    if fix {
      return "";
    }
  }

  /** The string when everything from `from` on has been walked over. */
  function Walked(s: string, from: nat): (r: string)
    requires from <= |s|
    ensures |r| == |s|
  {
    s[..from] + Nines(s[from..])
  }

  lemma WalkStarts(s: string)
    ensures Walked(s, |s|) == s && ZeroDigits(s[|s|..]) && !HasDigit(s[|s|..])
  {
  }

  /** One character more: it stays, becomes a nine, or is lowered and ends the walk. */
  lemma WalkStep(s: string, i: nat)
    requires i < |s| && ZeroDigits(s[i + 1..])
    ensures var r, d := Walked(s, i + 1), s[i];
            && r[i] == d
            && (HasDigit(s[i..]) <==> IsDigit(d) || HasDigit(s[i + 1..]))
            && if IsDigit(d) && d != '0' then DefOne(s) == r[i := (d as int - 1) as char]
               else ZeroDigits(s[i..]) && Walked(s, i) == if IsDigit(d) then r[i := '9'] else r
  {
    hide Nines, Number, Lowered, ZeroDigits, HasDigit;
    var d, z := s[i], s[i + 1..];
    assert s[i..] == [d] + z && s[..i + 1] == s[..i] + [d];
    NinesCons(d, z);
    if IsDigit(d) && d != '0' {
      assert s == s[..i] + [d] + z;
      LoweredIs(s[..i], d, z);
      LoweredHasDigit(s);
      var e := (d as int - 1) as char;
      assert (s[..i] + [d] + Nines(z))[i := e] == s[..i] + [e] + Nines(z);
    } else if IsDigit(d) {
      assert (s[..i] + [d] + Nines(z))[i := '9'] == s[..i] + (['9'] + Nines(z));
    } else {
      assert s[..i] + [d] + Nines(z) == s[..i] + ([d] + Nines(z));
    }
  }

  lemma LoweredHasDigit(s: string)
    requires Number(s) > 0
    ensures HasDigit(s)
  {
  }

  lemma WalkEnds(s: string)
    requires ZeroDigits(s[0..])
    ensures s[0..] == s && Number(s) == 0 && (!HasDigit(s) ==> Walked(s, 0) == s)
  {
  }

  lemma NinesCons(c: char, s: string)
    ensures Nines([c] + s) == [if IsDigit(c) then '9' else c] + Nines(s)
    ensures HasDigit([c] + s) <==> IsDigit(c) || HasDigit(s)
    ensures ZeroDigits(s) && (IsDigit(c) ==> c == '0') ==> ZeroDigits([c] + s)
  {
    var t := [c] + s;
    assert forall i :: 0 < i < |t| ==> t[i] == s[i - 1];
    assert forall i :: 0 <= i < |s| ==> s[i] == t[i + 1];
    assert t[0] == c;
  }

  // ----- compareStr -----

  /** std::string::compare. */
  function Lexicographic(a: string, b: string): (r: int)
    ensures -1 <= r <= 1
  {
    if a == "" || b == "" then (if a == b then 0 else if a == "" then -1 else 1)
    else if a[0] != b[0] then (if a[0] < b[0] then -1 else 1)
    else Lexicographic(a[1..], b[1..])
  }

  /** Longer strings are larger; strings of one length compare lexicographically. */
  function CompareStr(a: string, b: string): (r: int) {
    if |a| < |b| || (|a| == |b| && Lexicographic(a, b) < 0) then -1
    else if |a| == |b| && Lexicographic(a, b) == 0 then 0
    else 1
  }

  /** At the first difference the smaller character decides. */
  lemma {:induction false} LexicographicMeaning(a: string, b: string, k: nat)
    requires |a| == |b| && k <= |a| && a[..k] == b[..k]
    ensures k == |a| ==> Lexicographic(a, b) == 0
    ensures k < |a| && a[k] != b[k] ==> Lexicographic(a, b) == if a[k] < b[k] then -1 else 1
    decreases |a|
  {
    if k > 0 {
      assert a[0] == a[..k][0] == b[0];
      assert a[1..][..k - 1] == a[..k][1..] && b[1..][..k - 1] == b[..k][1..];
      LexicographicMeaning(a[1..], b[1..], k - 1);
    }
  }

  lemma {:induction false} FirstDifference(a: string, b: string) returns (k: nat)
    requires |a| == |b|
    ensures k <= |a| && a[..k] == b[..k] && (k < |a| ==> a[k] != b[k])
    decreases |a|
  {
    if a == "" || a[0] != b[0] {
      k := 0;
    } else {
      k := FirstDifference(a[1..], b[1..]);
      k := k + 1;
      assert a[..k] == [a[0]] + a[1..][..k - 1] && b[..k] == [b[0]] + b[1..][..k - 1];
    }
  }

  /** A shorter string is smaller, and of two strings of one length the one with the smaller character
      at the first difference. */
  lemma CompareStrMeaning(a: string, b: string)
    ensures CompareStr(a, b) == -1 <==>
              |a| < |b| || (|a| == |b| && exists k :: 0 <= k < |a| && a[..k] == b[..k] && a[k] < b[k])
    ensures CompareStr(a, b) == 0 <==> a == b
    ensures CompareStr(a, b) == 1 <==>
              |a| > |b| || (|a| == |b| && exists k :: 0 <= k < |a| && a[..k] == b[..k] && a[k] > b[k])
  {
    hide Lexicographic;
    if |a| == |b| {
      var d := FirstDifference(a, b);
      LexicographicMeaning(a, b, d);
      assert a[..|a|] == a && b[..|b|] == b;
      forall k | 0 <= k < |a| && a[..k] == b[..k] && a[k] != b[k]
        ensures k == d
      {
        SameDifference(a, b, k, d);
      }
    }
  }

  lemma SameDifference(a: string, b: string, k: nat, d: nat)
    requires |a| == |b| && k < |a| && d <= |a| && a[..k] == b[..k] && a[..d] == b[..d]
    requires a[k] != b[k] && (d < |a| ==> a[d] != b[d])
    ensures k == d
  {
  }

  // ----- compareStr on numerals -----

  /** Digits without a leading zero. */
  predicate IsNumeral(s: string) {
    && s != "" && (forall i :: 0 <= i < |s| ==> '0' <= s[i] <= '9')
    && (|s| > 1 ==> s[0] != '0')
  }

  function Pow10(n: nat): (r: nat)
    ensures r > 0
  {
    if n == 0 then 1 else 10 * Pow10(n - 1)
  }

  lemma {:induction false} Pow10Monotonic(m: nat, n: nat)
    requires m <= n
    ensures Pow10(m) <= Pow10(n)
    decreases n
  {
    if m < n {
      Pow10Monotonic(m, n - 1);
    }
  }

  /** n digits spell less than 10^n, and 10^(n - 1) or more if the first is no zero. */
  lemma {:induction false} NumberBounds(s: string)
    requires s != "" && forall i :: 0 <= i < |s| ==> '0' <= s[i] <= '9'
    ensures Number(s) < Pow10(|s|)
    ensures s[0] != '0' ==> Number(s) >= Pow10(|s| - 1)
    decreases |s|
  {
    var n := |s| - 1;
    if n == 0 {
      assert Number(s[..0]) == 0;
    } else {
      NumberBounds(s[..n]);
    }
  }

  /** Of two digit strings of one length, the first difference decides which spells less. */
  lemma {:induction false} NumberOrder(a: string, b: string, k: nat)
    requires |a| == |b| && k < |a| && a[..k] == b[..k] && a[k] < b[k]
    requires forall i :: 0 <= i < |a| ==> '0' <= a[i] <= '9' && '0' <= b[i] <= '9'
    ensures Number(a) < Number(b)
    decreases |a|
  {
    var n := |a| - 1;
    if k < n {
      assert a[..n][..k] == a[..k] && b[..n][..k] == b[..k];
      NumberOrder(a[..n], b[..n], k);
    }
  }

  lemma CompareStrBelow(a: string, b: string)
    requires IsNumeral(a) && IsNumeral(b) && CompareStr(a, b) == -1
    ensures Number(a) < Number(b)
  {
    hide Number, CompareStr;
    CompareStrMeaning(a, b);
    if |a| < |b| {
      NumberBounds(a);
      NumberBounds(b);
      Pow10Monotonic(|a|, |b| - 1);
    } else {
      var k :| 0 <= k < |a| && a[..k] == b[..k] && a[k] < b[k];
      NumberOrder(a, b, k);
    }
  }

  /** What the order is for: on numerals it is the order of the numbers. */
  lemma CompareStrIsNumeric(a: string, b: string)
    requires IsNumeral(a) && IsNumeral(b)
    ensures CompareStr(a, b) < 0 <==> Number(a) < Number(b)
    ensures CompareStr(a, b) == 0 <==> Number(a) == Number(b)
    ensures CompareStr(a, b) > 0 <==> Number(a) > Number(b)
  {
    hide Number, IsNumeral, Lexicographic;
    CompareStrOrder(a, b, a);
    if CompareStr(a, b) < 0 {
      CompareStrBelow(a, b);
    } else if CompareStr(a, b) > 0 {
      CompareStrBelow(b, a);
    }
  }

  lemma {:induction false} LexicographicOrder(a: string, b: string, c: string)
    requires |a| == |b| == |c|
    ensures Lexicographic(a, b) == 0 <==> a == b
    ensures Lexicographic(b, a) == -Lexicographic(a, b)
    ensures Lexicographic(a, b) <= 0 && Lexicographic(b, c) <= 0 ==> Lexicographic(a, c) <= 0
    decreases |a|
  {
    if a != "" {
      LexicographicOrder(a[1..], b[1..], c[1..]);
      assert a == [a[0]] + a[1..] && b == [b[0]] + b[1..];
    }
  }

  /** compareStr is a total order. */
  lemma CompareStrOrder(a: string, b: string, c: string)
    ensures CompareStr(a, b) == 0 <==> a == b
    ensures CompareStr(b, a) == -CompareStr(a, b)
    ensures CompareStr(a, b) <= 0 && CompareStr(b, c) <= 0 ==> CompareStr(a, c) <= 0
  {
    if |a| == |b| {
      LexicographicOrder(a, b, if |c| == |b| then c else a);
      if |b| == |c| {
        LexicographicOrder(b, c, a);
        LexicographicOrder(a, c, b);
      }
    }
  }

  /** A decremented string is strictly smaller. */
  lemma {:induction false} LoweredIsSmaller(s: string) returns (k: nat)
    requires Number(s) > 0
    ensures k < |s| && Lowered(s)[..k] == s[..k] && Lowered(s)[k] < s[k]
    ensures CompareStr(Lowered(s), s) == -1
    decreases |s|
  {
    var n := |s| - 1;
    var r := Lowered(s);
    if IsDigit(s[n]) && s[n] != '0' {
      k := n;
    } else {
      k := LoweredIsSmaller(s[..n]);
      assert r[..n] == Lowered(s[..n]);
      assert r[..k] == r[..n][..k] && s[..k] == s[..n][..k];
    }
    LexicographicMeaning(r, s, k);
  }

  /** Repeated calls. */
  function Iterated(s: string, k: nat): string
    decreases k
  {
    if k == 0 then s else DefOne(Iterated(s, k - 1))
  }

  /** From a string whose digits spell D: after k <= D calls the digits spell D - k and the string
      has become smaller with each, and call D + 1 gives "". */
  lemma {:induction false} CountsDown(s: string, k: nat)
    requires HasDigit(s) && k <= Number(s)
    ensures var t := Iterated(s, k);
            && SameShape(t, s) && HasDigit(t) && Number(t) == Number(s) - k
            && (k > 0 ==> CompareStr(t, Iterated(s, k - 1)) == -1)
            && (k == Number(s) ==> Iterated(s, k + 1) == "")
    decreases k
  {
    hide DefOne, Number, HasDigit, CompareStr, SameShape;
    if k == 0 {
      SameShapeTransitive(s, s, s);
    } else {
      CountsDown(s, k - 1);
      DefOneStep(Iterated(s, k - 1));
      SameShapeTransitive(Iterated(s, k), Iterated(s, k - 1), s);
    }
    DefOneStep(Iterated(s, k));
  }

  lemma DefOneStep(u: string)
    requires HasDigit(u)
    ensures var r := DefOne(u);
            if Number(u) == 0 then r == ""
            else SameShape(r, u) && HasDigit(r) && Number(r) == Number(u) - 1 && CompareStr(r, u) == -1
  {
    hide CompareStr;
    if Number(u) > 0 {
      LoweredMeaning(u);
      var i := LoweredIsSmaller(u);
      SameShapeHasDigit(Lowered(u), u);
    }
  }

  lemma SameShapeTransitive(r: string, s: string, t: string)
    ensures SameShape(s, s)
    ensures SameShape(r, s) && SameShape(s, t) ==> SameShape(r, t)
  {
  }

  lemma SameShapeHasDigit(r: string, s: string)
    requires SameShape(r, s) && HasDigit(s)
    ensures HasDigit(r)
  {
  }
}

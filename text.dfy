/**
 * The few Python string operations the traffic monitor relies on:
 * `str.isspace`, `str.strip()`, `str.split()`, `str(int)` and `int(token)`.
 *
 * Modelling assumption: `int()` accepts an optional `+` or `-` followed by
 * one or more ASCII digits. Python's `int()` also accepts `_` between digits
 * and non-ASCII decimal digits; those spellings are not modelled.
 */
module Text {
  import opened Wrappers

  /** Python's `str.isspace()` for a single code point. */
  predicate IsSpace(c: char) {
    var k := c as int;
    (9 <= k <= 13) || (28 <= k <= 32) || k == 0x85 || k == 0xA0 || k == 0x1680
    || (0x2000 <= k <= 0x200A) || k == 0x2028 || k == 0x2029 || k == 0x202F
    || k == 0x205F || k == 0x3000
  }

  predicate IsDigit(c: char) {
    '0' <= c <= '9'
  }

  /** A token as `str.split()` produces it: non-empty and free of whitespace. */
  predicate IsWord(w: string) {
    |w| > 0 && forall i :: 0 <= i < |w| ==> !IsSpace(w[i])
  }

  predicate IsDigits(s: string) {
    |s| > 0 && forall i :: 0 <= i < |s| ==> IsDigit(s[i])
  }

  // ---------------------------------------------------------------------
  // strip

  /** Drops leading whitespace. */
  function TrimStart(s: string): (t: string)
    ensures |t| <= |s|
    ensures t == [] || !IsSpace(t[0])
  {
    if s != [] && IsSpace(s[0]) then TrimStart(s[1..]) else s
  }

  /** Drops trailing whitespace. */
  function TrimEnd(s: string): (t: string)
    ensures |t| <= |s|
    ensures t == [] || !IsSpace(t[|t| - 1])
  {
    if s != [] && IsSpace(s[|s| - 1]) then TrimEnd(s[..|s| - 1]) else s
  }

  /** `s.strip()`. */
  function Strip(s: string): string
  {
    TrimEnd(TrimStart(s))
  }

  /** `TrimStart` removes a prefix made of whitespace only. */
  lemma {:induction false} TrimStartDropsSpaces(s: string)
    ensures var t := TrimStart(s);
      t == s[|s| - |t|..] && forall i :: 0 <= i < |s| - |t| ==> IsSpace(s[i])
    decreases |s|
  {
    if s != [] && IsSpace(s[0]) {
      TrimStartDropsSpaces(s[1..]);
      var t := TrimStart(s[1..]);
      assert forall i :: 1 <= i < |s| - |t| ==> s[i] == s[1..][i - 1];
    }
  }

  /** `TrimEnd` removes a suffix made of whitespace only. */
  lemma {:induction false} TrimEndDropsSpaces(s: string)
    ensures var t := TrimEnd(s);
      t == s[..|t|] && forall i :: |t| <= i < |s| ==> IsSpace(s[i])
    decreases |s|
  {
    if s != [] && IsSpace(s[|s| - 1]) {
      TrimEndDropsSpaces(s[..|s| - 1]);
    }
  }

  /** `s.strip()` is a slice of `s`. */
  lemma StripIsSlice(s: string)
    ensures var t := Strip(s); var a := |s| - |TrimStart(s)|;
      a + |t| <= |s| && t == s[a..a + |t|]
  {
    var u := TrimStart(s);
    var t := TrimEnd(u);
    var a := |s| - |u|;
    TrimStartDropsSpaces(s);
    TrimEndDropsSpaces(u);
    assert u == s[a..] && t == u[..|t|];
  }

  /** `s.strip()` neither starts nor ends with whitespace. */
  lemma StripIsTrimmed(s: string)
    ensures var t := Strip(s); t == [] || (!IsSpace(t[0]) && !IsSpace(t[|t| - 1]))
  {
    var u := TrimStart(s);
    var t := TrimEnd(u);
    TrimEndDropsSpaces(u);
    if t != [] {
      assert t[0] == u[0];
    }
  }

  /** Everything `s.strip()` cuts off, on either side, is whitespace. */
  lemma StripCutsOnlySpace(s: string)
    ensures var t := Strip(s); var a := |s| - |TrimStart(s)|;
      (forall i :: 0 <= i < a ==> IsSpace(s[i])) &&
      (forall i :: a + |t| <= i < |s| ==> IsSpace(s[i]))
  {
    var u := TrimStart(s);
    var t := TrimEnd(u);
    var a := |s| - |u|;
    TrimStartDropsSpaces(s);
    TrimEndDropsSpaces(u);
    forall i | a + |t| <= i < |s|
      ensures IsSpace(s[i])
    {
      assert s[i] == u[i - a];
    }
  }

  /** Stripping a line that is already trimmed, followed by a line terminator
      or any other trailing whitespace, gives the line back. */
  lemma StripPadded(s: string, pad: string)
    requires s == [] || (!IsSpace(s[0]) && !IsSpace(s[|s| - 1]))
    requires forall i :: 0 <= i < |pad| ==> IsSpace(pad[i])
    ensures Strip(s + pad) == s
  {
    if s == [] {
      StripAllSpace(pad);
      assert s + pad == pad;
    } else {
      assert TrimStart(s + pad) == s + pad;
      TrimEndPadded(s, pad);
    }
  }

  lemma {:induction false} TrimEndPadded(s: string, pad: string)
    requires s != [] && !IsSpace(s[|s| - 1])
    requires forall i :: 0 <= i < |pad| ==> IsSpace(pad[i])
    ensures TrimEnd(s + pad) == s
    decreases |pad|
  {
    if pad == [] {
      assert s + pad == s;
    } else {
      var p := pad[..|pad| - 1];
      assert (s + pad)[..|s + pad| - 1] == s + p;
      TrimEndPadded(s, p);
    }
  }

  lemma {:induction false} StripAllSpace(pad: string)
    requires forall i :: 0 <= i < |pad| ==> IsSpace(pad[i])
    ensures Strip(pad) == []
    decreases |pad|
  {
    if pad != [] {
      StripAllSpace(pad[1..]);
    }
  }

  // ---------------------------------------------------------------------
  // split

  /** The longest prefix of `s` that holds no whitespace. */
  function TakeWord(s: string): (w: string)
    ensures |w| <= |s|
    ensures s != [] && !IsSpace(s[0]) ==> |w| > 0
  {
    if s == [] || IsSpace(s[0]) then [] else [s[0]] + TakeWord(s[1..])
  }

  /** `s.split()`: the maximal runs of non-whitespace characters, in order. */
  function Split(s: string): seq<string>
    decreases |s|
  {
    var t := TrimStart(s);
    if t == [] then []
    else
      var w := TakeWord(t);
      [w] + Split(t[|w|..])
  }

  /** The words joined by single spaces, as `" ".join(ws)` does. */
  function Join(ws: seq<string>): string
  {
    if |ws| == 0 then ""
    else if |ws| == 1 then ws[0]
    else ws[0] + " " + Join(ws[1..])
  }

  /** Every element is a word. */
  predicate AllWords(ws: seq<string>) {
    ws == [] || (IsWord(ws[0]) && AllWords(ws[1..]))
  }

  /** Joined words start with the first word and do not end in whitespace. */
  lemma {:induction false} JoinStartsWithWord(ws: seq<string>)
    requires |ws| > 0 && AllWords(ws)
    ensures ws[0] <= Join(ws)
    ensures !IsSpace(Join(ws)[|Join(ws)| - 1])
  {
    if |ws| > 1 {
      JoinStartsWithWord(ws[1..]);
      assert Join(ws) == ws[0] + (" " + Join(ws[1..]));
    }
  }

  lemma {:induction false} TakeWordBeforeSpace(w: string, rest: string)
    requires forall i :: 0 <= i < |w| ==> !IsSpace(w[i])
    requires rest == [] || IsSpace(rest[0])
    ensures TakeWord(w + rest) == w
    decreases |w|
  {
    if w == [] {
      assert w + rest == rest;
    } else {
      assert (w + rest)[1..] == w[1..] + rest;
      TakeWordBeforeSpace(w[1..], rest);
    }
  }

  /** Nothing to split gives no words. */
  lemma SplitEmpty()
    ensures Split("") == []
  {
  }

  /** Leading whitespace of any kind is skipped. */
  lemma SplitAfterSpace(c: char, t: string)
    requires IsSpace(c)
    ensures Split([c] + t) == Split(t)
  {
    assert ([c] + t)[1..] == t;
    assert TrimStart([c] + t) == TrimStart(t);
  }

  lemma SplitAfterWord(w: string, rest: string)
    requires IsWord(w)
    requires rest == [] || IsSpace(rest[0])
    ensures Split(w + rest) == [w] + Split(rest)
  {
    var s := w + rest;
    assert s[0] == w[0];
    assert TrimStart(s) == s;
    TakeWordBeforeSpace(w, rest);
    assert s[|w|..] == rest;
  }

  lemma SplitJoinCons(ws: seq<string>)
    requires |ws| > 1 && IsWord(ws[0]) && AllWords(ws[1..])
    ensures Split(Join(ws)) == [ws[0]] + Split(Join(ws[1..]))
  {
    var w, tail := ws[0], Join(ws[1..]);
    assert Join(ws) == w + (" " + tail);
    SplitAfterWord(w, " " + tail);
    SplitAfterSpace(' ', tail);
  }

  /** Splitting what `Join` produced gives the words back. */
  lemma {:induction false} SplitJoin(ws: seq<string>)
    requires AllWords(ws)
    ensures Split(Join(ws)) == ws
  {
    if |ws| == 1 {
      SplitAfterWord(ws[0], []);
      assert ws[0] + [] == ws[0];
    } else if |ws| > 1 {
      SplitJoinCons(ws);
      SplitJoin(ws[1..]);
      assert ws == [ws[0]] + ws[1..];
    }
  }

  /** The first word of a string not starting with whitespace ends at
      whitespace or at the end. */
  lemma {:induction false} TakeWordStopsAtSpace(s: string)
    ensures TakeWord(s) <= s
    ensures var w := TakeWord(s); |w| == |s| || IsSpace(s[|w|])
    decreases |s|
  {
    if s != [] && !IsSpace(s[0]) {
      TakeWordStopsAtSpace(s[1..]);
    }
  }

  /** `SplitEmpty`, `SplitAfterSpace` and `SplitAfterWord` determine
      `split()` on every string: any function that satisfies the three of
      them is `Split`. */
  lemma {:induction false} SplitDetermined(f: string -> seq<string>, s: string)
    requires f("") == []
    requires forall c: char, t: string :: IsSpace(c) ==> f([c] + t) == f(t)
    requires forall w: string, rest: string :: IsWord(w) && (rest == [] || IsSpace(rest[0])) ==>
               f(w + rest) == [w] + f(rest)
    ensures f(s) == Split(s)
    decreases |s|
  {
    if s == [] {
      SplitEmpty();
    } else if IsSpace(s[0]) {
      assert s == [s[0]] + s[1..];
      SplitAfterSpace(s[0], s[1..]);
      SplitDetermined(f, s[1..]);
    } else {
      var w := TakeWord(s);
      TakeWordHasNoSpace(s);
      TakeWordStopsAtSpace(s);
      var rest := s[|w|..];
      assert s == w + rest;
      SplitAfterWord(w, rest);
      SplitDetermined(f, rest);
    }
  }

  /** Every character `TakeWord` keeps is not whitespace. */
  lemma {:induction false} TakeWordHasNoSpace(s: string)
    ensures forall i :: 0 <= i < |TakeWord(s)| ==> !IsSpace(TakeWord(s)[i])
    decreases |s|
  {
    if s != [] && !IsSpace(s[0]) {
      TakeWordHasNoSpace(s[1..]);
      var w := TakeWord(s[1..]);
      assert forall i :: 1 <= i < |w| + 1 ==> ([s[0]] + w)[i] == w[i - 1];
    }
  }

  /** A run of non-whitespace at the start of `s` is the start of its
      first word. */
  lemma {:induction false} TakeWordKeepsPrefix(p: string, s: string)
    requires forall i :: 0 <= i < |p| ==> !IsSpace(p[i])
    requires p <= s
    ensures p <= TakeWord(s)
    decreases |p|
  {
    if p != [] {
      assert s[0] == p[0];
      TakeWordKeepsPrefix(p[1..], s[1..]);
      assert TakeWord(s) == [s[0]] + TakeWord(s[1..]);
    }
  }

  /** A string that starts with a non-whitespace character splits into its
      first word followed by the rest. */
  lemma SplitFirstWord(s: string)
    requires s != [] && !IsSpace(s[0])
    ensures Split(s) != [] && Split(s)[0] == TakeWord(s)
  {
    assert TrimStart(s) == s;
  }

  /** `split()` yields words only. */
  lemma {:induction false} SplitIsWords(s: string)
    ensures AllWords(Split(s))
    decreases |s|
  {
    var t := TrimStart(s);
    if t != [] {
      var w := TakeWord(t);
      TakeWordHasNoSpace(t);
      SplitIsWords(t[|w|..]);
      var ws := Split(s);
      assert ws[0] == w && ws[1..] == Split(t[|w|..]);
    }
  }

  // ---------------------------------------------------------------------
  // str(int) and int(token)

  function DigitChar(d: int): (c: char)
    requires 0 <= d < 10
    ensures IsDigit(c) && c as int - '0' as int == d
  {
    ('0' as int + d) as char
  }

  /** `str(n)` for a non-negative integer: its decimal digits. */
  function ShowNat(n: nat): (s: string)
    ensures IsDigits(s)
  {
    if n < 10 then [DigitChar(n)] else ShowNat(n / 10) + [DigitChar(n % 10)]
  }

  /** `str(i)`: a minus sign for negative values, then the digits. */
  function ShowInt(i: int): (s: string)
    ensures IsWord(s)
  {
    if i < 0 then "-" + ShowNat(-i) else ShowNat(i)
  }

  /** The value of a string of decimal digits, most significant first. */
  function DigitsValue(s: string): nat
    requires forall i :: 0 <= i < |s| ==> IsDigit(s[i])
  {
    if s == [] then 0
    else
      assert IsDigit(s[|s| - 1]);
      10 * DigitsValue(s[..|s| - 1]) + (s[|s| - 1] as int - '0' as int)
  }

  /** `int(token)`: None where Python raises ValueError. */
  function ParseInt(t: string): (r: Option<int>)
    ensures r.Some? <==> IsDigits(t) || (|t| > 1 && (t[0] == '+' || t[0] == '-') && IsDigits(t[1..]))
    ensures IsDigits(t) ==> r == Some(DigitsValue(t) as int)
    ensures |t| > 1 && t[0] == '+' && IsDigits(t[1..]) ==> r == Some(DigitsValue(t[1..]) as int)
    ensures |t| > 1 && t[0] == '-' && IsDigits(t[1..]) ==> r == Some(-(DigitsValue(t[1..]) as int))
    ensures r.Some? ==> |t| > 0 && forall i :: 0 < i < |t| ==> IsDigit(t[i])
    ensures r.Some? && r.value < 0 ==> t[0] == '-'
    ensures IsDigits(t) ==> r.Some? && r.value >= 0
  {
    if |t| > 0 && (t[0] == '+' || t[0] == '-') then
      if IsDigits(t[1..]) then
        var v: int := DigitsValue(t[1..]);
        Some(if t[0] == '-' then -v else v)
      else None
    else if IsDigits(t) then Some(DigitsValue(t))
    else None
  }

  lemma {:induction false} DigitsValueShowNat(n: nat)
    ensures DigitsValue(ShowNat(n)) == n
  {
    if n >= 10 {
      var s := ShowNat(n / 10) + [DigitChar(n % 10)];
      assert s[..|s| - 1] == ShowNat(n / 10);
      DigitsValueShowNat(n / 10);
    }
  }

  lemma ParseDigits(d: string)
    requires IsDigits(d)
    ensures ParseInt(d) == Some(DigitsValue(d) as int)
  {
    assert IsDigit(d[0]);
  }

  lemma ParseMinusDigits(d: string)
    requires IsDigits(d)
    ensures ParseInt("-" + d) == Some(-(DigitsValue(d) as int))
  {
    var t := "-" + d;
    assert t[0] == '-' && t[1..] == d;
  }

  /** `int(str(i)) == i`. */
  lemma ParseShowInt(i: int)
    ensures ParseInt(ShowInt(i)) == Some(i)
  {
    if i < 0 {
      ParseMinusDigits(ShowNat(-i));
      DigitsValueShowNat(-i);
    } else {
      ParseDigits(ShowNat(i));
      DigitsValueShowNat(i);
    }
  }

  /** `list(map(int, tokens))`: None as soon as one token raises ValueError. */
  function ParseAll(ts: seq<string>): (r: Option<seq<int>>)
    ensures r.Some? <==> forall i :: 0 <= i < |ts| ==> ParseInt(ts[i]).Some?
    ensures r.Some? ==>
      |r.value| == |ts| && forall i :: 0 <= i < |ts| ==> ParseInt(ts[i]) == Some(r.value[i])
  {
    if ts == [] then Some([])
    else
      match ParseInt(ts[0])
      case None => None
      case Some(v) =>
        match ParseAll(ts[1..])
        case None => None
        case Some(vs) => Some([v] + vs)
  }
}

/** String helpers shared by the JavaScript and Python parts of the model:
    single-character splitting and joining, whitespace stripping, word
    splitting, ASCII lower-casing, substring search and decimal numerals. */
module Text {

  // ---------------------------------------------------------------------
  // Splitting on one separator character (`s.split(c)` in both languages)
  // ---------------------------------------------------------------------

  /** The pieces of `s` between occurrences of `c`; there is always at least one. */
  function Split(s: string, c: char): (parts: seq<string>)
    ensures |parts| >= 1
    ensures forall i :: 0 <= i < |parts| ==> c !in parts[i]
  {
    if |s| == 0 then [""]
    else
      var rest := Split(s[1..], c);
      if s[0] == c then [""] + rest
      else [[s[0]] + rest[0]] + rest[1..]
  }

  /** The pieces glued back together with `c` between neighbours. */
  function Join(parts: seq<string>, c: char): string
    requires |parts| >= 1
  {
    if |parts| == 1 then parts[0] else parts[0] + [c] + Join(parts[1..], c)
  }

  /** Joining the pieces of a split gives back the original string. */
  lemma {:induction false} JoinSplit(s: string, c: char)
    ensures Join(Split(s, c), c) == s
  {
    if |s| > 0 {
      JoinSplit(s[1..], c);
      var rest := Split(s[1..], c);
      if s[0] != c {
        if |rest| > 1 {
          assert ([[s[0]] + rest[0]] + rest[1..])[1..] == rest[1..];
        }
      } else {
        assert ([""] + rest)[1..] == rest;
      }
    }
  }

  lemma {:induction false} SplitSeparatorFree(a: string, rest: string, c: char)
    requires c !in a
    ensures Split(a + rest, c) == [a + Split(rest, c)[0]] + Split(rest, c)[1..]
  {
    if |a| > 0 {
      assert (a + rest)[1..] == a[1..] + rest;
      SplitSeparatorFree(a[1..], rest, c);
      assert [a[0]] + (a[1..] + Split(rest, c)[0]) == a + Split(rest, c)[0];
    } else {
      assert a + rest == rest;
      var p := Split(rest, c);
      assert a + p[0] == p[0];
      assert p == [p[0]] + p[1..];
    }
  }

  /** Splitting a joined list of separator-free pieces recovers the pieces. */
  lemma {:induction false} SplitJoin(parts: seq<string>, c: char)
    requires |parts| >= 1
    requires forall i :: 0 <= i < |parts| ==> c !in parts[i]
    ensures Split(Join(parts, c), c) == parts
  {
    if |parts| == 1 {
      SplitSeparatorFree(parts[0], "", c);
      assert parts[0] + "" == parts[0];
    } else {
      var tail := Join(parts[1..], c);
      SplitJoin(parts[1..], c);
      assert parts[0] + [c] + tail == parts[0] + ([c] + tail);
      SplitSeparatorFree(parts[0], [c] + tail, c);
      assert ([c] + tail)[1..] == tail;
      assert Split([c] + tail, c) == [""] + parts[1..];
      assert parts[0] + "" == parts[0];
      assert parts == [parts[0]] + parts[1..];
    }
  }

  // ---------------------------------------------------------------------
  // Whitespace
  // ---------------------------------------------------------------------

  /** Characters removed by JavaScript's `String.prototype.trim`. */
  predicate IsJsSpace(c: char) {
    var k := c as int;
    k == 0x20 || 0x09 <= k <= 0x0D || k == 0xA0 || k == 0x1680 || 0x2000 <= k <= 0x200A
    || k == 0x2028 || k == 0x2029 || k == 0x202F || k == 0x205F || k == 0x3000 || k == 0xFEFF
  }

  /** Characters for which Python's `str.isspace` holds (used by `strip` and `split`). */
  predicate IsPySpace(c: char) {
    var k := c as int;
    k == 0x20 || 0x09 <= k <= 0x0D || 0x1C <= k <= 0x1F || k == 0x85 || k == 0xA0 || k == 0x1680
    || 0x2000 <= k <= 0x200A || k == 0x2028 || k == 0x2029 || k == 0x202F || k == 0x205F || k == 0x3000
  }

  predicate AllSpace(s: string, ws: char -> bool) {
    forall i :: 0 <= i < |s| ==> ws(s[i])
  }

  /** `s` without its leading whitespace. */
  function TrimStart(s: string, ws: char -> bool): (r: string)
    ensures |r| <= |s| && r == s[|s| - |r|..]
    ensures AllSpace(s[..|s| - |r|], ws)
    ensures |r| == 0 || !ws(r[0])
  {
    if |s| > 0 && ws(s[0]) then TrimStart(s[1..], ws) else s
  }

  /** `s` without its trailing whitespace. */
  function TrimEnd(s: string, ws: char -> bool): (r: string)
    ensures |r| <= |s| && r == s[..|r|]
    ensures AllSpace(s[|r|..], ws)
    ensures |r| == 0 || !ws(r[|r| - 1])
  {
    if |s| > 0 && ws(s[|s| - 1]) then TrimEnd(s[..|s| - 1], ws) else s
  }

  /** Python's `strip()`: whitespace removed from both ends. `StripIsTrim`
      shows it is `TrimStart` followed by `TrimEnd`. */
  function Strip(s: string): string
    decreases |s|
  {
    if |s| > 0 && IsPySpace(s[0]) then Strip(s[1..])
    else if |s| > 0 && IsPySpace(s[|s| - 1]) then Strip(s[..|s| - 1])
    else s
  }

  lemma {:induction false} StripIsTrim(s: string)
    ensures Strip(s) == TrimEnd(TrimStart(s, IsPySpace), IsPySpace)
    decreases |s|
  {
    if |s| > 0 && IsPySpace(s[0]) {
      StripIsTrim(s[1..]);
    } else if |s| > 0 && IsPySpace(s[|s| - 1]) {
      StripIsTrim(s[..|s| - 1]);
      assert |s| >= 2;
      assert s[..|s| - 1][0] == s[0];
    }
  }

  /** Stripping leaves nothing exactly when the text is all whitespace. */
  lemma {:induction false} StripEmpty(s: string)
    ensures |Strip(s)| == 0 <==> AllSpace(s, IsPySpace)
    decreases |s|
  {
    if |s| > 0 && IsPySpace(s[0]) {
      StripEmpty(s[1..]);
      assert forall i :: 1 <= i < |s| ==> s[i] == s[1..][i - 1];
    } else if |s| > 0 && IsPySpace(s[|s| - 1]) {
      StripEmpty(s[..|s| - 1]);
      assert s[..|s| - 1][0] == s[0];
    }
  }

  /** Python's `s.split()`: the maximal runs of non-whitespace characters. */
  function Words(s: string): (w: seq<string>)
    ensures forall i :: 0 <= i < |w| ==> |w[i]| > 0
    ensures forall i, j :: 0 <= i < |w| && 0 <= j < |w[i]| ==> !IsPySpace(w[i][j])
    ensures |w| == 0 <==> AllSpace(s, IsPySpace)
    ensures |s| > 0 && !IsPySpace(s[0]) ==> |w| > 0 && w[0][0] == s[0]
  {
    if |s| == 0 then []
    else
      var rest := Words(s[1..]);
      assert AllSpace(s, IsPySpace) <==> IsPySpace(s[0]) && AllSpace(s[1..], IsPySpace) by {
        assert forall i :: 1 <= i < |s| ==> s[i] == s[1..][i - 1];
      }
      if IsPySpace(s[0]) then rest
      else if |s| > 1 && !IsPySpace(s[1]) then [[s[0]] + rest[0]] + rest[1..]
      else [[s[0]]] + rest
  }

  // ---------------------------------------------------------------------
  // Case and substrings
  // ---------------------------------------------------------------------

  function LowerChar(c: char): char {
    if 'A' <= c <= 'Z' then (c as int + 32) as char else c
  }

  /** `toLowerCase()` / `lower()`, restricted to the ASCII letters. */
  function Lower(s: string): (r: string)
    ensures |r| == |s|
    ensures forall i :: 0 <= i < |s| ==> r[i] == LowerChar(s[i])
  {
    if |s| == 0 then "" else [LowerChar(s[0])] + Lower(s[1..])
  }

  /** `s.includes(sub)`: `sub` occurs somewhere in `s`. */
  predicate Occurs(sub: string, s: string) {
    exists i | 0 <= i <= |s| :: OccursAt(sub, s, i)
  }

  predicate OccursAt(sub: string, s: string, i: int) {
    0 <= i <= |s| - |sub| && s[i..i + |sub|] == sub
  }

  // ---------------------------------------------------------------------
  // Decimal numerals
  // ---------------------------------------------------------------------

  predicate IsDigit(c: char) { '0' <= c <= '9' }

  function DigitChar(d: int): char
    requires 0 <= d < 10
  {
    ('0' as int + d) as char
  }

  predicate AllDigits(s: string) {
    forall i :: 0 <= i < |s| ==> IsDigit(s[i])
  }

  /** The value of a string of decimal digits. */
  function DigitsValue(s: string): nat
    requires AllDigits(s)
  {
    if |s| == 0 then 0
    else DigitsValue(s[..|s| - 1]) * 10 + (s[|s| - 1] as int - '0' as int)
  }

  /** Python's `str(n)` / JavaScript's `${n}` for a natural number. */
  function NatToString(n: nat): (s: string)
    ensures |s| > 0 && AllDigits(s)
    ensures DigitsValue(s) == n
  {
    if n < 10 then [DigitChar(n)]
    else
      var s := NatToString(n / 10) + [DigitChar(n % 10)];
      assert s[..|s| - 1] == NatToString(n / 10);
      s
  }

  /** Python's `str(i)` for an integer: a minus sign for negatives. */
  function IntToString(i: int): (s: string)
    ensures |s| > 0
    ensures forall k :: 0 <= k < |s| ==> IsDigit(s[k]) || s[k] == '-'
  {
    if i < 0 then "-" + NatToString(-i) else NatToString(i)
  }

  /** Python's `int(s)` for strings: optional surrounding whitespace, an
      optional sign and at least one ASCII decimal digit; anything else
      raises. Underscores between digits and non-ASCII digits are not read. */
  function PyParseInt(s: string): (r: Option<int>)
    ensures r.Some? ==> |Strip(s)| > 0
  {
    ParseSigned(Strip(s))
  }

  /** The sign-and-digits part of `int(s)`, on already stripped text. */
  function ParseSigned(t: string): (r: Option<int>)
    ensures r.Some? ==> |t| > 0
  {
    if |t| > 0 && (t[0] == '-' || t[0] == '+') then
      (if |t| > 1 && AllDigits(t[1..]) then
        Some(if t[0] == '-' then -(DigitsValue(t[1..]) as int) else DigitsValue(t[1..]))
      else None)
    else if |t| > 0 && AllDigits(t) then Some(DigitsValue(t))
    else None
  }

  /** `int(str(i)) == i`. */
  lemma IntStringRoundTrip(i: int)
    ensures PyParseInt(IntToString(i)) == Some(i)
  {
    if i < 0 {
      ParseNegativeNumeral(NatToString(-i));
    } else {
      ParseNumeral(NatToString(i));
    }
  }

  lemma ParseNumeral(n: string)
    requires |n| > 0 && AllDigits(n)
    ensures PyParseInt(n) == Some(DigitsValue(n) as int)
  {
    TrimNumeral(n);
    ParseSignedDigits(n);
  }

  lemma ParseSignedDigits(t: string)
    requires |t| > 0 && AllDigits(t)
    ensures ParseSigned(t) == Some(DigitsValue(t) as int)
  {
    assert IsDigit(t[0]);
  }

  lemma ParseSignedNegative(n: string)
    requires |n| > 0 && AllDigits(n)
    ensures ParseSigned("-" + n) == Some(-(DigitsValue(n) as int))
  {
    assert ("-" + n)[1..] == n;
  }

  lemma ParseNegativeNumeral(n: string)
    requires |n| > 0 && AllDigits(n)
    ensures PyParseInt("-" + n) == Some(-(DigitsValue(n) as int))
  {
    TrimNumeral("-" + n);
    ParseSignedNegative(n);
  }

  lemma TrimNumeral(s: string)
    requires |s| > 0
    requires forall k :: 0 <= k < |s| ==> IsDigit(s[k]) || s[k] == '-'
    ensures Strip(s) == s
  {
    assert !IsPySpace(s[0]);
    assert !IsPySpace(s[|s| - 1]);
  }

  // ---------------------------------------------------------------------
  // JavaScript's parseInt
  // ---------------------------------------------------------------------

  /** The longest run of decimal digits at the front of `s`. */
  function LeadingDigits(s: string): (ds: string)
    ensures AllDigits(ds) && |ds| <= |s| && ds == s[..|ds|]
    ensures |ds| < |s| ==> !IsDigit(s[|ds|])
  {
    if |s| == 0 || !IsDigit(s[0]) then ""
    else [s[0]] + LeadingDigits(s[1..])
  }

  /** `parseInt(s)` with no radix: leading whitespace, an optional sign and
      the digits that follow, up to the first other character; `None` is
      `NaN`, returned when no digit follows. */
  function JsParseInt(s: string): (r: Option<int>)
    ensures r.None? <==> |LeadingDigits(SignFree(TrimStart(s, IsJsSpace)))| == 0
  {
    var t := TrimStart(s, IsJsSpace);
    var ds := LeadingDigits(SignFree(t));
    if |ds| == 0 then None
    else if |t| > 0 && t[0] == '-' then Some(-(DigitsValue(ds) as int))
    else Some(DigitsValue(ds))
  }

  /** What follows a leading sign, if there is one. */
  function SignFree(t: string): string {
    if |t| > 0 && (t[0] == '-' || t[0] == '+') then t[1..] else t
  }

  /** A string of digits reads as its decimal value. */
  lemma JsParseIntDigits(s: string)
    requires |s| > 0 && AllDigits(s)
    ensures JsParseInt(s) == Some(DigitsValue(s))
  {
    DigitStart(s);
    AllDigitsLeading(s);
  }

  /** A string starting with a digit has no whitespace or sign to skip. */
  lemma DigitStart(s: string)
    requires |s| > 0 && IsDigit(s[0])
    ensures TrimStart(s, IsJsSpace) == s && SignFree(s) == s
  {
    var k := s[0] as int;
    assert 48 <= k <= 57;
    assert !IsJsSpace(s[0]);
    NoSpaceFirst(s, IsJsSpace);
  }

  /** Nothing is trimmed from a string that starts with a non-space. */
  lemma NoSpaceFirst(s: string, ws: char -> bool)
    requires |s| > 0 && !ws(s[0])
    ensures TrimStart(s, ws) == s
  {
  }

  /** `parseInt` reads back the decimal form of a natural number. */
  lemma JsParseIntNumeral(n: nat)
    ensures JsParseInt(NatToString(n)) == Some(n)
  {
    JsParseIntDigits(NatToString(n));
  }

  lemma {:induction false} AllDigitsLeading(s: string)
    requires AllDigits(s)
    ensures LeadingDigits(s) == s
  {
    if |s| > 0 {
      AllDigitsLeading(s[1..]);
    }
  }

  /** `parseInt` stops at the first character that is not a digit. */
  lemma JsParseIntStops(n: nat, tail: string)
    requires |tail| > 0 && !IsDigit(tail[0])
    ensures JsParseInt(NatToString(n) + tail) == Some(n)
  {
    var s := NatToString(n);
    var st := s + tail;
    assert st[0] == s[0];
    DigitStart(st);
    DigitsThenStop(s, tail);
  }

  lemma {:induction false} DigitsThenStop(s: string, tail: string)
    requires AllDigits(s)
    requires |tail| > 0 && !IsDigit(tail[0])
    ensures LeadingDigits(s + tail) == s
  {
    if |s| == 0 {
      assert s + tail == tail;
    } else {
      assert (s + tail)[1..] == s[1..] + tail;
      DigitsThenStop(s[1..], tail);
    }
  }

  import opened Wrappers
}

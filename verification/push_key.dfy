/** The decoding of the push server's public key in `sw.js`
    (`urlBase64ToUint8Array`): the URL-safe base64 text of section 5 of
    RFC 4648 is padded with `=`, mapped onto the standard alphabet of
    section 4 and decoded with the browser's `atob` (the forgiving base64
    decoder of the HTML standard), and each decoded character's code is
    one byte of the result. */
module PushKey {
  import opened Wrappers
  import Seqs

  newtype Byte = x: int | 0 <= x < 256

  // ---------------------------------------------------------------------
  // Alphabets
  // ---------------------------------------------------------------------

  /** The character for a 6-bit value in the standard alphabet. */
  function StdChar(v: nat): char
    requires v < 64
  {
    if v < 26 then ('A' as int + v) as char
    else if v < 52 then ('a' as int + (v - 26)) as char
    else if v < 62 then ('0' as int + (v - 52)) as char
    else if v == 62 then '+'
    else '/'
  }

  /** The character for a 6-bit value in the URL-safe alphabet. */
  function UrlChar(v: nat): char
    requires v < 64
  {
    if v == 62 then '-' else if v == 63 then '_' else StdChar(v)
  }

  /** The 6-bit value of a standard-alphabet character; `None` for any
      other character, `=` included. */
  function StdValue(c: char): (r: Option<nat>)
    ensures r.Some? ==> r.value < 64 && StdChar(r.value) == c
  {
    if 'A' <= c <= 'Z' then Some(c as int - 'A' as int)
    else if 'a' <= c <= 'z' then Some(c as int - 'a' as int + 26)
    else if '0' <= c <= '9' then Some(c as int - '0' as int + 52)
    else if c == '+' then Some(62)
    else if c == '/' then Some(63)
    else None
  }

  lemma StdValueOfChar(v: nat)
    requires v < 64
    ensures StdValue(StdChar(v)) == Some(v)
  {
  }

  // ---------------------------------------------------------------------
  // urlBase64ToUint8Array
  // ---------------------------------------------------------------------

  /** `"=".repeat((4 - n % 4) % 4)`: none, three, two or one `=` for a
      remainder of 0, 1, 2 or 3. */
  function Padding(n: nat): (p: string)
    ensures |p| < 4 && (n + |p|) % 4 == 0
    ensures |p| == 3 <==> n % 4 == 1
    ensures forall i :: 0 <= i < |p| ==> p[i] == '='
  {
    var r := n % 4;
    if r == 0 then "" else if r == 3 then "=" else if r == 2 then "==" else "==="
  }

  /** `.replace(/\-/g, "+").replace(/_/g, "/")`. */
  function ToStd(s: string): (r: string)
    ensures |r| == |s|
    ensures forall i :: 0 <= i < |s| ==>
              r[i] == (if s[i] == '-' then '+' else if s[i] == '_' then '/' else s[i])
  {
    if |s| == 0 then ""
    else [if s[0] == '-' then '+' else if s[0] == '_' then '/' else s[0]] + ToStd(s[1..])
  }

  lemma ToStdAppend(a: string, b: string)
    ensures ToStd(a + b) == ToStd(a) + ToStd(b)
  {
    assert forall i :: 0 <= i < |a| ==> (a + b)[i] == a[i];
    assert forall i :: |a| <= i < |a| + |b| ==> (a + b)[i] == b[i - |a|];
  }

  /** One group of two to four characters: three bytes from four, and a
      tail of two or three characters gives one or two bytes, its leftover
      bits dropped. */
  function DecodeGroup(g: string): (r: Option<seq<Byte>>)
    requires 2 <= |g| <= 4
    ensures r.Some? ==> |r.value| == |g| - 1
  {
    var a := StdValue(g[0]);
    var b := StdValue(g[1]);
    var c := if |g| > 2 then StdValue(g[2]) else Some(0);
    var d := if |g| > 3 then StdValue(g[3]) else Some(0);
    if a.None? || b.None? || c.None? || d.None? then None
    else
      var x := (a.value * 4 + b.value / 16) as Byte;
      var y := ((b.value % 16) * 16 + c.value / 4) as Byte;
      var z := ((c.value % 4) * 64 + d.value) as Byte;
      if |g| == 2 then Some([x]) else if |g| == 3 then Some([x, y]) else Some([x, y, z])
  }

  /** Decoding of standard-alphabet text with no padding left, group by
      group; a lone final character cannot be decoded. */
  function Decode(s: string): (r: Option<seq<Byte>>)
    ensures r.Some? ==> |s| % 4 != 1
  {
    if |s| == 0 then Some([])
    else if |s| == 1 then None
    else if |s| <= 4 then DecodeGroup(s)
    else
      match DecodeGroup(s[..4])
      case None => None
      case Some(head) =>
        match Decode(s[4..])
        case None => None
        case Some(rest) => Some(head + rest)
  }

  /** What `atob` keeps of its input: when the length is a multiple of four,
      one or two final `=` are dropped. */
  function StripPad(data: string): (s: string)
    ensures Seqs.IsPrefix(s, data) && |data| - 2 <= |s|
  {
    if |data| % 4 == 0 && |data| >= 1 && data[|data| - 1] == '=' then
      (if |data| >= 2 && data[|data| - 2] == '=' then data[..|data| - 2] else data[..|data| - 1])
    else data
  }

  /** `atob(data)` on text without ASCII whitespace; `None` is the
      InvalidCharacterError for a length one more than a multiple of four,
      or for a character outside the standard alphabet (a remaining `=`
      included). */
  function Atob(data: string): Option<seq<Byte>> {
    Decode(StripPad(data))
  }

  /** `urlBase64ToUint8Array(base64String)`; `None` is the exception `atob`
      throws. Each byte is the char code `atob` yields at that position. */
  function UrlBase64ToBytes(s: string): (r: Option<seq<Byte>>)
    ensures r.Some? ==> |s| % 4 != 1
  {
    PaddedThreeFails(s);
    Atob(ToStd(s + Padding(|s|)))
  }

  /** Text one character longer than a multiple of four gets three `=`;
      `atob` drops two and then fails on the third. */
  lemma PaddedThreeFails(s: string)
    ensures |s| % 4 == 1 ==> Atob(ToStd(s + Padding(|s|))).None?
  {
    if |s| % 4 == 1 {
      PadThree(s);
      ThreeEqualsFail(ToStd(s));
    }
  }

  lemma PadThree(s: string)
    requires |s| % 4 == 1
    ensures ToStd(s + Padding(|s|)) == ToStd(s) + "==="
  {
    var p := Padding(|s|);
    assert p == "===";
    ToStdAppend(s, p);
    ToStdKeepsPadding(p);
  }

  lemma ThreeEqualsFail(u: string)
    requires (|u| + 3) % 4 == 0
    ensures Atob(u + "===").None?
  {
    StripThree(u);
    DecodeRejectsEquals(u + "=");
  }

  lemma ToStdKeepsPadding(p: string)
    requires forall i :: 0 <= i < |p| ==> p[i] == '='
    ensures ToStd(p) == p
  {
  }

  lemma StripThree(u: string)
    requires (|u| + 3) % 4 == 0
    ensures StripPad(u + "===") == u + "="
  {
    var t := u + "===";
    assert t[|t| - 1] == '=' && t[|t| - 2] == '=';
    assert t[..|t| - 2] == u + "=";
  }

  /** Decoding fails on any text whose last character is `=`. */
  lemma {:induction false} DecodeRejectsEquals(u: string)
    requires |u| > 0 && u[|u| - 1] == '='
    ensures Decode(u).None?
    decreases |u|
  {
    if |u| > 4 {
      assert u[4..][|u| - 5] == '=';
      DecodeRejectsEquals(u[4..]);
    }
  }

  // ---------------------------------------------------------------------
  // The encoding the key is published in
  // ---------------------------------------------------------------------

  /** One to three bytes as two to four URL-safe characters. */
  function EncodeGroup(g: seq<Byte>): (s: string)
    requires 1 <= |g| <= 3
    ensures |s| == |g| + 1
    ensures forall i :: 0 <= i < |s| ==> s[i] != '='
  {
    var x := g[0] as int;
    var y := if |g| > 1 then g[1] as int else 0;
    var z := if |g| > 2 then g[2] as int else 0;
    var c0 := UrlChar(x / 4);
    var c1 := UrlChar((x % 4) * 16 + y / 16);
    var c2 := UrlChar((y % 16) * 4 + z / 64);
    var c3 := UrlChar(z % 64);
    if |g| == 1 then [c0, c1] else if |g| == 2 then [c0, c1, c2] else [c0, c1, c2, c3]
  }

  /** Unpadded URL-safe base64 (section 5 of RFC 4648, padding omitted as
      section 3.2 allows). */
  function EncodeUrl(b: seq<Byte>): (s: string)
    ensures |s| % 4 != 1
    ensures |s| == (|b| / 3) * 4 + (if |b| % 3 == 0 then 0 else |b| % 3 + 1)
    ensures forall i :: 0 <= i < |s| ==> s[i] != '='
  {
    if |b| == 0 then ""
    else if |b| <= 3 then EncodeGroup(b)
    else EncodeGroup(b[..3]) + EncodeUrl(b[3..])
  }

  /** Mapping the URL-safe characters onto the standard ones turns one
      alphabet into the other. */
  lemma ToStdUrlChar(v: nat)
    requires v < 64
    ensures StdValue(if UrlChar(v) == '-' then '+' else if UrlChar(v) == '_' then '/' else UrlChar(v)) == Some(v)
  {
    StdValueOfChar(v);
  }

  /** One group decodes back to its bytes. */
  lemma GroupRoundTrip(g: seq<Byte>)
    requires 1 <= |g| <= 3
    ensures DecodeGroup(ToStd(EncodeGroup(g))) == Some(g)
  {
    var x := g[0] as int;
    var y := if |g| > 1 then g[1] as int else 0;
    var z := if |g| > 2 then g[2] as int else 0;
    GroupBytes(x, y, z);
    GroupValues(g);
    if |g| == 3 {
      assert g == [g[0], g[1], g[2]];
    } else if |g| == 2 {
      assert g == [g[0], g[1]];
    } else {
      assert g == [g[0]];
    }
  }

  /** The 6-bit values the standard alphabet reads back from an encoded
      group. */
  lemma GroupValues(g: seq<Byte>)
    requires 1 <= |g| <= 3
    ensures var t := ToStd(EncodeGroup(g));
            var x := g[0] as int;
            var y := if |g| > 1 then g[1] as int else 0;
            var z := if |g| > 2 then g[2] as int else 0;
            && StdValue(t[0]) == Some(x / 4)
            && StdValue(t[1]) == Some((x % 4) * 16 + y / 16)
            && (|g| > 1 ==> StdValue(t[2]) == Some((y % 16) * 4 + z / 64))
            && (|g| > 2 ==> StdValue(t[3]) == Some(z % 64))
  {
    var x := g[0] as int;
    var y := if |g| > 1 then g[1] as int else 0;
    var z := if |g| > 2 then g[2] as int else 0;
    ToStdUrlChar(x / 4);
    ToStdUrlChar((x % 4) * 16 + y / 16);
    ToStdUrlChar((y % 16) * 4 + z / 64);
    ToStdUrlChar(z % 64);
  }

  /** Decoding inverts encoding, group by group. */
  lemma {:induction false} DecodeEncode(b: seq<Byte>)
    ensures Decode(ToStd(EncodeUrl(b))) == Some(b)
    decreases |b|
  {
    if 1 <= |b| <= 3 {
      GroupRoundTrip(b);
    } else if |b| > 3 {
      var g := EncodeGroup(b[..3]);
      var rest := EncodeUrl(b[3..]);
      GroupRoundTrip(b[..3]);
      DecodeEncode(b[3..]);
      ToStdAppend(g, rest);
      var t := ToStd(g) + ToStd(rest);
      assert t[..4] == ToStd(g) && t[4..] == ToStd(rest);
      assert b == b[..3] + b[3..];
    }
  }

  /** The bit arithmetic of one group: splitting three bytes into four
      6-bit values and joining them again gives the bytes back. */
  lemma GroupBytes(x: int, y: int, z: int)
    requires 0 <= x < 256 && 0 <= y < 256 && 0 <= z < 256
    ensures (x / 4) * 4 + ((x % 4) * 16 + y / 16) / 16 == x
    ensures (((x % 4) * 16 + y / 16) % 16) * 16 + ((y % 16) * 4 + z / 64) / 4 == y
    ensures (((y % 16) * 4 + z / 64) % 4) * 64 + z % 64 == z
  {
    assert ((x % 4) * 16 + y / 16) / 16 == x % 4;
    assert ((x % 4) * 16 + y / 16) % 16 == y / 16;
    assert ((y % 16) * 4 + z / 64) / 4 == y % 16;
    assert ((y % 16) * 4 + z / 64) % 4 == z / 64;
  }

  /** `atob` drops exactly the padding that was added to text that does not
      itself end in `=`. */
  lemma StripPadExact(u: string, p: string)
    requires |u| == 0 || u[|u| - 1] != '='
    requires (p == "" && |u| % 4 == 0) || (p == "=" && |u| % 4 == 3) || (p == "==" && |u| % 4 == 2)
    ensures StripPad(u + p) == u
  {
    var t := u + p;
    if |p| == 0 {
      assert t == u;
    } else if |p| == 1 {
      assert t[..|t| - 1] == u;
      assert |t| < 2 || t[|t| - 2] != '=';
    } else {
      assert t[..|t| - 2] == u;
    }
  }

  /** Padding text that has no `=` of its own and then letting `atob`
      strip it leaves the text, mapped onto the standard alphabet. */
  lemma PadThenStrip(s: string)
    requires |s| % 4 != 1
    requires forall i :: 0 <= i < |s| ==> s[i] != '='
    ensures StripPad(ToStd(s + Padding(|s|))) == ToStd(s)
  {
    var p := Padding(|s|);
    ToStdAppend(s, p);
    ToStdKeepsPadding(p);
    LastNotEquals(s);
    var u := ToStd(s);
    assert |u| == |s|;
    StripPadExact(u, p);
  }

  lemma LastNotEquals(s: string)
    requires forall i :: 0 <= i < |s| ==> s[i] != '='
    ensures |ToStd(s)| == 0 || ToStd(s)[|s| - 1] != '='
  {
  }

  /** Padding an encoded key gives back the bytes: the `=` added to reach a
      multiple of four are exactly those `atob` drops. */
  lemma UrlBase64RoundTrip(b: seq<Byte>)
    ensures UrlBase64ToBytes(EncodeUrl(b)) == Some(b)
  {
    var s := EncodeUrl(b);
    PadThenStrip(s);
    DecodeEncode(b);
    assert Atob(ToStd(s + Padding(|s|))) == Some(b);
  }
}

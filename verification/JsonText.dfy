/** JSON string literals as the catalog writes them (`json_string`) and as it reads
    them back (`unjson`, `unjson_str`). */
module JsonText {
  import opened Text

  function HexDigit(d: nat): (c: char)
    requires d < 16
  {
    if d < 10 then '0' + d as char else 'a' + (d - 10) as char
  }

  /** Escapes are written in lower case. */
  lemma HexDigitsAreLowerCase(d: nat)
    requires d < 16
    ensures HexDigit(d) == "0123456789abcdef"[d]
  {
  }

  function HexValue(c: char): (d: Option<nat>)
    ensures d.Some? ==> d.value < 16
  {
    if '0' <= c <= '9' then Some((c as int) - ('0' as int))
    else if 'a' <= c <= 'f' then Some((c as int) - ('a' as int) + 10)
    else if 'A' <= c <= 'F' then Some((c as int) - ('A' as int) + 10)
    else None
  }

  function EscapeChar(c: char): string {
    if c == '"' then "\\\""
    else if c == '\\' then "\\\\"
    else if c == 0x08 as char then "\\b"
    else if c == 0x0c as char then "\\f"
    else if c == '\n' then "\\n"
    else if c == '\r' then "\\r"
    else if c == '\t' then "\\t"
    else if (c as int) < 0x20 then "\\u00" + [HexDigit(c as int / 16), HexDigit(c as int % 16)]
    else [c]
  }

  function Escaped(s: string): string {
    if s == "" then "" else EscapeChar(s[0]) + Escaped(s[1..])
  }

  /** `json_string`. */
  function JsonString(s: string): string {
    "\"" + Escaped(s) + "\""
  }

  /** Four hexadecimal digits at the front of `s`. */
  function Hex4(s: string): (n: Option<nat>)
    ensures n.Some? ==> n.value < 0x10000 && |s| >= 4
  {
    if |s| < 4 || HexValue(s[0]).None? || HexValue(s[1]).None? || HexValue(s[2]).None? || HexValue(s[3]).None? then None
    else Some(HexValue(s[0]).value * 4096 + HexValue(s[1]).value * 256 + HexValue(s[2]).value * 16 + HexValue(s[3]).value)
  }

  function SimpleEscape(c: char): Option<char> {
    if c == '"' || c == '\\' || c == '/' then Some(c)
    else if c == 'b' then Some(0x08 as char)
    else if c == 'f' then Some(0x0c as char)
    else if c == 'n' then Some('\n')
    else if c == 'r' then Some('\r')
    else if c == 't' then Some('\t')
    else None
  }

  /** The character a backslash escape stands for, and how much of `s` (from the
      backslash on) it takes: a surrogate half must come with its other half. */
  function UnescapeChar(s: string): (r: Option<(char, nat)>)
    requires |s| >= 1 && s[0] == '\\'
    ensures r.Some? ==> 2 <= r.value.1 <= |s|
  {
    if |s| < 2 then None
    else if SimpleEscape(s[1]).Some? then Some((SimpleEscape(s[1]).value, 2))
    else if s[1] != 'u' || Hex4(s[2..]).None? then None
    else
      var hi := Hex4(s[2..]).value;
      if hi < 0xD800 || hi >= 0xE000 then Some((hi as char, 6))
      else if hi >= 0xDC00 || |s| < 12 || s[6] != '\\' || s[7] != 'u' || Hex4(s[8..]).None? then None
      else
        var lo := Hex4(s[8..]).value;
        if lo < 0xDC00 || lo >= 0xE000 then None
        else Some(((0x10000 + (hi - 0xD800) * 0x400 + (lo - 0xDC00)) as char, 12))
  }

  /** A string literal's contents from behind its opening quote, and what follows
      the closing one. */
  function Body(s: string): Option<(string, string)>
    decreases |s|
  {
    if s == "" then None
    else if s[0] == '"' then Some(("", s[1..]))
    else if s[0] == '\\' then
      var u := UnescapeChar(s);
      if u.None? then None
      else
        var rest := Body(s[u.value.1..]);
        if rest.None? then None else Some(([u.value.0] + rest.value.0, rest.value.1))
    else if (s[0] as int) < 0x20 then None
    else
      var rest := Body(s[1..]);
      if rest.None? then None else Some(([s[0]] + rest.value.0, rest.value.1))
  }

  function SkipSpace(s: string): string {
    if s != "" && (s[0] == ' ' || s[0] == '\t' || s[0] == '\n' || s[0] == '\r') then SkipSpace(s[1..]) else s
  }

  /** The string a JSON text denotes, if it is one string literal. */
  function ParseString(text: string): Option<string> {
    var s := SkipSpace(text);
    if s == "" || s[0] != '"' || Body(s[1..]).None? || SkipSpace(Body(s[1..]).value.1) != "" then None
    else Some(Body(s[1..]).value.0)
  }

  /** `definitions.rs`'s decoder: the raw text when it is not a JSON string. */
  function UnjsonStr(s: string): string {
    if ParseString(s).Some? then ParseString(s).value else s
  }

  /** The engine's decoder, which looks for the quotes first. */
  function Unjson(s: string): string {
    if |s| >= 2 && s[0] == '"' && s[|s| - 1] == '"' then UnjsonStr(s) else s
  }

  lemma UnescapeOfEscape(c: char, tail: string)
    requires EscapeChar(c)[0] == '\\'
    ensures UnescapeChar(EscapeChar(c) + tail) == Some((c, |EscapeChar(c)|))
  {
    var e := EscapeChar(c);
    var s := e + tail;
    assert s[1] == e[1];
    if e[1] == 'u' {
      assert s[2..][0] == e[2] && s[2..][1] == e[3] && s[2..][2] == e[4] && s[2..][3] == e[5];
      assert HexValue(HexDigit(c as int / 16)) == Some(c as int / 16);
      assert HexValue(HexDigit(c as int % 16)) == Some(c as int % 16);
    }
  }

  lemma BodyOfFirst(c: char, rest: string)
    requires Body(rest).Some?
    ensures Body(EscapeChar(c) + rest) == Some(([c] + Body(rest).value.0, Body(rest).value.1))
  {
    var e := EscapeChar(c);
    if e[0] == '\\' {
      UnescapeOfEscape(c, rest);
      hide EscapeChar, UnescapeChar;
      assert (e + rest)[|e|..] == rest;
    } else {
      assert e == [c] && (e + rest)[1..] == rest;
    }
  }

  lemma {:induction false} BodyOfEscaped(s: string, tail: string)
    ensures Body(Escaped(s) + "\"" + tail) == Some((s, tail))
  {
    if s == "" {
      assert Escaped(s) + "\"" + tail == "\"" + tail;
    } else {
      hide Body, EscapeChar;
      var rest := Escaped(s[1..]) + "\"" + tail;
      assert Escaped(s) + "\"" + tail == EscapeChar(s[0]) + rest;
      BodyOfEscaped(s[1..], tail);
      BodyOfFirst(s[0], rest);
      assert [s[0]] + s[1..] == s;
    }
  }

  /** Decoding what was encoded gives the string back, for every string. */
  lemma StringRoundTrip(s: string)
    ensures UnjsonStr(JsonString(s)) == s && Unjson(JsonString(s)) == s
    ensures ParseString(JsonString(s)) == Some(s)
  {
    BodyOfEscaped(s, "");
    assert JsonString(s)[1..] == Escaped(s) + "\"" + "";
    assert SkipSpace(JsonString(s)) == JsonString(s);
  }

  // ----- what the readers accept besides -----

  /** Text that is no JSON string is read as it stands. */
  lemma RawTextStays(s: string)
    ensures ParseString(s).None? ==> UnjsonStr(s) == s && Unjson(s) == s
  {
  }

  /** Four hexadecimal digits. */
  function Hex(n: nat): (s: string)
    requires n < 0x10000
    ensures |s| == 4
  {
    [HexDigit(n / 4096), HexDigit(n / 256 % 16), HexDigit(n / 16 % 16), HexDigit(n % 16)]
  }

  lemma HexReads(n: nat, tail: string)
    requires n < 0x10000
    ensures Hex4(Hex(n) + tail) == Some(n)
  {
    var s := Hex(n) + tail;
    var a, b, c, d := n / 4096, n / 256 % 16, n / 16 % 16, n % 16;
    assert s[0] == HexDigit(a) && s[1] == HexDigit(b) && s[2] == HexDigit(c) && s[3] == HexDigit(d);
    DigitReads(a);
    DigitReads(b);
    DigitReads(c);
    DigitReads(d);
    assert n / 16 == n / 256 * 16 + c && n / 256 == a * 16 + b;
  }

  lemma DigitReads(d: nat)
    requires d < 16
    ensures HexValue(HexDigit(d)) == Some(d)
  {
  }

  /** The two-character escapes of section 7 of RFC 8259. */
  lemma ShortEscapesRead(tail: string)
    ensures UnescapeChar("\\\"" + tail) == Some(('"', 2)) && UnescapeChar("\\\\" + tail) == Some(('\\', 2))
    ensures UnescapeChar("\\/" + tail) == Some(('/', 2)) && UnescapeChar("\\b" + tail) == Some((0x08 as char, 2))
    ensures UnescapeChar("\\f" + tail) == Some((0x0c as char, 2)) && UnescapeChar("\\n" + tail) == Some(('\n', 2))
    ensures UnescapeChar("\\r" + tail) == Some(('\r', 2)) && UnescapeChar("\\t" + tail) == Some(('\t', 2))
  {
  }

  lemma OneUnicodeEscape(c: char, tail: string)
    requires (c as int) < 0x10000
    ensures UnescapeChar("\\u" + (Hex(c as int) + tail)) == Some((c, 6))
  {
    var s := "\\u" + (Hex(c as int) + tail);
    HexReads(c as int, tail);
    assert s[2..] == Hex(c as int) + tail;
    hide Hex4, Hex;
  }

  lemma TwoUnicodeEscapes(hi: nat, lo: nat, tail: string)
    requires hi < 0x400 && lo < 0x400
    ensures UnescapeChar("\\u" + (Hex(0xD800 + hi) + ("\\u" + (Hex(0xDC00 + lo) + tail))))
      == Some(((0x10000 + hi * 0x400 + lo) as char, 12))
  {
    hide Hex4, Hex;
    var low := Hex(0xDC00 + lo) + tail;
    var rest := Hex(0xD800 + hi) + ("\\u" + low);
    var s := "\\u" + rest;
    HexReads(0xD800 + hi, "\\u" + low);
    HexReads(0xDC00 + lo, tail);
    assert s[2..] == rest && s[6] == '\\' && s[7] == 'u' && s[8..] == low;
  }

  /** Its Unicode escapes: one for a character below 2^16, two for any other, by the
      arithmetic of UTF-16. */
  lemma UnicodeEscapesRead(c: char, tail: string)
    ensures (c as int) < 0x10000 ==> UnescapeChar("\\u" + (Hex(c as int) + tail)) == Some((c, 6))
    ensures (c as int) >= 0x10000 ==>
      var n := c as int - 0x10000;
      UnescapeChar("\\u" + (Hex(0xD800 + n / 0x400) + ("\\u" + (Hex(0xDC00 + n % 0x400) + tail)))) == Some((c, 12))
  {
    hide UnescapeChar, Hex;
    if (c as int) < 0x10000 {
      OneUnicodeEscape(c, tail);
    } else {
      var n := c as int - 0x10000;
      TwoUnicodeEscapes(n / 0x400, n % 0x400, tail);
      assert n / 0x400 * 0x400 + n % 0x400 == n;
    }
  }

  /** White space of section 2 of RFC 8259. */
  predicate IsJsonSpace(w: string) {
    forall i :: 0 <= i < |w| ==> w[i] in [' ', '\t', '\n', '\r']
  }

  lemma {:induction false} SpaceIsSkipped(w: string, s: string)
    requires IsJsonSpace(w)
    ensures SkipSpace(w + s) == SkipSpace(s)
  {
    if w == "" {
      assert w + s == s;
    } else {
      assert (w + s)[1..] == w[1..] + s;
      SpaceIsSkipped(w[1..], s);
    }
  }

  /** White space around a literal does not matter. */
  lemma SpacedStringReads(before: string, s: string, behind: string)
    requires IsJsonSpace(before) && IsJsonSpace(behind)
    ensures ParseString(before + (JsonString(s) + behind)) == Some(s)
  {
    var t := JsonString(s) + behind;
    SpaceIsSkipped(before, t);
    assert t[0] == '"' && t[1..] == Escaped(s) + "\"" + behind;
    BodyOfEscaped(s, behind);
    assert behind + "" == behind;
    SpaceIsSkipped(behind, "");
  }
}

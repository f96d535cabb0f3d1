/** The quoting eval renders with, strconv.QuoteToASCII, and the reader the reports read it back with. */
module Quoting {
  import opened Strings

  function HexDigit(d: nat): char
    requires d < 16
  {
    if d < 10 then '0' + d as char else 'a' + (d - 10) as char
  }

  function DigitOf(c: char): Option<nat> {
    if '0' <= c <= '9' then Some((c - '0') as nat)
    else if 'a' <= c <= 'f' then Some((c - 'a') as nat + 10)
    else None
  }

  /** n in w lowercase hex digits, the most significant first. */
  function Hex(n: nat, w: nat): (digits: string)
    ensures |digits| == w
  {
    if w == 0 then "" else Hex(n / 16, w - 1) + [HexDigit(n % 16)]
  }

  function HexValue(digits: string): Option<nat> {
    if digits == "" then Some(0)
    else
      var high := HexValue(digits[..|digits| - 1]);
      var low := DigitOf(digits[|digits| - 1]);
      if high.Some? && low.Some? then Some(16 * high.value + low.value) else None
  }

  function Pow16(w: nat): nat {
    if w == 0 then 1 else 16 * Pow16(w - 1)
  }

  lemma {:induction false} HexRoundTrip(n: nat, w: nat)
    requires n < Pow16(w)
    ensures HexValue(Hex(n, w)) == Some(n)
  {
    if w > 0 {
      HexRoundTrip(n / 16, w - 1);
      var digits := Hex(n, w);
      assert digits[..|digits| - 1] == Hex(n / 16, w - 1);
    }
  }

  /** A scalar value: no surrogate, nothing beyond U+10FFFF. */
  predicate IsScalar(n: nat) {
    n < 0xD800 || 0xE000 <= n < 0x110000
  }

  function Escape(c: char): string {
    if c == '"' || c == '\\' then ['\\', c]
    else if ' ' <= c <= '~' then [c]
    else if c == '\U{7}' then "\\a"
    else if c == '\U{8}' then "\\b"
    else if c == '\U{9}' then "\\t"
    else if c == '\U{A}' then "\\n"
    else if c == '\U{B}' then "\\v"
    else if c == '\U{C}' then "\\f"
    else if c == '\U{D}' then "\\r"
    else if c as int < 0x80 then "\\x" + Hex(c as nat, 2)
    else if c as int < 0x10000 then "\\u" + Hex(c as nat, 4)
    else "\\U" + Hex(c as nat, 8)
  }

  function EscapeAll(s: string): string {
    if s == "" then "" else Escape(s[0]) + EscapeAll(s[1..])
  }

  function Quote(s: string): string {
    "\"" + EscapeAll(s) + "\""
  }

  /** What a reader found at the front of a text, and the text after it. */
  datatype Read<+T> = Failed | Found(value: T, rest: string)

  function ReadHex(text: string, w: nat): (r: Read<char>)
    ensures r.Found? ==> |r.rest| <= |text|
  {
    if |text| < w then Failed
    else
      var n := HexValue(text[..w]);
      if n.Some? && IsScalar(n.value) then Found(n.value as char, text[w..]) else Failed
  }

  /** The character an escape stands for, text starting after its backslash. */
  function ReadEscape(text: string): (r: Read<char>)
    ensures r.Found? ==> |r.rest| < |text|
  {
    if text == "" then Failed
    else
      var c, rest := text[0], text[1..];
      if c == '"' || c == '\\' then Found(c, rest)
      else if c == 'a' then Found('\U{7}', rest)
      else if c == 'b' then Found('\U{8}', rest)
      else if c == 't' then Found('\U{9}', rest)
      else if c == 'n' then Found('\U{A}', rest)
      else if c == 'v' then Found('\U{B}', rest)
      else if c == 'f' then Found('\U{C}', rest)
      else if c == 'r' then Found('\U{D}', rest)
      else if c == 'x' then ReadHex(rest, 2)
      else if c == 'u' then ReadHex(rest, 4)
      else if c == 'U' then ReadHex(rest, 8)
      else Failed
  }

  /** The characters up to the closing quote, which is read too. */
  function ReadQuotedTail(text: string): (r: Read<string>)
    ensures r.Found? ==> |r.rest| < |text|
    decreases |text|
  {
    if text == "" || text[0] == '\n' then Failed
    else if text[0] == '"' then Found("", text[1..])
    else
      var first := if text[0] == '\\' then ReadEscape(text[1..]) else Found(text[0], text[1..]);
      if first.Failed? then Failed
      else
        var tail := ReadQuotedTail(first.rest);
        if tail.Failed? then Failed else Found([first.value] + tail.value, tail.rest)
  }

  /** One quoted string at the front of text. */
  function Unquote(text: string): (r: Read<string>)
    ensures r.Found? ==> |r.rest| < |text|
  {
    if text == "" || text[0] != '"' then Failed else ReadQuotedTail(text[1..])
  }

  lemma HexReadsBack(c: char, w: nat, rest: string)
    requires c as nat < Pow16(w)
    ensures ReadHex(Hex(c as nat, w) + rest, w) == Found(c, rest)
  {
    HexRoundTrip(c as nat, w);
    var text := Hex(c as nat, w) + rest;
    assert text[..w] == Hex(c as nat, w) && text[w..] == rest;
  }

  lemma EscapeReadsBack(c: char, rest: string)
    ensures var text := Escape(c) + rest;
            text[0] != '\n' && text[0] != '"'
            && (if text[0] == '\\' then ReadEscape(text[1..]) == Found(c, rest) else text == [c] + rest)
  {
    var escape := Escape(c);
    if |escape| > 2 {
      EscapeIsHex(c);
      var w := |escape| - 2;
      hide Escape;
      assert (escape + rest)[1..] == [escape[1]] + (Hex(c as nat, w) + rest);
      HexReadsBack(c, w, rest);
    } else if escape[0] == '\\' {
      ShortEscapeReadsBack(c, rest);
    }
  }

  lemma ShortEscapeReadsBack(c: char, rest: string)
    requires |Escape(c)| == 2 && Escape(c)[0] == '\\'
    ensures (Escape(c) + rest)[1..] == [Escape(c)[1]] + rest && ReadEscape([Escape(c)[1]] + rest) == Found(c, rest)
  {
    hide Hex, ReadHex;
    assert ([Escape(c)[1]] + rest)[1..] == rest;
  }

  lemma EscapeIsHex(c: char)
    requires |Escape(c)| > 2
    ensures var w := |Escape(c)| - 2;
            Escape(c) == ['\\', if w == 2 then 'x' else if w == 4 then 'u' else 'U'] + Hex(c as nat, w)
            && w in {2, 4, 8} && c as nat < Pow16(w)
  {
    assert Pow16(2) == 0x100;
    assert Pow16(4) == 0x10000;
    assert Pow16(8) == 0x10000 * Pow16(4) == 0x1_0000_0000;
  }

  lemma {:induction false} QuotedTailReadsBack(s: string, rest: string)
    ensures ReadQuotedTail(EscapeAll(s) + "\"" + rest) == Found(s, rest)
  {
    var text := EscapeAll(s) + "\"" + rest;
    if s == "" {
      assert text[1..] == rest;
    } else {
      var after := EscapeAll(s[1..]) + "\"" + rest;
      assert text == Escape(s[0]) + after;
      EscapeReadsBack(s[0], after);
      QuotedTailReadsBack(s[1..], rest);
      assert [s[0]] + s[1..] == s;
      assert text[0] != '\\' ==> text[1..] == after;
    }
  }

  /** A quoted string is read back whole, and nothing after it is. */
  lemma QuoteRoundTrip(s: string, rest: string)
    ensures Unquote(Quote(s) + rest) == Found(s, rest)
  {
    assert (Quote(s) + rest)[1..] == EscapeAll(s) + "\"" + rest;
    QuotedTailReadsBack(s, rest);
  }
}

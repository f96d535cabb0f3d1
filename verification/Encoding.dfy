/** The JSON the engine writes by hand (internal/report/encode.go). */
module Encoding {
  import opened Strings
  import opened Quoting

  // ---- JSON strings ----

  /** A character the encoder writes as it is. */
  predicate Plain(c: char) {
    c >= ' ' && c !in "\"\\<>&" && c != '\U{2028}' && c != '\U{2029}'
  }

  /** One character inside a JSON string, as the encoder writes it. */
  function JsonEscape(c: char): string {
    if Plain(c) then [c]
    else if c == '\\' || c == '"' then ['\\', c]
    else if c == '\U{8}' then "\\b"
    else if c == '\U{C}' then "\\f"
    else if c == '\n' then "\\n"
    else if c == '\r' then "\\r"
    else if c == '\t' then "\\t"
    else if c == '\U{2028}' || c == '\U{2029}' then "\\u202" + [HexDigit(c as nat % 16)]
    else "\\u00" + [HexDigit(c as nat / 16 % 16), HexDigit(c as nat % 16)]
  }

  function JsonEscapes(s: string): string {
    if s == "" then "" else JsonEscape(s[0]) + JsonEscapes(s[1..])
  }

  function JsonQuote(s: string): string {
    "\"" + JsonEscapes(s) + "\""
  }

  // ---- The reader: section 7 of RFC 8259 ----

  /** Four hex digits, of either case. */
  function ReadHex4(text: string): (r: Read<nat>)
    ensures r.Found? ==> |r.rest| < |text| && r.value < 0x10000
  {
    if |text| < 4 then Failed
    else
      var n := HexValue(Lowered(text[..4]));
      HexValueBound(Lowered(text[..4]));
      if n.None? then Failed else Found(n.value, text[4..])
  }

  function Lowered(s: string): (r: string)
    ensures |r| == |s|
    ensures forall i | 0 <= i < |s| :: r[i] == if 'A' <= s[i] <= 'F' then 'a' + (s[i] - 'A') else s[i]
  {
    if s == "" then "" else [if 'A' <= s[0] <= 'F' then 'a' + (s[0] - 'A') else s[0]] + Lowered(s[1..])
  }

  lemma {:induction false} HexValueBound(digits: string)
    ensures HexValue(digits).Some? ==> HexValue(digits).value < Pow16(|digits|)
    ensures Pow16(4) == 0x10000
  {
    assert Pow16(4) == 16 * Pow16(3) && Pow16(3) == 0x1000;
    if digits != "" {
      HexValueBound(digits[..|digits| - 1]);
    }
  }

  /** An escape, its backslash read: a short one, or \u with a scalar value or a surrogate pair. */
  function ReadJsonEscape(text: string): (r: Read<char>)
    ensures r.Found? ==> |r.rest| < |text|
  {
    if text == "" then Failed
    else
      var c, rest := text[0], text[1..];
      if c == '"' || c == '\\' || c == '/' then Found(c, rest)
      else if c == 'b' then Found('\U{8}', rest)
      else if c == 'f' then Found('\U{C}', rest)
      else if c == 'n' then Found('\n', rest)
      else if c == 'r' then Found('\r', rest)
      else if c == 't' then Found('\t', rest)
      else if c != 'u' then Failed
      else
        var high := ReadHex4(rest);
        if high.Failed? then Failed
        else if IsScalar(high.value) then Found(high.value as char, high.rest)
        else if high.value < 0xDC00 && "\\u" <= high.rest then
          var low := ReadHex4(high.rest[2..]);
          if low.Found? && 0xDC00 <= low.value < 0xE000
          then Found((0x10000 + (high.value - 0xD800) * 0x400 + (low.value - 0xDC00)) as char, low.rest)
          else Failed
        else Failed
  }

  function ReadJsonTail(text: string): (r: Read<string>)
    ensures r.Found? ==> |r.rest| < |text|
    decreases |text|
  {
    if text == "" || text[0] < ' ' then Failed
    else if text[0] == '"' then Found("", text[1..])
    else
      var first := if text[0] == '\\' then ReadJsonEscape(text[1..]) else Found(text[0], text[1..]);
      if first.Failed? then Failed
      else
        var tail := ReadJsonTail(first.rest);
        if tail.Failed? then Failed else Found([first.value] + tail.value, tail.rest)
  }

  /** A JSON string at the front of text. */
  function ReadJson(text: string): (r: Read<string>)
    ensures r.Found? ==> |r.rest| < |text|
  {
    if text == "" || text[0] != '"' then Failed else ReadJsonTail(text[1..])
  }

  lemma Hex4Extends(text: string, more: string)
    requires ReadHex4(text).Found?
    ensures ReadHex4(text + more) == Found(ReadHex4(text).value, ReadHex4(text).rest + more)
  {
    hide HexValue, Lowered;
    assert (text + more)[..4] == text[..4] && (text + more)[4..] == text[4..] + more;
  }

  lemma ReadJsonEscapeExtends(text: string, more: string)
    requires ReadJsonEscape(text).Found?
    ensures ReadJsonEscape(text + more) == Found(ReadJsonEscape(text).value, ReadJsonEscape(text).rest + more)
  {
    hide ReadHex4;
    assert (text + more)[1..] == text[1..] + more;
    if text[0] == 'u' {
      var high := ReadHex4(text[1..]);
      Hex4Extends(text[1..], more);
      if !IsScalar(high.value) {
        assert (high.rest + more)[2..] == high.rest[2..] + more;
        Hex4Extends(high.rest[2..], more);
      }
    }
  }

  lemma {:induction false} ReadJsonTailExtends(text: string, more: string)
    requires ReadJsonTail(text).Found?
    ensures ReadJsonTail(text + more) == Found(ReadJsonTail(text).value, ReadJsonTail(text).rest + more)
    decreases |text|
  {
    hide ReadJsonEscape;
    assert (text + more)[1..] == text[1..] + more;
    if text[0] == '\\' {
      ReadJsonEscapeExtends(text[1..], more);
      ReadJsonTailExtends(ReadJsonEscape(text[1..]).rest, more);
    } else if text[0] != '"' {
      ReadJsonTailExtends(text[1..], more);
    }
  }

  /** A string is read alike whatever follows it. */
  lemma ReadJsonExtends(text: string, more: string)
    requires ReadJson(text).Found?
    ensures ReadJson(text + more) == Found(ReadJson(text).value, ReadJson(text).rest + more)
  {
    hide ReadJsonTail;
    assert (text + more)[1..] == text[1..] + more;
    ReadJsonTailExtends(text[1..], more);
  }

  lemma Hex4ReadsBack(n: nat, rest: string)
    requires n < 0x10000
    ensures ReadHex4(Hex(n, 4) + rest) == Found(n, rest)
  {
    assert Pow16(4) == 0x10000 by { HexValueBound(""); }
    var digits := Hex(n, 4);
    HexRoundTrip(n, 4);
    HexIsLowered(n, 4);
    assert forall i | 0 <= i < |digits| :: digits[i] in digits && Lowered(digits)[i] == digits[i];
    assert Lowered(digits) == digits;
    hide Hex, HexValue, Lowered;
    assert (digits + rest)[..4] == digits && (digits + rest)[4..] == rest;
  }

  lemma UnicodeEscapeReadsBack(n: nat, rest: string)
    requires n < 0x10000 && IsScalar(n)
    ensures ReadJsonEscape("u" + Hex(n, 4) + rest) == Found(n as char, rest)
  {
    hide ReadHex4, Hex;
    Hex4ReadsBack(n, rest);
    var text := "u" + Hex(n, 4) + rest;
    assert text[0] == 'u' && text[1..] == Hex(n, 4) + rest;
  }

  lemma {:induction false} HexIsLowered(n: nat, w: nat)
    ensures forall c | c in Hex(n, w) :: !('A' <= c <= 'F')
  {
    if w > 0 {
      HexIsLowered(n / 16, w - 1);
    }
  }

  lemma HexOfFour(n: nat)
    requires n < 0x10000
    ensures Hex(n, 4) == [HexDigit(n / 16 / 16 / 16 % 16), HexDigit(n / 16 / 16 % 16), HexDigit(n / 16 % 16), HexDigit(n % 16)]
  {
    assert Hex(n / 16 / 16 / 16, 1) == Hex(n / 16 / 16 / 16 / 16, 0) + [HexDigit(n / 16 / 16 / 16 % 16)];
    assert Hex(n / 16 / 16, 2) == Hex(n / 16 / 16 / 16, 1) + [HexDigit(n / 16 / 16 % 16)];
    assert Hex(n / 16, 3) == Hex(n / 16 / 16, 2) + [HexDigit(n / 16 % 16)];
  }

  /** Every character reads back from how it is written. */
  lemma JsonEscapeReadsBack(c: char, rest: string)
    ensures var text := JsonEscape(c) + rest;
            text[0] >= ' ' && text[0] != '"'
            && (if text[0] == '\\' then ReadJsonEscape(text[1..]) == Found(c, rest) else text == [c] + rest)
  {
    var escape := JsonEscape(c);
    var text := escape + rest;
    assert text[1..] == escape[1..] + rest;
    if |escape| == 6 {
      HexOfFour(c as nat);
      assert escape[1..] == "u" + Hex(c as nat, 4);
      UnicodeEscapeReadsBack(c as nat, rest);
    } else if |escape| == 2 {
      assert escape[1..] + rest == [escape[1]] + rest;
      assert ([escape[1]] + rest)[1..] == rest;
    }
  }

  lemma {:induction false} JsonTailReadsBack(s: string, rest: string)
    ensures ReadJsonTail(JsonEscapes(s) + "\"" + rest) == Found(s, rest)
  {
    var text := JsonEscapes(s) + "\"" + rest;
    if s == "" {
      assert text[1..] == rest;
    } else {
      hide JsonEscape, ReadJsonEscape;
      var after := JsonEscapes(s[1..]) + "\"" + rest;
      assert text == JsonEscape(s[0]) + after;
      JsonEscapeReadsBack(s[0], after);
      JsonTailReadsBack(s[1..], rest);
      assert [s[0]] + s[1..] == s;
      assert text[0] != '\\' ==> text[1..] == after;
    }
  }

  /** A JSON reader reads back every string the encoder quotes, and nothing after it. */
  lemma JsonRoundTrip(s: string, rest: string)
    ensures ReadJson(JsonQuote(s) + rest) == Found(s, rest)
  {
    assert (JsonQuote(s) + rest)[1..] == JsonEscapes(s) + "\"" + rest;
    JsonTailReadsBack(s, rest);
  }

  lemma {:induction false} JsonEscapesAppend(a: string, b: string)
    ensures JsonEscapes(a + b) == JsonEscapes(a) + JsonEscapes(b)
  {
    if a == "" {
      assert a + b == b;
    } else {
      assert (a + b)[1..] == a[1..] + b;
      JsonEscapesAppend(a[1..], b);
    }
  }

  lemma {:induction false} PlainIsItself(s: string)
    requires forall c | c in s :: Plain(c)
    ensures JsonEscapes(s) == s
  {
    if s != "" {
      assert s[0] in s && forall c | c in s[1..] :: c in s;
      PlainIsItself(s[1..]);
    }
  }

  lemma NothingEscaped(s: string)
    ensures JsonEscapes(s[..0]) == ""
  {
  }

  lemma FlushRun(s: string, start: nat, i: nat)
    requires start <= i < |s| && forall c | c in s[start..i] :: Plain(c)
    ensures JsonEscapes(s[..i + 1]) == JsonEscapes(s[..start]) + s[start..i] + JsonEscape(s[i])
  {
    hide JsonEscape;
    PlainIsItself(s[start..i]);
    JsonEscapesAppend(s[..start], s[start..i]);
    assert s[..start] + s[start..i] == s[..i];
    JsonEscapesAppend(s[..i], [s[i]]);
    assert s[..i] + [s[i]] == s[..i + 1];
    assert JsonEscapes([s[i]]) == JsonEscape(s[i]) + JsonEscapes([s[i]][1..]);
  }

  lemma FlushRest(s: string, start: nat)
    requires start <= |s| && forall c | c in s[start..] :: Plain(c)
    ensures JsonEscapes(s) == JsonEscapes(s[..start]) + s[start..]
  {
    hide JsonEscape, JsonEscapes;
    PlainIsItself(s[start..]);
    JsonEscapesAppend(s[..start], s[start..]);
    assert s[..start] + s[start..] == s;
  }

  /** Strings quoted, a comma between two. */
  function Listed(strings: seq<string>): string {
    if |strings| == 0 then ""
    else if |strings| == 1 then JsonQuote(strings[0])
    else JsonQuote(strings[0]) + "," + Listed(strings[1..])
  }

  lemma {:induction false} ListedAppend(strings: seq<string>, s: string)
    ensures Listed(strings + [s]) == Listed(strings) + (if strings == [] then "" else ",") + JsonQuote(s)
  {
    if strings == [] {
      assert strings + [s] == [s];
    } else {
      assert (strings + [s])[1..] == strings[1..] + [s];
      ListedAppend(strings[1..], s);
    }
  }

  // ---- Values ----

  /** The values the engine writes whole: strings, flags, lists and objects. */
  datatype Json = Text(text: string) | Flag(flag: bool) | List(items: seq<Json>) | Object(members: seq<Member>)

  datatype Member = Member(name: string, value: Json)

  function Write(j: Json): string
    decreases j, 0
  {
    match j
    case Text(text) => JsonQuote(text)
    case Flag(flag) => if flag then "true" else "false"
    case List(items) => "[" + Strings.Join(WriteAll(items), ",") + "]"
    case Object(members) => "{" + Strings.Join(MemberTexts(members), ",") + "}"
  }

  function WriteAll(items: seq<Json>): (texts: seq<string>)
    ensures |texts| == |items|
    decreases items
  {
    if items == [] then [] else [Write(items[0])] + WriteAll(items[1..])
  }

  function MemberText(name: string, j: Json): string
    decreases j, 1
  {
    "\"" + name + "\":" + Write(j)
  }

  function MemberTexts(members: seq<Member>): (texts: seq<string>)
    ensures |texts| == |members|
    decreases members
  {
    if members == [] then [] else [MemberText(members[0].name, members[0].value)] + MemberTexts(members[1..])
  }

  /** Members are named by words that need no escape, as the encoder's callers name them. */
  predicate PlainNames(j: Json)
    decreases j
  {
    match j
    case Text(_) => true
    case Flag(_) => true
    case List(items) => forall i | i in items :: PlainNames(i)
    case Object(members) => forall m | m in members :: PlainName(m.name) && PlainNames(m.value)
  }

  predicate PlainName(name: string) {
    forall c | c in name :: Plain(c)
  }

  // ---- The reader: sections 3 to 5 of RFC 8259, of text without space between tokens ----

  function ReadValue(text: string): (r: Read<Json>)
    ensures r.Found? ==> |r.rest| < |text|
    decreases |text|, 0
  {
    if text == "" then Failed
    else if text[0] == 't' then if "true" <= text then Found(Flag(true), text[4..]) else Failed
    else if text[0] == 'f' then if "false" <= text then Found(Flag(false), text[5..]) else Failed
    else if text[0] == '"' then var q := ReadJson(text); if q.Failed? then Failed else Found(Text(q.value), q.rest)
    else if text[0] == '[' then
      if |text| > 1 && text[1] == ']' then Found(List([]), text[2..])
      else var items := ReadItems(text[1..]); if items.Failed? then Failed else Found(List(items.value), items.rest)
    else if text[0] == '{' then
      if |text| > 1 && text[1] == '}' then Found(Object([]), text[2..])
      else var members := ReadMembers(text[1..]); if members.Failed? then Failed else Found(Object(members.value), members.rest)
    else Failed
  }

  /** The items of a list, to its closing bracket. */
  function ReadItems(text: string): (r: Read<seq<Json>>)
    ensures r.Found? ==> |r.rest| < |text|
    decreases |text|, 1
  {
    var item := ReadValue(text);
    if item.Failed? then Failed
    else if item.rest != "" && item.rest[0] == ']' then Found([item.value], item.rest[1..])
    else if item.rest != "" && item.rest[0] == ',' then
      var more := ReadItems(item.rest[1..]);
      if more.Failed? then Failed else Found([item.value] + more.value, more.rest)
    else Failed
  }

  /** The members of an object, to its closing brace. */
  function ReadMembers(text: string): (r: Read<seq<Member>>)
    ensures r.Found? ==> |r.rest| < |text|
    decreases |text|, 1
  {
    var name := ReadJson(text);
    if name.Failed? || name.rest == "" || name.rest[0] != ':' then Failed
    else
      var value := ReadValue(name.rest[1..]);
      if value.Failed? then Failed
      else if value.rest != "" && value.rest[0] == '}' then Found([Member(name.value, value.value)], value.rest[1..])
      else if value.rest != "" && value.rest[0] == ',' then
        var more := ReadMembers(value.rest[1..]);
        if more.Failed? then Failed else Found([Member(name.value, value.value)] + more.value, more.rest)
      else Failed
  }

  /** The first byte of a value tells what it is. */
  lemma WriteStarts(j: Json, rest: string)
    ensures var text := Write(j) + rest;
            text != "" && text[0] == match j case Text(_) => '"' case Flag(f) => (if f then 't' else 'f') case List(_) => '[' case Object(_) => '{'
  {
    hide JsonEscapes;
  }

  /** A value written is read back, whatever follows it. */
  lemma {:induction false} ValueReadsBack(j: Json, rest: string)
    requires PlainNames(j)
    ensures ReadValue(Write(j) + rest) == Found(j, rest)
    decreases j, 2
  {
    hide ReadJson, JsonQuote;
    match j
    case Text(text) =>
      TextReadsBack(text, rest);
    case Flag(flag) =>
      StartsWithSelf(if flag then "true" else "false", rest);
    case List(items) =>
      if items == [] {
        assert Write(j) + rest == "[]" + rest && ("[]" + rest)[2..] == rest;
      } else {
        ItemsReadBack(items, rest);
        ListOpens(items, rest);
      }
    case Object(members) =>
      if members == [] {
        assert Write(j) + rest == "{}" + rest && ("{}" + rest)[2..] == rest;
      } else {
        MembersReadBack(members, rest);
        ObjectOpens(members, rest);
      }
  }

  lemma TextReadsBack(text: string, rest: string)
    ensures ReadValue(JsonQuote(text) + rest) == Found(Text(text), rest)
  {
    hide ReadJson;
    JsonRoundTrip(text, rest);
    assert (JsonQuote(text) + rest)[0] == '"';
  }

  lemma ListOpens(items: seq<Json>, rest: string)
    requires items != [] && ReadItems(Strings.Join(WriteAll(items), ",") + ("]" + rest)) == Found(items, rest)
    ensures ReadValue(Write(List(items)) + rest) == Found(List(items), rest)
  {
    hide ReadItems, WriteAll, Strings.Join;
    var inner := Strings.Join(WriteAll(items), ",") + ("]" + rest);
    assert Write(List(items)) + rest == "[" + inner && ("[" + inner)[1..] == inner;
    assert inner[0] != ']' by {
      ItemsStart(items, "]" + rest);
    }
  }

  lemma ItemsStart(items: seq<Json>, rest: string)
    requires items != []
    ensures var text := Strings.Join(WriteAll(items), ",") + rest; text != "" && text[0] != ']'
  {
    hide Write;
    WriteStarts(items[0], "");
    assert Write(items[0]) + "" == Write(items[0]);
  }

  lemma {:induction false} ItemsReadBack(items: seq<Json>, rest: string)
    requires items != [] && forall i | i in items :: PlainNames(i)
    ensures ReadItems(Strings.Join(WriteAll(items), ",") + ("]" + rest)) == Found(items, rest)
    decreases items, 1
  {
    hide ReadValue, Write, Strings.Join;
    var after := if |items| == 1 then "]" + rest else "," + (Strings.Join(WriteAll(items[1..]), ",") + ("]" + rest));
    assert WriteAll(items)[1..] == WriteAll(items[1..]);
    JoinOpens(WriteAll(items), ",", "]" + rest);
    ValueReadsBack(items[0], after);
    if |items| > 1 {
      ItemsReadBack(items[1..], rest);
      assert items == [items[0]] + items[1..];
    } else {
      assert after[1..] == rest;
      assert items == [items[0]];
    }
  }

  lemma ObjectOpens(members: seq<Member>, rest: string)
    requires members != [] && ReadMembers(Strings.Join(MemberTexts(members), ",") + ("}" + rest)) == Found(members, rest)
    ensures ReadValue(Write(Object(members)) + rest) == Found(Object(members), rest)
  {
    hide ReadMembers, MemberTexts, Strings.Join;
    var inner := Strings.Join(MemberTexts(members), ",") + ("}" + rest);
    assert Write(Object(members)) + rest == "{" + inner && ("{" + inner)[1..] == inner;
    assert inner[0] != '}' by {
      MembersStart(members, "}" + rest);
    }
  }

  lemma MembersStart(members: seq<Member>, rest: string)
    requires members != []
    ensures var text := Strings.Join(MemberTexts(members), ",") + rest; text != "" && text[0] == '"'
  {
    hide Write;
  }

  /** A member's name is read back as it stands. */
  lemma NameReadsBack(name: string, after: string)
    requires PlainName(name)
    ensures ReadJson("\"" + name + "\":" + after) == Found(name, ":" + after)
  {
    hide ReadJson, JsonEscapes;
    PlainIsItself(name);
    JsonRoundTrip(name, ":" + after);
    assert JsonQuote(name) + (":" + after) == "\"" + name + "\":" + after;
  }

  /** One member read, and what is read behind it. */
  lemma MemberRead(m: Member, after: string)
    requires PlainName(m.name) && ReadValue(Write(m.value) + after) == Found(m.value, after) && after != ""
    ensures var r := ReadMembers(MemberText(m.name, m.value) + after);
            && (after[0] == '}' ==> r == Found([m], after[1..]))
            && (after[0] == ',' ==>
                  var more := ReadMembers(after[1..]);
                  r == if more.Failed? then Failed else Found([m] + more.value, more.rest))
  {
    hide ReadValue, Write, ReadJson, PlainName;
    assert MemberText(m.name, m.value) + after == "\"" + m.name + "\":" + (Write(m.value) + after);
    NameReadsBack(m.name, Write(m.value) + after);
    assert (":" + (Write(m.value) + after))[1..] == Write(m.value) + after;
  }

  lemma {:induction false} MembersReadBack(members: seq<Member>, rest: string)
    requires members != [] && forall m | m in members :: PlainName(m.name) && PlainNames(m.value)
    ensures ReadMembers(Strings.Join(MemberTexts(members), ",") + ("}" + rest)) == Found(members, rest)
    decreases members, 1
  {
    hide ReadValue, MemberText, ReadMembers, PlainName, Write, MemberTexts, Strings.Join;
    var m, after := members[0], AfterFirst(members, rest);
    FirstThenRest(members, rest);
    ValueReadsBack(m.value, after);
    MemberRead(m, after);
    if |members| > 1 {
      MembersReadBack(members[1..], rest);
      assert after[1..] == Strings.Join(MemberTexts(members[1..]), ",") + ("}" + rest);
      assert members == [m] + members[1..];
    } else {
      assert after[1..] == rest;
      assert members == [m];
    }
  }

  /** What stands behind the first member of an object. */
  function AfterFirst(members: seq<Member>, rest: string): (after: string)
    requires members != []
    ensures after != "" && after[0] == if |members| == 1 then '}' else ','
  {
    if |members| == 1 then "}" + rest else "," + (Strings.Join(MemberTexts(members[1..]), ",") + ("}" + rest))
  }

  lemma FirstThenRest(members: seq<Member>, rest: string)
    requires members != []
    ensures Strings.Join(MemberTexts(members), ",") + ("}" + rest) == MemberText(members[0].name, members[0].value) + AfterFirst(members, rest)
  {
    hide MemberText, Strings.Join;
    assert MemberTexts(members)[1..] == MemberTexts(members[1..]);
    JoinOpens(MemberTexts(members), ",", "}" + rest);
  }

  // ---- The encoder ----

  lemma {:induction false} TextsOfMore(members: seq<Member>, m: Member)
    ensures MemberTexts(members + [m]) == MemberTexts(members) + [MemberText(m.name, m.value)]
  {
    hide MemberText;
    if members == [] {
      assert members + [m] == [m];
    } else {
      assert (members + [m])[1..] == members[1..] + [m];
      TextsOfMore(members[1..], m);
    }
  }

  lemma MemberTextsAppend(members: seq<Member>, name: string, j: Json)
    ensures Strings.Join(MemberTexts(members + [Member(name, j)]), ",") ==
            Strings.Join(MemberTexts(members), ",") + (if members == [] then "" else ",") + MemberText(name, j)
  {
    hide MemberText, Strings.Join;
    TextsOfMore(members, Member(name, j));
    JoinAppend(MemberTexts(members), ",", MemberText(name, j));
  }

  lemma {:induction false} WrittenMore(items: seq<Json>, j: Json)
    ensures WriteAll(items + [j]) == WriteAll(items) + [Write(j)]
  {
    hide Write;
    if items == [] {
      assert items + [j] == [j];
    } else {
      assert (items + [j])[1..] == items[1..] + [j];
      WrittenMore(items[1..], j);
    }
  }

  lemma ItemsAppend(items: seq<Json>, j: Json)
    ensures Strings.Join(WriteAll(items + [j]), ",") == Strings.Join(WriteAll(items), ",") + (if items == [] then "" else ",") + Write(j)
  {
    hide Write, Strings.Join;
    WrittenMore(items, j);
    JoinAppend(WriteAll(items), ",", Write(j));
  }

  lemma OneItemMore(before: string, items: seq<Json>, i: nat)
    requires i < |items|
    ensures before + ("[" + Strings.Join(WriteAll(items[..i]), ",")) + (if i > 0 then "," else "") + Write(items[i])
            == before + ("[" + Strings.Join(WriteAll(items[..i + 1]), ","))
  {
    hide Write, WriteAll, Strings.Join;
    ItemsAppend(items[..i], items[i]);
    assert items[..i + 1] == items[..i] + [items[i]];
  }

  /** What is written of an object left open behind before. */
  function Opened(before: string, members: seq<Member>): string {
    before + "{" + Strings.Join(MemberTexts(members), ",")
  }

  /** What is written of it once a member's name is. */
  function Keyed(before: string, members: seq<Member>, name: string): string {
    Opened(before, members) + (if members == [] then "" else ",") + "\"" + name + "\":"
  }

  /** A value written behind a member's name is that member's: any value, an object written whole among them. */
  lemma ValueClosesItsMember(before: string, members: seq<Member>, name: string, j: Json)
    ensures Keyed(before, members, name) + Write(j) == Opened(before, members + [Member(name, j)])
  {
    hide MemberTexts, Strings.Join, Write;
    MemberTextsAppend(members, name, j);
    Regroup(before + "{", Strings.Join(MemberTexts(members), ","), if members == [] then "" else ",", "\"", name, "\":", Write(j));
  }

  lemma Regroup(before: string, written: string, comma: string, open: string, name: string, close: string, value: string)
    ensures before + written + comma + open + name + close + value == before + (written + comma + (open + name + close + value))
  {
  }

  /** One line of a finding's suggestions. */
  datatype Asked = Asked(declaration: string, question: string, declared: bool)

  function AskedObject(a: Asked): Json {
    Object([Member("declaration", Text(a.declaration)), Member("question", Text(a.question)), Member("declared", Flag(a.declared))])
  }

  function AskedObjects(asked: seq<Asked>): (items: seq<Json>)
    ensures |items| == |asked| && forall i | 0 <= i < |asked| :: items[i] == AskedObject(asked[i])
  {
    if asked == [] then [] else [AskedObject(asked[0])] + AskedObjects(asked[1..])
  }

  class Encoder {
    var b: string
    var n: nat

    constructor ()
      ensures b == "" && n == 0
    {
      b, n := "", 0;
    }

    /** An object is left open behind before, holding these members. */
    ghost predicate InObject(before: string, members: seq<Member>)
      reads this
    {
      b == Opened(before, members) && n == |members|
    }

    method Begin() returns (saved: nat)
      modifies this
      ensures InObject(old(b), []) && saved == old(n)
    {
      saved := n;
      n := 0;
      b := b + ['{'];
    }

    /** Closes the object: behind before it is written whole, and the object around it counts as it did. */
    method End(saved: nat, ghost before: string, ghost members: seq<Member>)
      requires InObject(before, members)
      modifies this
      ensures b == before + Write(Object(members)) && n == saved
    {
      hide MemberTexts, Strings.Join;
      assert before + ("{" + Strings.Join(MemberTexts(members), ",") + "}") == b + "}";
      b := b + ['}'];
      n := saved;
    }

    method Key(name: string, ghost before: string, ghost members: seq<Member>)
      requires InObject(before, members)
      modifies this
      ensures b == Keyed(before, members, name) && n == |members| + 1
    {
      if n > 0 {
        b := b + [','];
      }
      n := n + 1;
      b := b + ['"'];
      b := b + name;
      b := b + ['"', ':'];
    }

    method Comma(i: nat)
      modifies this`b
      ensures b == old(b) + if i > 0 then "," else ""
    {
      if i > 0 {
        b := b + [','];
      }
    }

    /** What stands for a character that cannot stand in a string itself. */
    method WriteEscape(c: char)
      requires !Plain(c)
      modifies this`b
      ensures b == old(b) + JsonEscape(c)
    {
      if c == '\\' || c == '"' {
        b := b + ['\\', c];
      } else if c == '\U{8}' {
        b := b + ['\\', 'b'];
      } else if c == '\U{C}' {
        b := b + ['\\', 'f'];
      } else if c == '\n' {
        b := b + ['\\', 'n'];
      } else if c == '\r' {
        b := b + ['\\', 'r'];
      } else if c == '\t' {
        b := b + ['\\', 't'];
      } else if c == '\U{2028}' || c == '\U{2029}' {
        b := b + ['\\', 'u', '2', '0', '2', HexDigit(c as nat % 16)];
      } else {
        b := b + ['\\', 'u', '0', '0', HexDigit(c as nat / 16 % 16), HexDigit(c as nat % 16)];
      }
    }

    /** Copies plain runs whole, and writes what cannot stand in a string escaped. */
    method Quote(s: string)
      modifies this`b
      ensures b == old(b) + JsonQuote(s)
    {
      hide JsonEscape, JsonEscapes;
      b := b + ['"'];
      NothingEscaped(s);
      var start, i := 0, 0;
      while i < |s|
        invariant 0 <= start <= i <= |s|
        invariant b == old(b) + "\"" + JsonEscapes(s[..start])
        invariant forall c | c in s[start..i] :: Plain(c)
      {
        assert s[start..i + 1] == s[start..i] + [s[i]];
        if Plain(s[i]) {
          i := i + 1;
        } else {
          FlushRun(s, start, i);
          b := b + s[start..i];
          WriteEscape(s[i]);
          i := i + 1;
          start := i;
        }
      }
      FlushRest(s, start);
      b := b + s[start..];
      b := b + ['"'];
    }

    /** Every string quoted, a comma between two. */
    method QuoteAll(strings: seq<string>)
      modifies this`b
      ensures b == old(b) + Listed(strings)
    {
      hide JsonQuote;
      for i := 0 to |strings|
        invariant b == old(b) + Listed(strings[..i])
      {
        Comma(i);
        Quote(strings[i]);
        ListedAppend(strings[..i], strings[i]);
        assert strings[..i + 1] == strings[..i] + [strings[i]];
      }
      assert strings[..|strings|] == strings;
    }

    /** A member that holds a string: the object is left open, with it added. */
    method Str(name: string, v: string, ghost before: string, ghost members: seq<Member>)
      requires InObject(before, members)
      modifies this
      ensures InObject(before, members + [Member(name, Text(v))])
    {
      hide JsonQuote, Opened, Keyed;
      Key(name, before, members);
      Quote(v);
      ValueClosesItsMember(before, members, name, Text(v));
    }

    /** The same, except that an empty string adds nothing, not even a comma. */
    method StrOmit(name: string, v: string, ghost before: string, ghost members: seq<Member>)
      requires InObject(before, members)
      modifies this
      ensures InObject(before, if v == "" then members else members + [Member(name, Text(v))])
    {
      if v != "" {
        Str(name, v, before, members);
      }
    }

    method Boolean(name: string, v: bool, ghost before: string, ghost members: seq<Member>)
      requires InObject(before, members)
      modifies this
      ensures InObject(before, members + [Member(name, Flag(v))])
    {
      hide Opened, Keyed;
      Key(name, before, members);
      b := b + if v then "true" else "false";
      ValueClosesItsMember(before, members, name, Flag(v));
    }

    /** One owner asked about, written whole as an object. */
    method WriteAsked(a: Asked)
      modifies this
      ensures b == old(b) + Write(AskedObject(a)) && n == old(n)
    {
      hide Opened, Write;
      ghost var before := b;
      var saved := Begin();
      Str("declaration", a.declaration, before, []);
      Str("question", a.question, before, [] + [Member("declaration", Text(a.declaration))]);
      ghost var two := [] + [Member("declaration", Text(a.declaration))] + [Member("question", Text(a.question))];
      Boolean("declared", a.declared, before, two);
      assert two + [Member("declared", Flag(a.declared))] == AskedObject(a).members;
      End(saved, before, AskedObject(a).members);
    }

    /** The owners asked about: one member more of the object around them, its objects read back as they were. */
    method Suggested(asked: seq<Asked>, ghost before: string, ghost members: seq<Member>)
      requires InObject(before, members)
      modifies this
      ensures InObject(before, members + [Member("suggested", List(AskedObjects(asked)))])
    {
      hide Opened, Keyed, AskedObject, Strings.Join, WriteAll;
      Key("suggested", before, members);
      ghost var keyed := b;
      b := b + ['['];
      ghost var items := AskedObjects(asked);
      NoItems();
      for i := 0 to |asked|
        invariant b == keyed + ("[" + Strings.Join(WriteAll(items[..i]), ",")) && n == |members| + 1
      {
        Comma(i);
        WriteAsked(asked[i]);
        OneItemMore(keyed, items, i);
      }
      assert items[..|asked|] == items;
      b := b + [']'];
      assert b == keyed + ("[" + Strings.Join(WriteAll(items), ",") + "]");
      ValueClosesItsMember(before, members, "suggested", List(items));
    }
  }

  lemma NoItems()
    ensures Strings.Join(WriteAll([]), ",") == ""
  {
  }
}

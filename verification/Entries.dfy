/** One claim with its constraint, as an answer and a finding's id write it: claim=rendering (internal/report/findingid.go). */
module Entries {
  import opened Strings
  import opened Quoting
  import opened StringSets
  import opened Renderings
  import opened Terms

  // ---- What stands inside quotes ----

  /** Where a reader stands in a rendering; Broken behind an equals sign or a backslash outside quotes, which none holds. */
  datatype Mark = Bare | Quoted | Escaped | Broken

  function Next(m: Mark, c: char): Mark {
    match m
    case Bare => if c == '"' then Quoted else if c == '=' || c == '\\' then Broken else Bare
    case Quoted => if c == '"' then Bare else if c == '\\' then Escaped else Quoted
    case Escaped => Quoted
    case Broken => Broken
  }

  function After(m: Mark, text: string): Mark
    decreases |text|
  {
    if text == "" then m else After(Next(m, text[0]), text[1..])
  }

  lemma {:induction false} AfterBoth(m: Mark, a: string, b: string)
    ensures After(m, a + b) == After(After(m, a), b)
    decreases |a|
  {
    if a == "" {
      assert a + b == b;
    } else {
      assert (a + b)[1..] == a[1..] + b;
      AfterBoth(Next(m, a[0]), a[1..], b);
    }
  }

  lemma {:induction false} StaysBroken(text: string)
    ensures After(Broken, text) == Broken
  {
    if text != "" {
      StaysBroken(text[1..]);
    }
  }

  /** No text brings a reader outside quotes out of them both from outside and from inside. */
  lemma {:induction false} OneWayOut(text: string)
    ensures !(After(Bare, text) == Bare && After(Quoted, text) == Bare)
  {
    if text != "" {
      OneWayOut(text[1..]);
      StaysBroken(text[1..]);
    }
  }

  // ---- A rendering is read outside quotes, whole ----

  predicate Unmarked(text: string) {
    forall c | c in text :: c != '"' && c != '\\' && c != '='
  }

  lemma {:induction false} UnmarkedStays(text: string)
    requires Unmarked(text)
    ensures After(Bare, text) == Bare && After(Quoted, text) == Quoted
  {
    if text != "" {
      assert text[0] in text && forall c | c in text[1..] :: c in text;
      UnmarkedStays(text[1..]);
    }
  }

  lemma {:induction false} HexIsUnmarked(n: nat, w: nat)
    ensures Unmarked(Hex(n, w))
  {
    if w > 0 {
      HexIsUnmarked(n / 16, w - 1);
    }
  }

  lemma EscapeStaysQuoted(c: char)
    ensures After(Quoted, Escape(c)) == Quoted
  {
    var e := Escape(c);
    if e[0] == '\\' {
      assert e[1..][1..] == e[2..] && After(Quoted, e) == After(Escaped, e[1..]) == After(Quoted, e[2..]);
      if |e| > 2 {
        EscapeIsHex(c);
        assert e[2..] == Hex(c as nat, |e| - 2);
        HexIsUnmarked(c as nat, |e| - 2);
        UnmarkedStays(e[2..]);
      }
    } else {
      assert e[1..] == "";
    }
  }

  lemma {:induction false} EscapesStayQuoted(text: string)
    ensures After(Quoted, EscapeAll(text)) == Quoted
  {
    if text != "" {
      hide Escape;
      EscapeStaysQuoted(text[0]);
      EscapesStayQuoted(text[1..]);
      AfterBoth(Quoted, Escape(text[0]), EscapeAll(text[1..]));
    }
  }

  lemma QuoteStaysBare(text: string)
    ensures After(Bare, Quote(text)) == Bare
  {
    hide EscapeAll;
    EscapesStayQuoted(text);
    var inner := EscapeAll(text) + "\"";
    assert Quote(text) == "\"" + inner && Quote(text)[1..] == inner;
    AfterBoth(Quoted, EscapeAll(text), "\"");
    assert "\""[1..] == "";
  }

  lemma {:induction false} JoinStaysBare(texts: seq<string>, sep: string)
    requires Unmarked(sep) && forall t | t in texts :: After(Bare, t) == Bare
    ensures After(Bare, Strings.Join(texts, sep)) == Bare
  {
    if |texts| > 1 {
      hide After;
      JoinStaysBare(texts[1..], sep);
      UnmarkedStays(sep);
      AfterBoth(Bare, texts[0] + sep, Strings.Join(texts[1..], sep));
      AfterBoth(Bare, texts[0], sep);
    } else if texts == [] {
      UnmarkedStays("");
    }
  }

  lemma WrappedStaysBare(open: string, text: string, close: string)
    requires Unmarked(open) && Unmarked(close) && After(Bare, text) == Bare
    ensures After(Bare, open + text + close) == Bare
  {
    hide After;
    UnmarkedStays(open);
    UnmarkedStays(close);
    AfterBoth(Bare, open, text);
    AfterBoth(Bare, open + text, close);
  }

  lemma {:induction false} QuotesStayBare(reasons: seq<string>)
    ensures forall t | t in Quotes(reasons) :: After(Bare, t) == Bare
  {
    if reasons != [] {
      hide Quote, After;
      QuoteStaysBare(reasons[0]);
      QuotesStayBare(reasons[1..]);
    }
  }

  lemma PatternStaysBare(pattern: string)
    ensures After(Bare, RenderPattern(pattern)) == Bare
  {
    hide Quote, After;
    QuoteStaysBare(pattern);
    UnmarkedStays("like:");
    AfterBoth(Bare, "like:", Quote(pattern));
  }

  lemma {:induction false} PatternsStayBare(patterns: seq<string>)
    ensures forall t | t in RenderPatterns(patterns) :: After(Bare, t) == Bare
  {
    if patterns != [] {
      hide RenderPattern, After;
      PatternStaysBare(patterns[0]);
      PatternsStayBare(patterns[1..]);
    }
  }

  /** A rendering is read from outside quotes to outside quotes, and holds an equals sign only inside them. */
  lemma {:induction false} RenderingStaysBare(s: StringSet)
    ensures After(Bare, Render(s)) == Bare
    decreases s, 1
  {
    hide After, Quote;
    match s
    case Exact(value) =>
      QuoteStaysBare(value);
    case Glob(pattern) =>
      PatternStaysBare(pattern);
    case Unknown(reasons) =>
      QuotesStayBare(reasons);
      JoinStaysBare(Quotes(reasons), ", ");
      WrappedStaysBare("?(", Strings.Join(Quotes(reasons), ", "), ")");
    case Union(members) =>
      MembersStayBare(members);
      JoinStaysBare(Renders(members), " | ");
      WrappedStaysBare("(", Strings.Join(Renders(members), " | "), ")");
    case Inter(patterns) =>
      PatternsStayBare(patterns);
      JoinStaysBare(RenderPatterns(patterns), " & ");
      WrappedStaysBare("(", Strings.Join(RenderPatterns(patterns), " & "), ")");
    case Full =>
      UnmarkedStays("*");
    case Empty =>
      UnmarkedStays("\U{2205}");
  }

  lemma {:induction false} MembersStayBare(members: seq<StringSet>)
    ensures forall t | t in Renders(members) :: After(Bare, t) == Bare
    decreases members, 0
  {
    if members != [] {
      hide After;
      RenderingStaysBare(members[0]);
      MembersStayBare(members[1..]);
    }
  }

  // ---- An entry is read back ----

  function Entry(claim: string, s: StringSet): string {
    claim + "=" + Render(s)
  }

  /** No rendering ends in an equals sign and a rendering. */
  lemma NoEntryInside(x: string, s: StringSet, t: StringSet)
    ensures Render(s) != x + ("=" + Render(t))
  {
    hide Render;
    RenderingStaysBare(s);
    RenderingStaysBare(t);
    OneWayOut(Render(t));
    StaysBroken(Render(t));
    AfterBoth(After(Bare, x), "=", Render(t));
    AfterBoth(Bare, x, "=" + Render(t));
    assert After(After(Bare, x), "=") == Next(After(Bare, x), '=') by {
      assert "="[1..] == "";
    }
  }

  /** Whatever its claim is named, an entry says which claim it is of, and which set it gives: its last equals sign outside quotes divides them. */
  lemma EntryIsInjective(a: string, s: StringSet, b: string, t: StringSet)
    requires s.Canonical() && t.Canonical() && Entry(a, s) == Entry(b, t)
    ensures a == b && s == t
  {
    hide Render;
    NoLongerName(a, s, b, t);
    NoLongerName(b, t, a, s);
    var x, y := Entry(a, s), Entry(b, t);
    assert a == x[..|a|] && b == y[..|b|];
    assert Render(s) == x[|a| + 1..] && Render(t) == y[|b| + 1..];
    assert Render(s) + "" == Render(s) && Render(t) + "" == Render(t);
    RenderingIsInjective(s, t, "", "");
  }

  lemma NoLongerName(a: string, s: StringSet, b: string, t: StringSet)
    ensures |a| < |b| ==> Entry(a, s) != Entry(b, t)
  {
    hide Render;
    if |a| < |b| {
      var x := b[|a| + 1..];
      assert Entry(a, s)[|a| + 1..] == Render(s);
      assert Entry(b, t)[|a| + 1..] == x + ("=" + Render(t));
      NoEntryInside(x, s, t);
    }
  }
}

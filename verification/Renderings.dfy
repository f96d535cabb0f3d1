/** Reading eval's renderings back (internal/report/constraint.go, remark.go; internal/join/witness.go). */
module Renderings {
  import opened Strings
  import opened Sorting
  import opened Quoting
  import opened StringSets

  /** The tree of a rendering: quoted values and patterns at the leaves, alternatives and conjunctions above. */
  datatype Constraint =
    | Value(text: string)
    | Pattern(text: string)
    | AnyOf(members: seq<Constraint>)
    | AllOf(members: seq<Constraint>)

  /** Every list holds two members or more. */
  predicate Listed(c: Constraint) {
    c.Value? || c.Pattern? || (|c.members| >= 2 && forall m | m in c.members :: Listed(m))
  }

  // ---- The reader ----

  function ParseConstraint(text: string): (r: Read<Constraint>)
    ensures r.Found? ==> |r.rest| < |text| && Listed(r.value)
    decreases |text|, 1
  {
    if "like:" <= text then
      var q := Unquote(text[5..]);
      if q.Found? then Found(Pattern(q.value), q.rest) else Failed
    else if "\"" <= text then
      var q := Unquote(text);
      if q.Found? then Found(Value(q.value), q.rest) else Failed
    else if "(" <= text then ParseMembers(text[1..])
    else Failed
  }

  /** What stands behind an opening parenthesis: at least two members, one separator throughout, patterns alone under " & ". */
  function ParseMembers(text: string): (r: Read<Constraint>)
    ensures r.Found? ==> |r.rest| < |text| && Listed(r.value)
    decreases |text|, 2
  {
    var first := ParseConstraint(text);
    if first.Failed? then Failed
    else
      var sep := if " & " <= first.rest then " & " else " | ";
      var more := ParseMore(first.rest, sep);
      if more.Failed? then Failed
      else CloseList([first.value] + more.value, more.rest, sep)
  }

  function ParseMore(text: string, sep: string): (r: Read<seq<Constraint>>)
    ensures r.Found? ==> |r.rest| <= |text| && forall m | m in r.value :: Listed(m)
    decreases |text|, 0
  {
    if |sep| > 0 && sep <= text then
      var m := ParseConstraint(text[|sep|..]);
      if m.Failed? then Failed
      else
        var more := ParseMore(m.rest, sep);
        if more.Failed? then Failed else Found([m.value] + more.value, more.rest)
    else Found([], text)
  }

  function CloseList(members: seq<Constraint>, rest: string, sep: string): (r: Read<Constraint>)
    requires forall m | m in members :: Listed(m)
    ensures r.Found? ==> |r.rest| < |rest| && Listed(r.value)
  {
    if |members| < 2 || !(")" <= rest) then Failed
    else if sep == " & " && exists m | m in members :: !m.Pattern? then Failed
    else Found(if sep == " & " then AllOf(members) else AnyOf(members), rest[1..])
  }

  method ReadConstraint(text: string) returns (r: Read<Constraint>)
    ensures r == ParseConstraint(text)
    decreases |text|, 1
  {
    if "like:" <= text {
      var q := Unquote(text[5..]);
      return if q.Found? then Found(Pattern(q.value), q.rest) else Failed;
    }
    if "\"" <= text {
      var q := Unquote(text);
      return if q.Found? then Found(Value(q.value), q.rest) else Failed;
    }
    if "(" <= text {
      r := ReadMembers(text[1..]);
      return r;
    }
    return Failed;
  }

  /** done, then what is read of the rest. */
  function Continued(done: seq<Constraint>, more: Read<seq<Constraint>>): Read<seq<Constraint>> {
    if more.Failed? then Failed else Found(done + more.value, more.rest)
  }

  lemma ReadOn(done: seq<Constraint>, rest: string, sep: string)
    requires |sep| == 3
    ensures !(sep <= rest) ==> Continued(done, ParseMore(rest, sep)) == Found(done, rest)
    ensures sep <= rest ==>
              var m := ParseConstraint(rest[3..]);
              Continued(done, ParseMore(rest, sep)) == if m.Failed? then Failed else Continued(done + [m.value], ParseMore(m.rest, sep))
  {
    hide ParseConstraint;
    if sep <= rest {
      var m := ParseConstraint(rest[3..]);
      if m.Found? && ParseMore(m.rest, sep).Found? {
        var more := ParseMore(m.rest, sep).value;
        assert done + ([m.value] + more) == (done + [m.value]) + more;
      }
    } else {
      assert done + [] == done;
    }
  }

  method ReadMembers(text: string) returns (r: Read<Constraint>)
    ensures r == ParseMembers(text)
    decreases |text|, 2
  {
    hide ParseConstraint, Unquote, CloseList, ParseMore, Continued;
    var first := ReadConstraint(text);
    if first.Failed? {
      return Failed;
    }
    var sep := if " & " <= first.rest then " & " else " | ";
    var members, rest := [first.value], first.rest;
    ghost var all := Continued([first.value], ParseMore(first.rest, sep));
    MembersContinue(text);
    while sep <= rest
      invariant |rest| < |text|
      invariant forall m | m in members :: Listed(m)
      invariant all == Continued(members, ParseMore(rest, sep))
      decreases |rest|
    {
      ReadOn(members, rest, sep);
      var m := ReadConstraint(rest[3..]);
      if m.Failed? {
        return Failed;
      }
      members, rest := members + [m.value], m.rest;
    }
    ReadOn(members, rest, sep);
    r := CloseList(members, rest, sep);
  }

  lemma MembersContinue(text: string)
    requires ParseConstraint(text).Found?
    ensures var first := ParseConstraint(text);
            var sep := if " & " <= first.rest then " & " else " | ";
            var all := Continued([first.value], ParseMore(first.rest, sep));
            && (all.Found? ==> forall m | m in all.value :: Listed(m))
            && ParseMembers(text) == if all.Failed? then Failed else CloseList(all.value, all.rest, sep)
  {
    hide ParseConstraint, CloseList, ParseMore;
  }

  /** The reasons of an Unknown, to the parenthesis that closes them. */
  function ParseReasons(text: string): (r: Read<seq<string>>)
    ensures r.Found? ==> |r.value| >= 1
    decreases |text|
  {
    var q := Unquote(text);
    if q.Failed? then Failed
    else if ")" <= q.rest then Found([q.value], q.rest[1..])
    else if ", " <= q.rest then
      var more := ParseReasons(q.rest[2..]);
      if more.Failed? then Failed else Found([q.value] + more.value, more.rest)
    else Failed
  }

  // ---- What is read is what was rendered ----

  /** A set whose rendering is in the reader's grammar. */
  ghost predicate Readable(s: StringSet)
    decreases s
  {
    match s
    case Exact(_) => true
    case Glob(_) => true
    case Union(members) => |members| >= 2 && forall m | m in members :: Readable(m)
    case Inter(patterns) => |patterns| >= 2
    case _ => false
  }

  function TreeOf(s: StringSet): Constraint
    requires Readable(s)
    decreases s
  {
    match s
    case Exact(value) => Value(value)
    case Glob(pattern) => Pattern(pattern)
    case Union(members) => AnyOf(TreesOf(members))
    case Inter(patterns) => AllOf(PatternTrees(patterns))
  }

  function TreesOf(members: seq<StringSet>): (trees: seq<Constraint>)
    requires forall m | m in members :: Readable(m)
    ensures |trees| == |members|
    decreases members
  {
    if members == [] then [] else [TreeOf(members[0])] + TreesOf(members[1..])
  }

  function PatternTrees(patterns: seq<string>): (trees: seq<Constraint>)
    ensures |trees| == |patterns| && forall t | t in trees :: t.Pattern?
  {
    if patterns == [] then [] else [Pattern(patterns[0])] + PatternTrees(patterns[1..])
  }

  /** The texts of a list after the first, each behind its separator. */
  function Tail(texts: seq<string>, sep: string): string {
    if texts == [] then "" else sep + texts[0] + Tail(texts[1..], sep)
  }

  lemma {:induction false} JoinIsFirstThenTail(texts: seq<string>, sep: string)
    requires |texts| >= 1
    ensures Join(texts, sep) == texts[0] + Tail(texts[1..], sep)
  {
    if |texts| > 1 {
      JoinIsFirstThenTail(texts[1..], sep);
      assert Tail(texts[1..], sep) == sep + texts[1] + Tail(texts[1..][1..], sep);
    }
  }

  lemma PatternReadsBack(pattern: string, rest: string)
    ensures ParseConstraint(RenderPattern(pattern) + rest) == Found(Pattern(pattern), rest)
  {
    var text := RenderPattern(pattern) + rest;
    assert text[..5] == "like:";
    assert text[5..] == Quote(pattern) + rest;
    QuoteRoundTrip(pattern, rest);
  }

  lemma {:induction false} PatternsReadBack(patterns: seq<string>, rest: string)
    requires !(" & " <= rest)
    ensures ParseMore(Tail(RenderPatterns(patterns), " & ") + rest, " & ") == Found(PatternTrees(patterns), rest)
  {
    hide Unquote, Quote, ParseConstraint, RenderPattern;
    var text := Tail(RenderPatterns(patterns), " & ") + rest;
    if patterns == [] {
      assert text == rest;
    } else {
      var after := Tail(RenderPatterns(patterns[1..]), " & ") + rest;
      assert RenderPatterns(patterns)[1..] == RenderPatterns(patterns[1..]);
      assert text == " & " + (RenderPattern(patterns[0]) + after);
      StartsWithSelf(" & ", RenderPattern(patterns[0]) + after);
      PatternReadsBack(patterns[0], after);
      PatternsReadBack(patterns[1..], rest);
    }
  }

  lemma ValueReadsBack(value: string, rest: string)
    ensures ParseConstraint(Quote(value) + rest) == Found(Value(value), rest)
  {
    var text := Quote(value) + rest;
    DiffersAt(text, "like:");
    assert text == "\"" + (EscapeAll(value) + "\"" + rest);
    StartsWithSelf("\"", EscapeAll(value) + "\"" + rest);
    QuoteRoundTrip(value, rest);
  }

  lemma IntersectionReadsBack(patterns: seq<string>, rest: string)
    requires |patterns| >= 2
    ensures ParseConstraint(Render(Inter(patterns)) + rest) == Found(AllOf(PatternTrees(patterns)), rest)
  {
    hide ParseConstraint, RenderPattern, Unquote, Quote;
    var texts := RenderPatterns(patterns);
    var after := Tail(texts[1..], " & ") + (")" + rest);
    assert texts[1..] == RenderPatterns(patterns[1..]);
    JoinIsFirstThenTail(texts, " & ");
    PatternReadsBack(patterns[0], after);
    DiffersAt(")" + rest, " & ");
    PatternsReadBack(patterns[1..], ")" + rest);
    ListOpens(Inter(patterns), texts, " & ", after, rest);
    StartsWithSelf(")", rest);
  }

  /** Printing and reading undo each other, and nothing after the rendering is read. */
  lemma {:induction false} RenderingReadsBack(s: StringSet, rest: string)
    requires Readable(s)
    ensures ParseConstraint(Render(s) + rest) == Found(TreeOf(s), rest)
    decreases s, 1
  {
    hide ParseConstraint, RenderPattern, Unquote, Quote;
    match s
    case Exact(value) =>
      ValueReadsBack(value, rest);
    case Glob(pattern) =>
      PatternReadsBack(pattern, rest);
    case Inter(patterns) =>
      IntersectionReadsBack(patterns, rest);
    case Union(members) =>
      var texts := Renders(members);
      var after := Tail(texts[1..], " | ") + (")" + rest);
      assert texts[1..] == Renders(members[1..]);
      JoinIsFirstThenTail(texts, " | ");
      RenderingReadsBack(members[0], after);
      DiffersAt(")" + rest, " | ");
      MembersReadBack(members[1..], ")" + rest);
      ListOpens(s, texts, " | ", after, rest);
      NotAnd(after);
      StartsWithSelf(")", rest);
  }

  lemma NotAnd(text: string)
    requires " | " <= text
    ensures !(" & " <= text)
  {
    assert text[1] == '|';
    DiffersAt(text, " & ", 1);
  }

  lemma ListOpens(s: StringSet, texts: seq<string>, sep: string, after: string, rest: string)
    requires |texts| >= 2 && Render(s) == "(" + Join(texts, sep) + ")"
    requires Join(texts, sep) == texts[0] + Tail(texts[1..], sep)
    requires after == Tail(texts[1..], sep) + (")" + rest)
    ensures ParseConstraint(Render(s) + rest) == ParseMembers(texts[0] + after)
    ensures sep <= after
  {
    var text := Render(s) + rest;
    assert text == "(" + (texts[0] + after);
    assert text[0] != "like:"[0] && text[0] != "\""[0];
    assert text[..1] == "(" && text[1..] == texts[0] + after;
    assert after[..|sep|] == sep;
  }

  lemma {:induction false} MembersReadBack(members: seq<StringSet>, rest: string)
    requires forall m | m in members :: Readable(m)
    requires !(" | " <= rest)
    ensures ParseMore(Tail(Renders(members), " | ") + rest, " | ") == Found(TreesOf(members), rest)
    decreases members, 0
  {
    var text := Tail(Renders(members), " | ") + rest;
    if members == [] {
      assert text == rest;
    } else {
      hide Readable, ParseConstraint, Render;
      var after := Tail(Renders(members[1..]), " | ") + rest;
      assert Renders(members)[1..] == Renders(members[1..]);
      assert text == " | " + (Render(members[0]) + after);
      RenderingReadsBack(members[0], after);
      MembersReadBack(members[1..], rest);
      hide Renders, Tail;
      OneMoreParsed(Render(members[0]), after, " | ");
    }
  }

  lemma OneMoreParsed(member: string, after: string, sep: string)
    requires sep != ""
    ensures var m := ParseConstraint(member + after);
            m.Found? && m.rest == after ==>
              ParseMore(sep + (member + after), sep) ==
                var more := ParseMore(after, sep);
                if more.Failed? then Failed else Found([m.value] + more.value, more.rest)
  {
    hide ParseConstraint;
    StartsWithSelf(sep, member + after);
  }

  lemma {:induction false} ReasonsReadBack(reasons: seq<string>, rest: string)
    requires |reasons| >= 1
    ensures ParseReasons(Join(Quotes(reasons), ", ") + ")" + rest) == Found(reasons, rest)
  {
    hide Unquote, Quote;
    var texts := Quotes(reasons);
    var text := Join(texts, ", ") + ")" + rest;
    if |reasons| == 1 {
      assert text == Quote(reasons[0]) + (")" + rest);
      QuoteRoundTrip(reasons[0], ")" + rest);
      StartsWithSelf(")", rest);
      assert reasons == [reasons[0]];
    } else {
      var after := Join(Quotes(reasons[1..]), ", ") + ")" + rest;
      assert texts[1..] == Quotes(reasons[1..]);
      assert text == Quote(reasons[0]) + (", " + after);
      QuoteRoundTrip(reasons[0], ", " + after);
      DiffersAt(", " + after, ")");
      StartsWithSelf(", ", after);
      ReasonsReadBack(reasons[1..], rest);
      assert [reasons[0]] + reasons[1..] == reasons;
    }
  }

  // ---- Renderings are injective, and none is the beginning of another ----

  lemma {:induction false} TreesAreFaithful(s: StringSet, t: StringSet)
    requires Readable(s) && Readable(t) && TreeOf(s) == TreeOf(t)
    ensures s == t
    decreases s
  {
    match s
    case Exact(_) =>
    case Glob(_) =>
    case Inter(patterns) =>
      if t.Union? {
        assert false;
      }
      PatternTreesFaithful(patterns, t.patterns);
    case Union(members) =>
      MemberTreesFaithful(members, t.members);
  }

  lemma {:induction false} PatternTreesFaithful(a: seq<string>, b: seq<string>)
    requires PatternTrees(a) == PatternTrees(b)
    ensures a == b
  {
    if a != [] {
      assert PatternTrees(a)[0] == PatternTrees(b)[0];
      assert PatternTrees(a)[1..] == PatternTrees(a[1..]) && PatternTrees(b)[1..] == PatternTrees(b[1..]);
      PatternTreesFaithful(a[1..], b[1..]);
      assert a == [a[0]] + a[1..] && b == [b[0]] + b[1..];
    }
  }

  lemma {:induction false} MemberTreesFaithful(a: seq<StringSet>, b: seq<StringSet>)
    requires forall m | m in a :: Readable(m)
    requires forall m | m in b :: Readable(m)
    requires TreesOf(a) == TreesOf(b)
    ensures a == b
    decreases a
  {
    if a != [] {
      assert TreesOf(a)[0] == TreesOf(b)[0];
      assert TreesOf(a)[1..] == TreesOf(a[1..]) && TreesOf(b)[1..] == TreesOf(b[1..]);
      TreesAreFaithful(a[0], b[0]);
      MemberTreesFaithful(a[1..], b[1..]);
      assert a == [a[0]] + a[1..] && b == [b[0]] + b[1..];
    }
  }

  /** Every set the engine builds is one the readers read, an Unknown, everything or nothing. */
  lemma CanonicalIsReadable(s: StringSet)
    requires s.Canonical()
    ensures Readable(s) || s.Unknown? || s.Full? || s.Empty?
  {
  }

  /** Two canonical sets whose renderings begin one text are one set. */
  lemma RenderingIsInjective(s: StringSet, t: StringSet, afterS: string, afterT: string)
    requires s.Canonical() && t.Canonical()
    requires Render(s) + afterS == Render(t) + afterT
    ensures s == t && afterS == afterT
  {
    hide ParseConstraint, ParseReasons, Render, TreeOf, Quote;
    FirstCharacter(s, afterS);
    FirstCharacter(t, afterT);
    CanonicalIsReadable(s);
    CanonicalIsReadable(t);
    if Readable(s) {
      RenderingReadsBack(s, afterS);
      RenderingReadsBack(t, afterT);
      TreesAreFaithful(s, t);
    } else if s.Unknown? {
      UnknownReadsBack(s.reasons, afterS);
      UnknownReadsBack(t.reasons, afterT);
    } else {
      OneCharacter(s, afterS);
      OneCharacter(t, afterT);
    }
  }

  lemma UnknownReadsBack(reasons: seq<string>, rest: string)
    requires |reasons| >= 1
    ensures "?(" <= Render(Unknown(reasons)) + rest
    ensures ParseReasons((Render(Unknown(reasons)) + rest)[2..]) == Found(reasons, rest)
  {
    var tail := Join(Quotes(reasons), ", ") + ")" + rest;
    assert Render(Unknown(reasons)) + rest == "?(" + tail;
    StartsWithSelf("?(", tail);
    ReasonsReadBack(reasons, rest);
  }

  lemma OneCharacter(s: StringSet, after: string)
    requires s.Full? || s.Empty?
    ensures (Render(s) + after)[1..] == after
  {
  }

  lemma FirstCharacter(s: StringSet, after: string)
    ensures var c := (Render(s) + after)[0];
            match s
            case Exact(_) => c == '"'
            case Glob(_) => c == 'l'
            case Full => c == '*'
            case Empty => c == '\U{2205}'
            case Unknown(_) => c == '?'
            case Union(_) => c == '('
            case Inter(_) => c == '('
  {
  }

  /** Canonical sets are ordered by rendering without ties. */
  lemma RenderOrder(members: seq<StringSet>)
    requires forall m | m in members :: m.Canonical()
    ensures StrictOrder(RenderBefore) && TotalOn(RenderBefore, members)
  {
    BeforeOrder([]);
    forall a, b | a in members && b in members ensures a == b || RenderBefore(a, b) || RenderBefore(b, a) {
      BeforeTotal(Render(a), Render(b));
      if Render(a) == Render(b) {
        RenderingIsInjective(a, b, "", "");
      }
    }
  }
}

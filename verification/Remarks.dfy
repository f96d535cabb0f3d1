/** Rebuilding sets and grants from the text an answer kept of them (internal/report/remark.go). */
module Remarks {
  import opened Strings
  import opened Sorting
  import opened Quoting
  import opened Globs
  import opened StringSets
  import opened Renderings
  import opened Lattice
  import opened Terms
  import opened AdmittedSets

  const MAX_LIST_NESTING := 2

  // ---- Lists in lists ----

  /** What the scan knows after some bytes: how deep it is, the deepest it was, and whether it is in a quoted string. */
  datatype Scan = Scan(depth: int, deepest: int, quoted: bool, escaped: bool)

  function ScanByte(s: Scan, b: char): Scan {
    if s.escaped then s.(escaped := false)
    else if s.quoted && b == '\\' then s.(escaped := true)
    else if b == '"' then s.(quoted := !s.quoted)
    else if s.quoted then s
    else if b == '(' then s.(depth := s.depth + 1, deepest := if s.depth + 1 > s.deepest then s.depth + 1 else s.deepest)
    else if b == ')' then s.(depth := s.depth - 1)
    else s
  }

  function ScanText(s: Scan, text: string): Scan
    decreases |text|
  {
    if text == "" then s else ScanText(ScanByte(s, text[0]), text[1..])
  }

  const SCAN_START := Scan(0, 0, false, false)

  method ListsDeep(rendered: string) returns (deepest: int)
    ensures deepest == ScanText(SCAN_START, rendered).deepest
  {
    var depth := 0;
    deepest := 0;
    var quoted, escaped := false, false;
    for i := 0 to |rendered|
      invariant ScanText(SCAN_START, rendered) == ScanText(Scan(depth, deepest, quoted, escaped), rendered[i..])
    {
      var b := rendered[i];
      assert rendered[i..][0] == b && rendered[i..][1..] == rendered[i + 1..];
      if escaped {
        escaped := false;
      } else if quoted && b == '\\' {
        escaped := true;
      } else if b == '"' {
        quoted := !quoted;
      } else if quoted {
      } else if b == '(' {
        depth := depth + 1;
        if depth > deepest {
          deepest := depth;
        }
      } else if b == ')' {
        depth := depth - 1;
      }
    }
  }

  // ---- The set a rendering states ----

  /** The set a constraint states, built with eval's own constructors. */
  function SetOfConstraint(c: Constraint): (s: StringSet)
    requires Listed(c)
    ensures s.Canonical()
    decreases c, 1
  {
    match c
    case Value(text) => Exact(text)
    case Pattern(text) => GlobOf(text)
    case AnyOf(members) => JoinMembers(SetOfConstraint(members[0]), members[1..])
    case AllOf(members) => MeetMembers(SetOfConstraint(members[0]), members[1..])
  }

  function JoinMembers(s: StringSet, members: seq<Constraint>): (r: StringSet)
    requires s.Canonical() && forall m | m in members :: Listed(m)
    ensures r.Canonical()
    decreases members, 0
  {
    if members == [] then s
    else
      var m := SetOfConstraint(members[0]);
      JoinIsExact(s, m);
      JoinMembers(Lattice.Join(s, m), members[1..])
  }

  function MeetMembers(s: StringSet, members: seq<Constraint>): (r: StringSet)
    requires s.Canonical() && forall m | m in members :: Listed(m)
    ensures r.Canonical()
    decreases members, 0
  {
    if members == [] then s
    else
      var m := SetOfConstraint(members[0]);
      MeetIsExact(s, m);
      MeetMembers(Meet(s, m), members[1..])
  }

  /** Reads the Unknown behind "?(": its quoted reasons, joined one by one. */
  function UnknownOf(text: string): Option<StringSet> {
    var q := Unquote(text);
    if q.Failed? then None else MoreReasons(Unknown([q.value]), q.rest)
  }

  function MoreReasons(s: StringSet, rest: string): Option<StringSet>
    decreases |rest|
  {
    if rest == ")" then Some(s)
    else if ", " <= rest then
      var q := Unquote(rest[2..]);
      if q.Failed? then None else MoreReasons(Lattice.Join(s, Unknown([q.value])), q.rest)
    else None
  }

  method ReadUnknown(text: string) returns (s: Option<StringSet>)
    ensures s == UnknownOf(text)
  {
    hide Unquote, Lattice.Join;
    var q := Unquote(text);
    if q.Failed? {
      return None;
    }
    var joined, rest := Unknown([q.value]), q.rest;
    while rest != ")"
      invariant UnknownOf(text) == MoreReasons(joined, rest)
      decreases |rest|
    {
      if !(", " <= rest) {
        return None;
      }
      q := Unquote(rest[2..]);
      if q.Failed? {
        return None;
      }
      joined, rest := Lattice.Join(joined, Unknown([q.value])), q.rest;
    }
    return Some(joined);
  }

  function SetOf(rendered: string): Option<StringSet> {
    if "?(" <= rendered then UnknownOf(rendered[2..])
    else if ScanText(SCAN_START, rendered).deepest > MAX_LIST_NESTING then None
    else
      var c := ParseConstraint(rendered);
      if c.Found? && c.rest == "" then Some(SetOfConstraint(c.value)) else None
  }

  method ReadSet(rendered: string) returns (s: Option<StringSet>)
    ensures s == SetOf(rendered)
  {
    if "?(" <= rendered {
      s := ReadUnknown(rendered[2..]);
      return s;
    }
    var deepest := ListsDeep(rendered);
    if deepest > MAX_LIST_NESTING {
      return None;
    }
    var c := ReadConstraint(rendered);
    return if c.Found? && c.rest == "" then Some(SetOfConstraint(c.value)) else None;
  }

  // ---- A rendering nests two lists at most ----

  lemma {:induction false} ScanAppends(s: Scan, a: string, b: string)
    ensures ScanText(s, a + b) == ScanText(ScanText(s, a), b)
    decreases |a|
  {
    if a == "" {
      assert a + b == b;
    } else {
      assert (a + b)[1..] == a[1..] + b;
      ScanAppends(ScanByte(s, a[0]), a[1..], b);
    }
  }

  ghost predicate Outside(s: Scan) {
    !s.quoted && !s.escaped
  }

  lemma {:induction false} ScanPlain(s: Scan, text: string)
    requires s.quoted && !s.escaped && forall c | c in text :: c != '"' && c != '\\'
    ensures ScanText(s, text) == s
  {
    if text != "" {
      assert forall c | c in text[1..] :: c in text;
      assert text[0] in text;
      ScanPlain(s, text[1..]);
    }
  }

  lemma {:induction false} HexIsPlain(n: nat, w: nat)
    ensures forall c | c in Hex(n, w) :: c != '"' && c != '\\'
  {
    if w > 0 {
      HexIsPlain(n / 16, w - 1);
    }
  }

  lemma ScanEscape(s: Scan, c: char)
    requires s.quoted && !s.escaped
    ensures ScanText(s, Escape(c)) == s
  {
    var e := Escape(c);
    if e[0] == '\\' {
      assert ScanText(s, e) == ScanText(s.(escaped := true), e[1..]);
      assert ScanText(s.(escaped := true), e[1..]) == ScanText(s, e[1..][1..]);
      if |e| > 2 {
        EscapeIsHex(c);
        var w := |e| - 2;
        assert e[1..][1..] == Hex(c as nat, w);
        HexIsPlain(c as nat, w);
        ScanPlain(s, e[1..][1..]);
      }
    } else {
      ScanPlain(s, e);
    }
  }

  lemma {:induction false} ScanEscapes(s: Scan, text: string)
    requires s.quoted && !s.escaped
    ensures ScanText(s, EscapeAll(text)) == s
  {
    if text != "" {
      ScanEscape(s, text[0]);
      ScanEscapes(s, text[1..]);
      ScanAppends(s, Escape(text[0]), EscapeAll(text[1..]));
    }
  }

  /** A quoted string, whatever it holds, leaves the scan as it was. */
  lemma ScanQuote(s: Scan, text: string)
    requires Outside(s)
    ensures ScanText(s, Quote(text)) == s
  {
    var inside := s.(quoted := true);
    assert Quote(text) == "\"" + (EscapeAll(text) + "\"");
    ScanAppends(s, "\"", EscapeAll(text) + "\"");
    assert ScanText(s, "\"") == inside;
    ScanAppends(inside, EscapeAll(text), "\"");
    ScanEscapes(inside, text);
    assert ScanText(inside, "\"") == s;
  }

  /** Read from s, the text brings the scan back to where it was, having opened at most n lists inside each other. */
  ghost predicate NestsFrom(s: Scan, text: string, n: nat) {
    var t := ScanText(s, text);
    t == s.(deepest := t.deepest) && s.deepest <= t.deepest <= Max(s.deepest, s.depth + n)
  }

  ghost predicate Nests(text: string, n: nat) {
    forall s | Outside(s) :: NestsFrom(s, text, n)
  }

  function Max(a: int, b: int): int {
    if a < b then b else a
  }

  lemma NestsAppends(a: string, b: string, n: nat)
    requires Nests(a, n) && Nests(b, n)
    ensures Nests(a + b, n)
  {
    forall s | Outside(s) ensures NestsFrom(s, a + b, n) {
      hide ScanText;
      ScanAppends(s, a, b);
      assert NestsFrom(s, a, n);
      assert NestsFrom(ScanText(s, a), b, n);
    }
  }

  lemma SeparatorsNest(sep: string)
    requires sep in [" | ", " & "]
    ensures Nests(sep, 0) && Nests("like:", 0) && Nests("", 0)
  {
    forall s | Outside(s) ensures NestsFrom(s, sep, 0) && NestsFrom(s, "like:", 0) {
      assert ScanText(s, sep) == ScanText(s, sep[1..]) == ScanText(s, sep[1..][1..]) == ScanText(s, sep[1..][1..][1..]);
      ScanAppends(s, "lik", "e:");
      ScanAppends(s, "l", "ik");
      assert "l" + "ik" == "lik" && "lik" + "e:" == "like:";
      ScanAppends(s, "i", "k");
      assert "i" + "k" == "ik";
      ScanAppends(s, "e", ":");
      assert "e" + ":" == "e:";
    }
  }

  lemma NestsMore(text: string, n: nat, m: nat)
    requires Nests(text, n) && n <= m
    ensures Nests(text, m)
  {
  }

  lemma {:induction false} ListNests(texts: seq<string>, sep: string, n: nat)
    requires sep in [" | ", " & "] && forall t | t in texts :: Nests(t, n)
    ensures Nests(Strings.Join(texts, sep), n)
  {
    SeparatorsNest(sep);
    NestsMore("", 0, n);
    NestsMore(sep, 0, n);
    if |texts| > 1 {
      ListNests(texts[1..], sep, n);
      NestsAppends(texts[0], sep, n);
      NestsAppends(texts[0] + sep, Strings.Join(texts[1..], sep), n);
    }
  }

  lemma ParenthesesNest(text: string, n: nat)
    requires Nests(text, n)
    ensures Nests("(" + text + ")", n + 1)
  {
    forall s | Outside(s) ensures NestsFrom(s, "(" + text + ")", n + 1) {
      var open := ScanByte(s, '(');
      assert ScanText(s, "(") == open;
      var inner := ScanText(open, text);
      assert ScanText(inner, ")") == ScanByte(inner, ')');
      hide ScanText;
      ScanAppends(s, "(" + text, ")");
      ScanAppends(s, "(", text);
      assert NestsFrom(open, text, n);
    }
  }

  lemma {:induction false} PatternsNest(patterns: seq<string>)
    ensures forall t | t in RenderPatterns(patterns) :: Nests(t, 0)
  {
    if patterns != [] {
      PatternNests(patterns[0]);
      PatternsNest(patterns[1..]);
    }
  }

  lemma PatternNests(pattern: string)
    ensures Nests(RenderPattern(pattern), 0) && Nests(Quote(pattern), 0)
  {
    forall s | Outside(s) ensures NestsFrom(s, Quote(pattern), 0) { ScanQuote(s, pattern); }
    SeparatorsNest(" | ");
    NestsAppends("like:", Quote(pattern), 0);
  }

  lemma TermNests(s: StringSet)
    requires s.IsTerm()
    ensures Nests(Render(s), 1)
  {
    match s
    case Exact(value) =>
      PatternNests(value);
      NestsMore(Render(s), 0, 1);
    case Glob(pattern) =>
      PatternNests(pattern);
      NestsMore(Render(s), 0, 1);
    case Inter(patterns) =>
      PatternsNest(patterns);
      ListNests(RenderPatterns(patterns), " & ", 0);
      ParenthesesNest(Strings.Join(RenderPatterns(patterns), " & "), 0);
  }

  lemma {:induction false} MembersNest(members: seq<StringSet>)
    requires forall m | m in members :: m.IsTerm()
    ensures forall t | t in Renders(members) :: Nests(t, 1)
  {
    if members != [] {
      TermNests(members[0]);
      MembersNest(members[1..]);
    }
  }

  /** A canonical set's rendering nests its lists two deep at most. */
  lemma RenderingNests(s: StringSet)
    requires s.Canonical() && Readable(s)
    ensures ScanText(SCAN_START, Render(s)).deepest <= MAX_LIST_NESTING
  {
    if s.Union? {
      MembersNest(s.members);
      ListNests(Renders(s.members), " | ", 1);
      ParenthesesNest(Strings.Join(Renders(s.members), " | "), 1);
    } else {
      TermNests(s);
      NestsMore(Render(s), 1, 2);
    }
    assert NestsFrom(SCAN_START, Render(s), 2);
  }

  // ---- The set read is the set rendered ----

  /** What reading more reasons makes of an unknown: it stays one, with those reasons too. */
  ghost predicate HoldsReasons(u: Option<StringSet>, s: StringSet, reasons: seq<string>)
    requires s.Unknown?
  {
    u.Some? && u.value.Unknown? && u.value.Canonical() && forall r :: r in u.value.reasons <==> r in s.reasons || r in reasons
  }

  lemma {:induction false} ReasonsRebuild(s: StringSet, reasons: seq<string>)
    requires s.Unknown? && s.Canonical()
    ensures HoldsReasons(MoreReasons(s, (if reasons == [] then "" else ", ") + Strings.Join(Quotes(reasons), ", ") + ")"), s, reasons)
    decreases |reasons|
  {
    hide Unquote, Quote, StringSet.Contains, StringSet.Canonical, MoreReasons;
    var rest := (if reasons == [] then "" else ", ") + Strings.Join(Quotes(reasons), ", ") + ")";
    if reasons == [] {
      assert rest == ")";
      NoMoreReasons(s);
    } else {
      var after := (if reasons[1..] == [] then "" else ", ") + Strings.Join(Quotes(reasons[1..]), ", ") + ")";
      assert Quotes(reasons)[1..] == Quotes(reasons[1..]);
      assert rest == ", " + (Quote(reasons[0]) + after);
      OneMoreReason(s, reasons[0], after);
      var next := Lattice.Join(s, Unknown([reasons[0]]));
      ReasonsRebuild(next, reasons[1..]);
      assert forall r :: r in reasons <==> r == reasons[0] || r in reasons[1..];
    }
  }

  lemma NoMoreReasons(s: StringSet)
    ensures MoreReasons(s, ")") == Some(s)
  {
  }

  lemma OneMoreReason(s: StringSet, reason: string, after: string)
    requires s.Unknown? && s.Canonical()
    ensures var next := Lattice.Join(s, Unknown([reason]));
            && next.Unknown? && next.Canonical() && (forall r :: r in next.reasons <==> r in s.reasons || r == reason)
            && MoreReasons(s, ", " + (Quote(reason) + after)) == MoreReasons(next, after)
  {
    hide Unquote, Quote, StringSet.Contains;
    var rest := ", " + (Quote(reason) + after);
    ReasonsMerge(s.reasons, [reason]);
    StartsWithSelf(", ", Quote(reason) + after);
    assert rest[0] == ',' && rest != ")";
    QuoteRoundTrip(reason, after);
  }

  lemma OneReasonIsCanonical(reasons: seq<string>)
    requires Unknown(reasons).Canonical()
    ensures reasons != [] && Unknown([reasons[0]]).Canonical()
  {
  }

  lemma SameReasons(u: Option<StringSet>, reasons: seq<string>)
    requires Unknown(reasons).Canonical() && HoldsReasons(u, Unknown([reasons[0]]), reasons[1..])
    ensures u == Some(Unknown(reasons))
  {
    BeforeOrder([]);
    assert forall r :: r in reasons <==> r == reasons[0] || r in reasons[1..];
    AscendingUnique(Before, u.value.reasons, reasons);
  }

  lemma UnknownRebuilds(reasons: seq<string>)
    requires Unknown(reasons).Canonical()
    ensures SetOf(Render(Unknown(reasons))) == Some(Unknown(reasons))
  {
    hide Quote, Unquote, StringSet.Contains, StringSet.Canonical, MoreReasons, HoldsReasons;
    OneReasonIsCanonical(reasons);
    var text := Strings.Join(Quotes(reasons), ", ") + ")";
    var after := (if reasons[1..] == [] then "" else ", ") + Strings.Join(Quotes(reasons[1..]), ", ") + ")";
    assert Quotes(reasons)[1..] == Quotes(reasons[1..]);
    assert text == Quote(reasons[0]) + after;
    assert Render(Unknown(reasons)) == "?(" + text;
    StartsWithSelf("?(", text);
    QuoteRoundTrip(reasons[0], after);
    ReasonsRebuild(Unknown([reasons[0]]), reasons[1..]);
    assert text[|Quote(reasons[0])|..] == after;
    SameReasons(MoreReasons(Unknown([reasons[0]]), after), reasons);
  }

  /** Sets joined one by one onto s. */
  function JoinOnto(s: StringSet, sets: seq<StringSet>): StringSet
    decreases |sets|
  {
    if sets == [] then s else JoinOnto(Lattice.Join(s, sets[0]), sets[1..])
  }

  lemma KeptInPart(all: seq<StringSet>, part: seq<StringSet>)
    requires (forall m | m in all :: !Covered(m, all)) && forall m | m in part :: m in all
    ensures forall m | m in part :: !Covered(m, part)
  {
    forall m | m in part ensures !Covered(m, part) {
      assert !Covered(m, all);
    }
  }

  /** s is the union of just these terms. */
  ghost predicate IsUnionOf(s: StringSet, terms: seq<StringSet>) {
    s.Canonical() && (s.IsTerm() || s.Union?) && forall m :: m in TermsOf(s) <==> m in terms
  }

  lemma JoinKeepsNext(s: StringSet, all: seq<StringSet>, n: nat)
    requires CanonicalTerms(all) && (forall m | m in all :: !Covered(m, all)) && n < |all|
    requires IsUnionOf(s, all[..n])
    ensures IsUnionOf(Lattice.Join(s, all[n]), all[..n + 1])
  {
    hide Covered, StringSet.Contains, Lattice.Join;
    assert all[n] in all && CanonicalTerm(all[n]);
    assert TermsOf(all[n]) == [all[n]];
    forall m | m in all[..n] ensures m in all {}
    JoinTerms(s, all[n]);
    KeptInPart(all, TermsOf(s) + TermsOf(all[n]));
    assert all[..n + 1] == all[..n] + [all[n]];
  }

  /** Joining one by one terms none of which makes another redundant keeps them all. */
  lemma {:induction false} JoinsKeepAll(s: StringSet, all: seq<StringSet>, n: nat)
    requires CanonicalTerms(all) && (forall m | m in all :: !Covered(m, all)) && n <= |all|
    requires IsUnionOf(s, all[..n])
    ensures IsUnionOf(JoinOnto(s, all[n..]), all)
    decreases |all| - n
  {
    hide IsUnionOf, Covered, Lattice.Join;
    if n < |all| {
      JoinKeepsNext(s, all, n);
      JoinsKeepAll(Lattice.Join(s, all[n]), all, n + 1);
      assert all[n..][1..] == all[n + 1..];
    } else {
      assert all[..n] == all;
    }
  }

  lemma {:induction false} JoinMembersIsJoinOnto(s: StringSet, members: seq<StringSet>)
    requires s.Canonical() && CanonicalTerms(members)
    requires forall m | m in members :: Readable(m) && Listed(TreeOf(m)) && SetOfConstraint(TreeOf(m)) == m
    requires forall t | t in TreesOf(members) :: Listed(t)
    ensures JoinMembers(s, TreesOf(members)) == JoinOnto(s, members)
    decreases |members|
  {
    if members != [] {
      assert TreesOf(members)[1..] == TreesOf(members[1..]);
      assert SetOfConstraint(TreesOf(members)[0]) == members[0];
      JoinIsExact(s, members[0]);
      JoinMembersIsJoinOnto(Lattice.Join(s, members[0]), members[1..]);
    }
  }

  lemma {:induction false} MeetsRebuild(s: StringSet, patterns: seq<string>)
    requires s.Canonical() && (s.Glob? || s.Inter?) && forall p | p in patterns :: Proper(p)
    requires forall t | t in PatternTrees(patterns) :: Listed(t)
    ensures var r := MeetMembers(s, PatternTrees(patterns));
            (r.Glob? || r.Inter?) && r.Canonical() && forall p :: p in PatternsOf(r) <==> p in PatternsOf(s) || p in patterns
    decreases |patterns|
  {
    if patterns != [] {
      var p := patterns[0];
      assert PatternTrees(patterns)[0] == Pattern(p) && PatternTrees(patterns)[1..] == PatternTrees(patterns[1..]);
      ProperStays(p);
      MeetPattern(s, p);
      assert forall q :: q in patterns <==> q == p || q in patterns[1..];
      MeetsRebuild(Meet(s, Glob(p)), patterns[1..]);
    }
  }

  lemma ProperStays(pattern: string)
    requires Proper(pattern)
    ensures GlobOf(pattern) == Glob(pattern) && SetOfConstraint(Pattern(pattern)) == Glob(pattern)
  {
  }

  lemma MeetPattern(s: StringSet, p: string)
    requires s.Canonical() && (s.Glob? || s.Inter?) && Proper(p)
    ensures Meet(s, Glob(p)) == NewInter(PatternsOf(s) + [p])
    ensures var r := Meet(s, Glob(p));
            (r.Glob? || r.Inter?) && r.Canonical() && forall q :: q in PatternsOf(r) <==> q in PatternsOf(s) || q == p
  {
    NewInterIsExact(PatternsOf(s) + [p]);
    var row := MeetRow(Empty, s, [Glob(p)]);
    assert [Glob(p)][1..] == [] && [s][1..] == [];
    assert row == MeetRow(Lattice.Join(Empty, MeetTerms(s, Glob(p))), s, []);
    assert row == Lattice.Join(Empty, MeetTerms(s, Glob(p)));
    assert MeetRows(Empty, [s], [Glob(p)]) == MeetRows(row, [], [Glob(p)]) == row;
  }

  lemma PatternsRebuild(patterns: seq<string>)
    requires Inter(patterns).Canonical()
    ensures Listed(TreeOf(Inter(patterns))) && SetOfConstraint(TreeOf(Inter(patterns))) == Inter(patterns)
  {
    var trees := PatternTrees(patterns);
    assert trees[0] == Pattern(patterns[0]) && trees[1..] == PatternTrees(patterns[1..]);
    ProperStays(patterns[0]);
    MeetsRebuild(Glob(patterns[0]), patterns[1..]);
    var r := MeetMembers(Glob(patterns[0]), trees[1..]);
    BeforeOrder([]);
    assert forall p :: p in patterns <==> p == patterns[0] || p in patterns[1..];
    AscendingUnique(Before, PatternsOf(r), patterns);
  }

  lemma TermRebuilds(s: StringSet)
    requires CanonicalTerm(s)
    ensures Readable(s) && Listed(TreeOf(s)) && SetOfConstraint(TreeOf(s)) == s
  {
    match s
    case Exact(_) =>
    case Glob(pattern) => ProperStays(pattern);
    case Inter(patterns) => PatternsRebuild(patterns);
  }

  lemma {:induction false} TreesListed(members: seq<StringSet>)
    requires CanonicalTerms(members)
    ensures (forall m | m in members :: Readable(m)) && forall t | t in TreesOf(members) :: Listed(t)
  {
    forall m | m in members ensures Readable(m) { TermRebuilds(m); }
    if members != [] {
      TermRebuilds(members[0]);
      TreesListed(members[1..]);
    }
  }

  /** Every canonical set but everything and nothing is rebuilt from its rendering, identically. */
  lemma SetOfRenderIsIdentity(s: StringSet)
    requires s.Canonical() && !s.Full? && !s.Empty?
    ensures SetOf(Render(s)) == Some(s)
  {
    if s.Unknown? {
      UnknownRebuilds(s.reasons);
    } else {
      CanonicalIsReadable(s);
      RenderingNests(s);
      RenderingReadsBack(s, "");
      assert Render(s) + "" == Render(s);
      FirstCharacter(s, "");
      DiffersAt(Render(s), "?(");
      if s.Union? {
        UnionRebuilds(s);
      } else {
        TermRebuilds(s);
      }
    }
  }

  lemma UnionRebuilds(s: StringSet)
    requires s.Canonical() && s.Union?
    ensures Readable(s) && Listed(TreeOf(s)) && SetOfConstraint(TreeOf(s)) == s
  {
    var members := s.members;
    TreesListed(members);
    forall m | m in members ensures Listed(TreeOf(m)) && SetOfConstraint(TreeOf(m)) == m { TermRebuilds(m); }
    var trees := TreesOf(members);
    assert trees[0] == TreeOf(members[0]) && trees[1..] == TreesOf(members[1..]);
    assert members == [members[0]] + members[1..];
    JoinMembersIsJoinOnto(members[0], members[1..]);
    assert members[..1] == [members[0]];
    JoinsKeepAll(members[0], members, 1);
    TermsDetermine(JoinOnto(members[0], members[1..]), s);
  }

  // ---- The grant an answer states ----

  /** One row of an answer's term; the row that only says the subject is open is marked any. */
  datatype Row = Row(claim: string, rendered: string, any: bool)

  /** A grant as an answer states it: its terms' rows, its caveats, its set's rendering, and whether it is exact. */
  datatype Stated = Stated(terms: seq<seq<Row>>, caveats: seq<Caveat>, admits: string, exact: bool)

  function RenderTerms(terms: seq<Term>): seq<string> {
    if terms == [] then [] else [RenderTerm(terms[0])] + RenderTerms(terms[1..])
  }

  function RenderSet(s: AdmittedSet): string {
    if s.terms == [] then "\U{2205}" else Strings.Join(RenderTerms(s.terms), " | ")
  }

  /** The claims of a term added row by row to those read before. */
  function TermOfRows(term: Term, rows: seq<Row>): Option<Term>
    decreases |rows|
  {
    if rows == [] then Some(term)
    else if rows[0].any then TermOfRows(term, rows[1..])
    else
      var s := SetOf(rows[0].rendered);
      if s.None? then None else TermOfRows(term[rows[0].claim := s.value], rows[1..])
  }

  function TermsOfRows(lists: seq<seq<Row>>): Option<seq<Term>> {
    if lists == [] then Some([])
    else
      var first, rest := TermOfRows(map[], lists[0]), TermsOfRows(lists[1..]);
      if first.None? || rest.None? then None else Some([first.value] + rest.value)
  }

  function GrantOf(g: Stated): Option<AdmittedSet> {
    var terms := TermsOfRows(g.terms);
    if terms.None? then None
    else
      var admits := AddCaveats(NewAdmittedSet(terms.value), g.caveats);
      if RenderSet(admits) != g.admits || admits.IsExact() != g.exact || admits.caveats != g.caveats then None
      else Some(admits)
  }

  method RebuildGrant(g: Stated) returns (grant: Option<AdmittedSet>)
    ensures grant == GrantOf(g)
  {
    hide SetOf, NewAdmittedSet, RenderSet, NormaliseCaveats;
    var terms: seq<Term> := [];
    ghost var all := TermsOfRows(g.terms);
    assert g.terms[0..] == g.terms && (all.Some? ==> terms + all.value == all.value);
    for i := 0 to |g.terms|
      invariant var rest := TermsOfRows(g.terms[i..]);
                TermsOfRows(g.terms) == if rest.None? then None else Some(terms + rest.value)
    {
      var rows := g.terms[i];
      assert g.terms[i..][0] == rows && g.terms[i..][1..] == g.terms[i + 1..];
      var term: Term := map[];
      for j := 0 to |rows|
        invariant TermOfRows(map[], rows) == TermOfRows(term, rows[j..])
      {
        assert rows[j..][0] == rows[j] && rows[j..][1..] == rows[j + 1..];
        if !rows[j].any {
          var s := ReadSet(rows[j].rendered);
          if s.None? {
            return None;
          }
          term := term[rows[j].claim := s.value];
        }
      }
      ghost var rest := TermsOfRows(g.terms[i + 1..]);
      assert rest.Some? ==> terms + ([term] + rest.value) == (terms + [term]) + rest.value;
      terms := terms + [term];
    }
    assert terms + [] == terms;
    var admits := NewAdmittedSet(terms);
    ghost var whole := AddCaveats(admits, g.caveats);
    for n := 0 to |g.caveats|
      invariant whole == AddCaveats(admits, g.caveats[n..])
    {
      assert g.caveats[n..][0] == g.caveats[n] && g.caveats[n..][1..] == g.caveats[n + 1..];
      admits := admits.WithCaveat(g.caveats[n]);
    }
    if RenderSet(admits) != g.admits || admits.IsExact() != g.exact || admits.caveats != g.caveats {
      return None;
    }
    return Some(admits);
  }

  /** The rows an answer writes for the claims of keys. */
  function RowsOf(keys: seq<string>, term: Term): seq<Row>
    requires forall k | k in keys :: k in term
  {
    if keys == [] then [] else [Row(keys[0], Render(term[keys[0]]), false)] + RowsOf(keys[1..], term)
  }

  function Constraining(rows: seq<Row>): seq<Row> {
    if rows == [] then [] else (if rows[0].any then [] else [rows[0]]) + Constraining(rows[1..])
  }

  /** The rows state the term: each of its claims in order, and beside them only rows that constrain nothing. */
  predicate States(rows: seq<Row>, term: Term) {
    Constraining(rows) == RowsOf(SortedKeys(term.Keys), term)
  }

  lemma {:induction false} RowsRebuild(rows: seq<Row>, keys: seq<string>, term: Term, read: Term)
    requires LiveTerm(term) && (forall k | k in keys :: k in term) && Constraining(rows) == RowsOf(keys, term)
    ensures TermOfRows(read, rows).Some?
    ensures var t := TermOfRows(read, rows).value;
            t.Keys == read.Keys + (set k | k in keys) && forall k | k in t :: t[k] == if k in keys then term[k] else read[k]
    decreases |rows|
  {
    hide SetOf;
    if rows != [] {
      if rows[0].any {
        assert Constraining(rows) == Constraining(rows[1..]);
        RowsRebuild(rows[1..], keys, term, read);
      } else {
        assert Constraining(rows)[0] == rows[0] && Constraining(rows)[1..] == Constraining(rows[1..]);
        assert RowsOf(keys, term)[1..] == RowsOf(keys[1..], term);
        SetOfRenderIsIdentity(term[keys[0]]);
        RowsRebuild(rows[1..], keys[1..], term, read[keys[0] := term[keys[0]]]);
        assert forall k :: k in keys <==> k == keys[0] || k in keys[1..];
      }
    }
  }

  lemma TermRebuildsFromRows(rows: seq<Row>, term: Term)
    requires LiveTerm(term) && States(rows, term)
    ensures TermOfRows(map[], rows) == Some(term)
  {
    var keys := SortedKeys(term.Keys);
    RowsRebuild(rows, keys, term, map[]);
    assert (set k | k in keys) == term.Keys;
    assert TermOfRows(map[], rows).value == term;
  }

  lemma {:induction false} TermsRebuild(lists: seq<seq<Row>>, terms: seq<Term>)
    requires |lists| == |terms| && forall i | 0 <= i < |terms| :: LiveTerm(terms[i]) && States(lists[i], terms[i])
    ensures TermsOfRows(lists) == Some(terms)
  {
    hide States, LiveTerm;
    if terms != [] {
      TermRebuildsFromRows(lists[0], terms[0]);
      TermsRebuild(lists[1..], terms[1..]);
      assert terms == [terms[0]] + terms[1..];
    }
  }

  /** A grant is rebuilt, identically, from the rows, the notes and the rendering an answer states of its set. */
  lemma GrantIsRebuilt(s: AdmittedSet, g: Stated)
    requires s.Canonical()
    requires |g.terms| == |s.terms| && forall i | 0 <= i < |s.terms| :: States(g.terms[i], s.terms[i])
    requires g.caveats == s.caveats && g.admits == RenderSet(s) && g.exact == s.IsExact()
    ensures GrantOf(g) == Some(s)
  {
    TermsRebuild(g.terms, s.terms);
    NormaliseIsStable(s, [], "NewAdmittedSet");
    var built := NewAdmittedSet(s.terms);
    CaveatsNormalise([], []);
    AddCaveatsIs(built, s.caveats);
    CaveatsNormalise(built.caveats + s.caveats, s.caveats);
  }
}

/** Conjunctions of claim constraints, and their rendering (internal/eval/admitted.go). */
module Terms {
  import opened Strings
  import opened Sorting
  import opened Quoting
  import opened StringSets
  import opened Renderings
  import opened Lattice

  /** Constraints by claim, all of which a token has to meet. */
  type Term = map<string, StringSet>

  /** The claims of one token. */
  type Token = map<string, string>

  /** A constraint a token meets: by its value, or by being everything where the token lacks the claim. */
  predicate Meets(s: StringSet, claim: string, token: Token) {
    if claim in token then s.Contains(token[claim]) else s.IsTop()
  }

  predicate Satisfies(term: Term, token: Token) {
    forall k | k in term :: Meets(term[k], k, token)
  }

  ghost predicate CanonicalClaims(term: Term) {
    forall k | k in term :: term[k].Canonical()
  }

  /** A name that holds at most one of the two marks an entry of a rendering is read by. */
  predicate PlainName(name: string) {
    '=' !in name || '"' !in name
  }

  ghost predicate PlainClaims(term: Term) {
    forall k | k in term :: PlainName(k)
  }

  /** No claim name holds the character the rendering ends a name with. */
  ghost predicate NoEquals(term: Term) {
    forall k | k in term :: '=' !in k
  }

  /** No constraint is everything or nothing, which are rendered without a quote. */
  ghost predicate Quoted(term: Term) {
    forall k | k in term :: !term[k].Full? && !term[k].Empty?
  }

  /** Each entry of either term shows where its name ends. */
  ghost predicate NamesEnd(s: Term, t: Term) {
    PlainClaims(s) && PlainClaims(t) && ((NoEquals(s) && NoEquals(t)) || (Quoted(s) && Quoted(t)))
  }

  /** Both terms at once: shared claims take the meet, the others what they have. */
  function Conjoin(x: Term, y: Term): Term
    requires CanonicalClaims(x) && CanonicalClaims(y)
  {
    map k | k in x.Keys + y.Keys :: ConjoinClaim(x, y, k)
  }

  function ConjoinClaim(x: Term, y: Term, k: string): StringSet
    requires CanonicalClaims(x) && CanonicalClaims(y) && (k in x || k in y)
  {
    if k in x && k in y then Meet(x[k], y[k]) else if k in x then x[k] else y[k]
  }

  /** Every claim of y but those of keys has been merged into x. */
  ghost predicate PartlyMerged(x: Term, y: Term, keys: set<string>, merged: Term)
    requires CanonicalClaims(x) && CanonicalClaims(y)
  {
    keys <= y.Keys && merged.Keys == x.Keys + (y.Keys - keys)
    && forall k | k in merged :: merged[k] == if k in keys then x[k] else ConjoinClaim(x, y, k)
  }

  lemma MergeStep(x: Term, y: Term, keys: set<string>, merged: Term, k: string)
    requires CanonicalClaims(x) && CanonicalClaims(y) && PartlyMerged(x, y, keys, merged) && k in keys
    ensures PartlyMerged(x, y, keys - {k}, merged[k := ConjoinClaim(x, y, k)])
    ensures k in y && (k in merged <==> k in x) && (k in x ==> merged[k] == x[k])
  {
  }

  method MergeTerms(x: Term, y: Term) returns (merged: Term)
    requires CanonicalClaims(x) && CanonicalClaims(y)
    ensures merged == Conjoin(x, y)
  {
    merged := x;
    var keys := y.Keys;
    while keys != {}
      invariant PartlyMerged(x, y, keys, merged)
      decreases |keys|
    {
      hide PartlyMerged, Meet;
      var k :| k in keys;
      MergeStep(x, y, keys, merged, k);
      if k in merged {
        merged := merged[k := Meet(merged[k], y[k])];
      } else {
        merged := merged[k := y[k]];
      }
      keys := keys - {k};
    }
    assert merged == Conjoin(x, y);
  }

  /** A token satisfies the conjunction exactly when it satisfies both. */
  lemma ConjoinIsExact(x: Term, y: Term, token: Token)
    requires CanonicalClaims(x) && CanonicalClaims(y)
    ensures CanonicalClaims(Conjoin(x, y))
    ensures Satisfies(Conjoin(x, y), token) <==> Satisfies(x, token) && Satisfies(y, token)
  {
    var both := Conjoin(x, y);
    forall k | k in both
      ensures both[k].Canonical()
      ensures Meets(both[k], k, token) <==> (k in x ==> Meets(x[k], k, token)) && (k in y ==> Meets(y[k], k, token))
    {
      if k in x && k in y {
        MeetIsExact(x[k], y[k]);
      }
    }
    if Satisfies(both, token) {
      forall k | k in x ensures Meets(x[k], k, token) { assert k in both; }
      forall k | k in y ensures Meets(y[k], k, token) { assert k in both; }
    }
  }

  // ---- Failures ----

  function FailedClaims(term: Term, token: Token): set<string> {
    set k | k in term && !Meets(term[k], k, token)
  }

  /** The claims that fail, sorted, however the map is walked. */
  method Failures(term: Term, token: Token) returns (failed: seq<string>)
    ensures failed == SortedKeys(FailedClaims(term, token))
    ensures failed == [] <==> Satisfies(term, token)
  {
    var found := [];
    var keys := term.Keys;
    while keys != {}
      invariant keys <= term.Keys
      invariant forall k :: k in found <==> k in term && k !in keys && !Meets(term[k], k, token)
      decreases |keys|
    {
      var k :| k in keys;
      if !((k in token && term[k].Contains(token[k])) || (k !in token && term[k].IsTop())) {
        found := found + [k];
      }
      keys := keys - {k};
    }
    failed := SortUnique(Before, found);
    BeforeOrder(found);
    SortUniqueAscending(Before, found);
    SortedKeysAre(FailedClaims(term, token), failed);
    if failed == [] {
      forall k | k in term ensures Meets(term[k], k, token) {
        assert k !in failed;
      }
    } else {
      assert failed[0] in FailedClaims(term, token);
    }
  }

  // ---- Rendering ----

  /** The claim names of a term in order: slices.Sorted(maps.Keys(t)). */
  function SortedKeys(keys: set<string>): (sorted: seq<string>)
    ensures forall k :: k in sorted <==> k in keys
    ensures Ascending(Before, sorted)
    decreases |keys|
  {
    if keys == {} then []
    else
      LeastExists(keys);
      var k :| IsLeast(k, keys);
      [k] + SortedKeys(keys - {k})
  }

  predicate IsLeast(k: string, keys: set<string>) {
    k in keys && forall o | o in keys :: o == k || Before(k, o)
  }

  lemma {:induction false} LeastExists(keys: set<string>)
    requires keys != {}
    ensures exists k :: IsLeast(k, keys)
    ensures forall j, k | IsLeast(j, keys) && IsLeast(k, keys) :: j == k
    decreases |keys|
  {
    var k :| k in keys;
    if keys != {k} {
      LeastExists(keys - {k});
      var least :| IsLeast(least, keys - {k});
      BeforeTotal(k, least);
      if Before(k, least) {
        forall o | o in keys && o != k ensures Before(k, o) {
          if o != least { BeforeTransitive(k, least, o); }
        }
        assert IsLeast(k, keys);
      } else {
        assert IsLeast(least, keys);
      }
    } else {
      assert IsLeast(k, keys);
    }
    forall i, j | IsLeast(i, keys) && IsLeast(j, keys) ensures i == j {
      if i != j {
        BeforeTransitive(i, j, i);
        BeforeIrreflexive(i);
      }
    }
  }

  lemma SortedKeysAre(keys: set<string>, sorted: seq<string>)
    requires Ascending(Before, sorted) && forall k :: k in sorted <==> k in keys
    ensures SortedKeys(keys) == sorted
  {
    BeforeOrder([]);
    AscendingUnique(Before, SortedKeys(keys), sorted);
  }

  function ClaimTexts(keys: seq<string>, term: Term): (texts: seq<string>)
    requires forall k | k in keys :: k in term
    ensures |texts| == |keys|
  {
    if keys == [] then [] else [keys[0] + "=" + Render(term[keys[0]])] + ClaimTexts(keys[1..], term)
  }

  function RenderTerm(term: Term): string {
    "{" + Strings.Join(ClaimTexts(SortedKeys(term.Keys), term), ", ") + "}"
  }

  /** The order of an admitted set's terms: their renderings'. */
  predicate TermBefore(x: Term, y: Term) {
    Before(RenderTerm(x), RenderTerm(y))
  }

  /** What follows the opening brace, from the claims of keys on. */
  function ClaimsText(keys: seq<string>, term: Term): string
    requires forall k | k in keys :: k in term
  {
    Strings.Join(ClaimTexts(keys, term), ", ") + "}"
  }

  /** What follows a claim's constraint: the next claim behind a comma, or the closing brace. */
  function AfterClaim(keys: seq<string>, term: Term): string
    requires forall k | k in keys :: k in term
  {
    if keys == [] then "}" else ", " + ClaimsText(keys, term)
  }

  lemma ClaimsTextOpens(keys: seq<string>, term: Term)
    requires keys != [] && forall k | k in keys :: k in term
    ensures ClaimsText(keys, term) == keys[0] + ("=" + (Render(term[keys[0]]) + AfterClaim(keys[1..], term)))
  {
    hide Render, Strings.Join;
    var texts := ClaimTexts(keys, term);
    assert texts[1..] == ClaimTexts(keys[1..], term);
    JoinOpens(texts, ", ", "}");
    Reassociated(keys[0], "=", Render(term[keys[0]]));
    Reassociated(keys[0], "=" + Render(term[keys[0]]), AfterClaim(keys[1..], term));
    Reassociated("=", Render(term[keys[0]]), AfterClaim(keys[1..], term));
  }

  lemma {:induction false} NameEndsAtEquals(a: string, b: string, x: string, y: string)
    requires '=' !in a && '=' !in b && a + ("=" + x) == b + ("=" + y)
    ensures a == b && x == y
  {
    var s, t := a + ("=" + x), b + ("=" + y);
    assert s[0] == if a == "" then '=' else a[0];
    assert t[0] == if b == "" then '=' else b[0];
    if a != "" && b != "" {
      assert s[1..] == a[1..] + ("=" + x) && t[1..] == b[1..] + ("=" + y);
      NameEndsAtEquals(a[1..], b[1..], x, y);
      assert a == [a[0]] + a[1..] && b == [b[0]] + b[1..];
    } else {
      assert s[1..] == x && t[1..] == y;
    }
  }

  /** Before its first quote the text holds no equals sign. */
  ghost predicate OpensQuoted(text: string) {
    exists i | 0 <= i < |text| :: text[i] == '"' && '=' !in text[..i]
  }

  lemma OpensOn(text: string, rest: string)
    requires OpensQuoted(text)
    ensures OpensQuoted(text + rest)
  {
    var i :| 0 <= i < |text| && text[i] == '"' && '=' !in text[..i];
    assert (text + rest)[..i] == text[..i];
  }

  lemma OpensBehind(opening: string, text: string)
    requires OpensQuoted(text) && '=' !in opening
    ensures OpensQuoted(opening + text)
  {
    var i :| 0 <= i < |text| && text[i] == '"' && '=' !in text[..i];
    assert (opening + text)[..|opening| + i] == opening + text[..i];
  }

  lemma QuoteOpens(text: string)
    ensures OpensQuoted(Quote(text)) && OpensQuoted(RenderPattern(text))
  {
    assert Quote(text)[..0] == "";
    OpensBehind("like:", Quote(text));
  }

  lemma {:induction false} RenderOpens(s: StringSet)
    requires s.Canonical() && !s.Full? && !s.Empty?
    ensures OpensQuoted(Render(s))
    decreases s
  {
    hide OpensQuoted, Quote, RenderPattern;
    match s
    case Exact(value) => QuoteOpens(value);
    case Glob(pattern) => QuoteOpens(pattern);
    case Unknown(reasons) =>
      QuoteOpens(reasons[0]);
      FirstOpens("?(", Quotes(reasons), ", ");
    case Union(members) =>
      assert members[0] in members;
      RenderOpens(members[0]);
      FirstOpens("(", Renders(members), " | ");
    case Inter(patterns) =>
      QuoteOpens(patterns[0]);
      FirstOpens("(", RenderPatterns(patterns), " & ");
  }

  lemma FirstOpens(opening: string, texts: seq<string>, sep: string)
    requires texts != [] && OpensQuoted(texts[0]) && '=' !in opening
    ensures OpensQuoted(opening + Strings.Join(texts, sep) + ")")
  {
    hide OpensQuoted;
    var all := Strings.Join(texts, sep);
    if |texts| > 1 {
      OpensOn(texts[0], sep + Strings.Join(texts[1..], sep));
      assert all == texts[0] + (sep + Strings.Join(texts[1..], sep));
    }
    OpensBehind(opening, all);
    OpensOn(opening + all, ")");
  }

  lemma NoNameGoesOn(a: string, b: string, x: string, y: string)
    requires PlainName(b) && OpensQuoted(x) && a + ("=" + x) == b + ("=" + y)
    ensures |a| >= |b|
  {
    EntryAt(a, x);
    EntryAt(b, y);
    var i :| 0 <= i < |x| && x[i] == '"' && '=' !in x[..i];
    forall k | 0 <= k < i ensures x[k] != '=' {
      assert x[..i][k] == x[k];
    }
    var text := a + ("=" + x);
    assert text[|a|] == '=' && text[|b|] == '=' && text[|a| + 1 + i] == '"';
    assert forall k | 0 <= k < |b| :: text[k] in b;
  }

  lemma EntryAt(name: string, x: string)
    ensures var text := name + ("=" + x);
            && text[|name|] == '=' && (forall k | 0 <= k < |name| :: text[k] == name[k])
            && forall k | |name| < k < |text| :: text[k] == x[k - |name| - 1]
  {
  }

  /** A name that may hold an equals sign ends at the last one before a quote. */
  lemma NameEndsBeforeQuote(a: string, b: string, x: string, y: string)
    requires PlainName(a) && PlainName(b) && OpensQuoted(x) && OpensQuoted(y) && a + ("=" + x) == b + ("=" + y)
    ensures a == b && x == y
  {
    hide OpensQuoted, PlainName;
    NoNameGoesOn(a, b, x, y);
    NoNameGoesOn(b, a, y, x);
    var text := a + ("=" + x);
    assert a == text[..|a|] && b == text[..|b|];
    assert x == text[|a| + 1..] && y == text[|b| + 1..];
  }

  lemma NamesAlike(s: Term, t: Term, a: string, b: string, x: string, y: string)
    requires CanonicalClaims(s) && CanonicalClaims(t) && NamesEnd(s, t) && a in s && b in t
    requires a + ("=" + (Render(s[a]) + x)) == b + ("=" + (Render(t[b]) + y))
    ensures a == b && Render(s[a]) + x == Render(t[b]) + y
  {
    hide OpensQuoted, Render;
    if NoEquals(s) && NoEquals(t) {
      NameEndsAtEquals(a, b, Render(s[a]) + x, Render(t[b]) + y);
    } else {
      RenderOpens(s[a]);
      RenderOpens(t[b]);
      OpensOn(Render(s[a]), x);
      OpensOn(Render(t[b]), y);
      NameEndsBeforeQuote(a, b, Render(s[a]) + x, Render(t[b]) + y);
    }
  }

  lemma {:induction false} ClaimsTextIsInjective(a: seq<string>, s: Term, b: seq<string>, t: Term)
    requires (forall k | k in a :: k in s) && (forall k | k in b :: k in t)
    requires CanonicalClaims(s) && CanonicalClaims(t) && NamesEnd(s, t)
    requires ClaimsText(a, s) == ClaimsText(b, t)
    ensures a == b && forall k | k in a :: s[k] == t[k]
  {
    hide ClaimsText, NamesEnd, CanonicalClaims, Render, StringSet.Canonical;
    ClaimsTextCloses(a, s);
    ClaimsTextCloses(b, t);
    if a != [] && b != [] {
      FirstClaimAlike(a, s, b, t);
      if a[1..] != [] {
        ClaimsTextIsInjective(a[1..], s, b[1..], t);
      }
      assert a == [a[0]] + a[1..] && b == [b[0]] + b[1..];
    }
  }

  lemma ClaimsTextCloses(keys: seq<string>, term: Term)
    requires forall k | k in keys :: k in term
    ensures keys == [] <==> ClaimsText(keys, term) == "}"
  {
    hide Render;
    if keys != [] {
      ClaimsTextOpens(keys, term);
      hide ClaimsText;
      assert |keys[0] + ("=" + (Render(term[keys[0]]) + AfterClaim(keys[1..], term)))| > 1;
    }
  }

  lemma FirstClaimAlike(a: seq<string>, s: Term, b: seq<string>, t: Term)
    requires (forall k | k in a :: k in s) && (forall k | k in b :: k in t) && a != [] && b != []
    requires CanonicalClaims(s) && CanonicalClaims(t) && NamesEnd(s, t)
    requires ClaimsText(a, s) == ClaimsText(b, t)
    ensures a[0] == b[0] && s[a[0]] == t[a[0]] && (a[1..] == [] <==> b[1..] == [])
    ensures ClaimsText(a[1..], s) == ClaimsText(b[1..], t)
  {
    hide ClaimsText, NamesEnd, Render, StringSet.Canonical;
    ClaimsTextOpens(a, s);
    ClaimsTextOpens(b, t);
    var k, afterA, afterB := a[0], AfterClaim(a[1..], s), AfterClaim(b[1..], t);
    NamesAlike(s, t, k, b[0], afterA, afterB);
    AfterClaimIs(a[1..], s);
    AfterClaimIs(b[1..], t);
    RenderingIsInjective(s[k], t[k], afterA, afterB);
  }

  lemma AfterClaimIs(keys: seq<string>, term: Term)
    requires forall k | k in keys :: k in term
    ensures var after := AfterClaim(keys, term);
            after != "" && after[0] == (if keys == [] then '}' else ',')
            && ClaimsText(keys, term) == if keys == [] then after else after[2..]
  {
    hide Render;
    if keys != [] {
      hide ClaimsText;
    }
  }

  /**
   * Terms render alike only when they are one term, where no claim name holds an "=", or none holds both an "=" and a
   * quote and no constraint is everything or nothing.
   */
  lemma TermRenderingIsInjective(s: Term, t: Term)
    requires CanonicalClaims(s) && CanonicalClaims(t) && NamesEnd(s, t)
    requires RenderTerm(s) == RenderTerm(t)
    ensures s == t
  {
    hide SortedKeys, ClaimsText, NamesEnd, RenderTerm, CanonicalClaims;
    var a, b := SortedKeys(s.Keys), SortedKeys(t.Keys);
    RenderingHoldsClaims(s);
    RenderingHoldsClaims(t);
    ClaimsTextIsInjective(a, s, b, t);
    assert forall k :: k in s.Keys <==> k in a;
    assert forall k :: k in t.Keys <==> k in b;
  }

  lemma RenderingHoldsClaims(s: Term)
    ensures RenderTerm(s) == "{" + ClaimsText(SortedKeys(s.Keys), s) && RenderTerm(s)[1..] == ClaimsText(SortedKeys(s.Keys), s)
  {
    hide SortedKeys, ClaimTexts, Strings.Join;
  }

  /** With an "=" and a quote in a name it is not so: one claim of such a name renders as two claims, and admits other tokens. */
  lemma EqualsInNameCollides(u: string, v: string)
    ensures var one: Term, two: Term := map["a=" + Quote(u) + ", b" := Exact(v)], map["a" := Exact(u), "b" := Exact(v)];
            var token: Token := map["a" := u, "b" := v];
            one != two && RenderTerm(one) == RenderTerm(two) && Satisfies(two, token) && !Satisfies(one, token)
  {
    hide Quote, RenderTerm;
    var name := "a=" + Quote(u) + ", b";
    var one: Term, two: Term := map[name := Exact(v)], map["a" := Exact(u), "b" := Exact(v)];
    assert |name| > 1 && name in one && name !in two;
    assert !Meets(one[name], name, map["a" := u, "b" := v]);
    OneClaimRenders(one, name);
    TwoClaimsRender(two);
    assert name + "=" + Quote(v) == "a=" + Quote(u) + ", " + ("b=" + Quote(v));
  }

  lemma OneClaimRenders(one: Term, name: string)
    requires one.Keys == {name}
    ensures RenderTerm(one) == "{" + (name + "=" + Render(one[name])) + "}"
  {
    SortedKeysAre(one.Keys, [name]);
    assert ClaimTexts([name], one) == [name + "=" + Render(one[name])];
  }

  lemma TwoClaimsRender(two: Term)
    requires two.Keys == {"a", "b"}
    ensures RenderTerm(two) == "{" + ("a=" + Render(two["a"]) + ", " + ("b=" + Render(two["b"]))) + "}"
  {
    hide Render;
    assert Before("a", "b");
    SortedKeysAre(two.Keys, ["a", "b"]);
    var texts := ClaimTexts(["a", "b"], two);
    assert ["a", "b"][1..] == ["b"];
    assert ClaimTexts(["b"], two) == ["b" + "=" + Render(two["b"])];
    assert texts == ["a" + "=" + Render(two["a"]), "b" + "=" + Render(two["b"])];
    assert texts[1..] == ["b" + "=" + Render(two["b"])];
    assert Strings.Join(texts, ", ") == texts[0] + ", " + texts[1];
  }
}

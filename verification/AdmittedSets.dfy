/** Admitted sets: unions of terms in canonical form, bounded (internal/eval/admitted.go, caveat.go). */
module AdmittedSets {
  import opened Strings
  import opened Sorting
  import Quoting
  import opened StringSets
  import opened Renderings
  import opened Lattice
  import opened Terms

  /** Why a set is not exact. */
  datatype Caveat = Caveat(claim: string, reason: string, source: string)

  datatype AdmittedSet = AdmittedSet(terms: seq<Term>, caveats: seq<Caveat>) {
    predicate Admits(token: Token) {
      exists t | t in terms :: Satisfies(t, token)
    }

    predicate IsEmpty() { terms == [] }

    predicate IsTop() { |terms| == 1 && terms[0] == map[] }

    /** With no caveat the terms say who is admitted; with one they may say too much. */
    predicate IsExact() { caveats == [] }

    ghost predicate Canonical() {
      && |terms| <= TERM_CAP && Ascending(TermBefore, terms) && Ascending(CaveatBefore, caveats)
      && (forall t | t in terms :: LiveTerm(t) && (AllTop(t) ==> terms == [map[]]))
    }

    function WithCaveat(c: Caveat): AdmittedSet {
      AdmittedSet(terms, NormaliseCaveats(caveats + [c]))
    }
  }

  const TERM_CAP: nat := 256

  const EVERYTHING := AdmittedSet([map[]], [])

  const NOTHING := AdmittedSet([], [])

  // ---- Caveats ----

  predicate CaveatBefore(x: Caveat, y: Caveat) {
    Before(x.source, y.source)
    || (x.source == y.source && (Before(x.claim, y.claim) || (x.claim == y.claim && Before(x.reason, y.reason))))
  }

  lemma CaveatOrder(cs: seq<Caveat>)
    ensures StrictOrder(CaveatBefore) && TotalOn(CaveatBefore, cs)
  {
    forall a: Caveat ensures !CaveatBefore(a, a) {
      BeforeIrreflexive(a.source);
      BeforeIrreflexive(a.claim);
      BeforeIrreflexive(a.reason);
    }
    forall a, b, c | CaveatBefore(a, b) && CaveatBefore(b, c) ensures CaveatBefore(a, c) {
      if Before(a.source, b.source) && Before(b.source, c.source) { BeforeTransitive(a.source, b.source, c.source); }
      if Before(a.claim, b.claim) && Before(b.claim, c.claim) { BeforeTransitive(a.claim, b.claim, c.claim); }
      if Before(a.reason, b.reason) && Before(b.reason, c.reason) { BeforeTransitive(a.reason, b.reason, c.reason); }
    }
    forall a, b | a in cs && b in cs ensures a == b || CaveatBefore(a, b) || CaveatBefore(b, a) {
      BeforeTotal(a.source, b.source);
      BeforeTotal(a.claim, b.claim);
      BeforeTotal(a.reason, b.reason);
    }
  }

  function NormaliseCaveats(cs: seq<Caveat>): seq<Caveat> {
    SortUnique(CaveatBefore, cs)
  }

  lemma CaveatsNormalise(cs: seq<Caveat>, ds: seq<Caveat>)
    ensures Ascending(CaveatBefore, NormaliseCaveats(cs))
    ensures forall c :: c in NormaliseCaveats(cs) <==> c in cs
    ensures (forall c :: c in cs <==> c in ds) ==> NormaliseCaveats(cs) == NormaliseCaveats(ds)
    ensures (forall c :: c in cs <==> c in ds) && Ascending(CaveatBefore, ds) ==> NormaliseCaveats(cs) == ds
  {
    CaveatOrder(cs);
    SortUniqueAscending(CaveatBefore, cs);
    if forall c :: c in cs <==> c in ds {
      SortUniqueCanonical(CaveatBefore, cs, ds);
    }
  }

  /** The set with every caveat recorded, one by one. */
  function AddCaveats(s: AdmittedSet, cs: seq<Caveat>): AdmittedSet
    decreases |cs|
  {
    if cs == [] then s else AddCaveats(s.WithCaveat(cs[0]), cs[1..])
  }

  /** However they are recorded, the caveats end up in order, each once. */
  lemma {:induction false} AddCaveatsIs(s: AdmittedSet, cs: seq<Caveat>)
    requires Ascending(CaveatBefore, s.caveats)
    ensures AddCaveats(s, cs) == AdmittedSet(s.terms, NormaliseCaveats(s.caveats + cs))
    decreases |cs|
  {
    if cs == [] {
      assert s.caveats + cs == s.caveats;
      CaveatsNormalise(s.caveats, s.caveats);
    } else {
      var next := s.WithCaveat(cs[0]);
      CaveatsNormalise(s.caveats + [cs[0]], []);
      AddCaveatsIs(next, cs[1..]);
      CaveatsNormalise(next.caveats + cs[1..], s.caveats + cs);
    }
  }

  /** The caveat of an operation that widened its set to everything. */
  function Overflow(op: string): Caveat {
    Caveat("", "term count exceeded 256; widened to unconstrained", op)
  }

  // ---- Normal form ----

  /** A term in canonical form: no constraint is provably empty, and none is everything without saying why. */
  ghost predicate LiveTerm(t: Term) {
    forall k | k in t :: t[k].Canonical() && !t[k].Empty? && !t[k].Full?
  }

  predicate AllTop(t: Term) {
    forall k | k in t :: t[k].IsTop()
  }

  predicate Dead(t: Term) {
    exists k | k in t :: t[k].IsEmpty()
  }

  /** The term without the claims that admit everything with no provenance. */
  function Trimmed(t: Term): Term {
    map k | k in t && !(t[k].IsTop() && !t[k].Unknown?) :: t[k]
  }

  /** normaliseTerm of each term, the dead ones dropped. */
  function Live(terms: seq<Term>): seq<Term> {
    if terms == [] then []
    else (if Dead(terms[0]) then [] else [Trimmed(terms[0])]) + Live(terms[1..])
  }

  /** The first term of each rendering. */
  function FirstOfEach(terms: seq<Term>, seen: set<string>): seq<Term> {
    if terms == [] then []
    else
      var text := RenderTerm(terms[0]);
      if text in seen then FirstOfEach(terms[1..], seen)
      else [terms[0]] + FirstOfEach(terms[1..], seen + {text})
  }

  predicate AnyTop(terms: seq<Term>) {
    exists t | t in terms :: AllTop(t)
  }

  /** More different terms are left than the cap allows, and none admits everything. */
  predicate Overflows(terms: seq<Term>) {
    !AnyTop(Live(terms)) && |FirstOfEach(Live(terms), {})| > TERM_CAP
  }

  function Normalise(terms: seq<Term>, caveats: seq<Caveat>, op: string): AdmittedSet {
    var live := Live(terms);
    if AnyTop(live) then AdmittedSet([map[]], NormaliseCaveats(caveats))
    else if Overflows(terms) then AdmittedSet([map[]], NormaliseCaveats(caveats + [Overflow(op)]))
    else AdmittedSet(SortUnique(TermBefore, FirstOfEach(live, {})), NormaliseCaveats(caveats))
  }

  function NewAdmittedSet(terms: seq<Term>): AdmittedSet {
    Normalise(terms, [], "NewAdmittedSet")
  }

  function Products(x: Term, ys: seq<Term>): seq<Term>
    requires CanonicalClaims(x) && forall y | y in ys :: CanonicalClaims(y)
  {
    if ys == [] then [] else [Conjoin(x, ys[0])] + Products(x, ys[1..])
  }

  function CrossProduct(xs: seq<Term>, ys: seq<Term>): seq<Term>
    requires forall x | x in xs :: CanonicalClaims(x)
    requires forall y | y in ys :: CanonicalClaims(y)
  {
    if xs == [] then [] else Products(xs[0], ys) + CrossProduct(xs[1..], ys)
  }

  function MeetSets(a: AdmittedSet, b: AdmittedSet): AdmittedSet
    requires a.Canonical() && b.Canonical()
  {
    Normalise(CrossProduct(a.terms, b.terms), a.caveats + b.caveats, "Meet")
  }

  function JoinSets(a: AdmittedSet, b: AdmittedSet): AdmittedSet {
    Normalise(a.terms + b.terms, a.caveats + b.caveats, "Join")
  }

  // ---- The loops the engine runs ----

  method BuildNormal(terms: seq<Term>, caveats: seq<Caveat>, op: string) returns (s: AdmittedSet)
    ensures s == Normalise(terms, caveats, op)
  {
    hide RenderTerm, AllTop, Dead, Trimmed, NormaliseCaveats;
    var live: seq<Term> := [];
    for i := 0 to |terms|
      invariant Live(terms) == live + Live(terms[i..])
      invariant forall t | t in live :: !AllTop(t)
    {
      assert terms[i..][0] == terms[i] && terms[i..][1..] == terms[i + 1..];
      if !Dead(terms[i]) {
        var term := Trimmed(terms[i]);
        assert live + ([term] + Live(terms[i + 1..])) == (live + [term]) + Live(terms[i + 1..]);
        if AllTop(term) {
          assert term in Live(terms);
          return AdmittedSet([map[]], NormaliseCaveats(caveats));
        }
        live := live + [term];
      } else {
        assert [] + Live(terms[i + 1..]) == Live(terms[i + 1..]);
      }
    }
    assert live + [] == live;
    var seen: set<string> := {};
    var kept: seq<Term> := [];
    for i := 0 to |live|
      invariant FirstOfEach(live, {}) == kept + FirstOfEach(live[i..], seen)
      invariant |kept| <= TERM_CAP
    {
      assert live[i..][0] == live[i] && live[i..][1..] == live[i + 1..];
      var text := RenderTerm(live[i]);
      if text !in seen {
        ghost var rest := FirstOfEach(live[i + 1..], seen + {text});
        assert kept + ([live[i]] + rest) == (kept + [live[i]]) + rest;
        seen := seen + {text};
        kept := kept + [live[i]];
        if |kept| > TERM_CAP {
          return AdmittedSet([map[]], NormaliseCaveats(caveats + [Overflow(op)]));
        }
      }
    }
    assert kept + [] == kept;
    return AdmittedSet(SortUnique(TermBefore, kept), NormaliseCaveats(caveats));
  }

  lemma ProductsFrom(x: Term, ys: seq<Term>, j: nat)
    requires CanonicalClaims(x) && (forall y | y in ys :: CanonicalClaims(y)) && j <= |ys|
    ensures j == |ys| ==> Products(x, ys[j..]) == []
    ensures j < |ys| ==> Products(x, ys[j..]) == [Conjoin(x, ys[j])] + Products(x, ys[j + 1..])
  {
    hide Conjoin, CanonicalClaims;
    if j < |ys| {
      assert ys[j..][0] == ys[j] && ys[j..][1..] == ys[j + 1..];
    }
  }

  lemma CrossProductFrom(xs: seq<Term>, ys: seq<Term>, i: nat)
    requires (forall x | x in xs :: CanonicalClaims(x)) && (forall y | y in ys :: CanonicalClaims(y)) && i <= |xs|
    ensures i == |xs| ==> CrossProduct(xs[i..], ys) == []
    ensures i < |xs| ==> CrossProduct(xs[i..], ys) == Products(xs[i], ys) + CrossProduct(xs[i + 1..], ys)
  {
    hide Products, CanonicalClaims;
    if i < |xs| {
      assert xs[i..][0] == xs[i] && xs[i..][1..] == xs[i + 1..];
    }
  }

  lemma Reassociate(a: seq<Term>, b: seq<Term>, c: seq<Term>)
    ensures a + (b + c) == (a + b) + c && a + [] == a
  {
  }

  method BuildProduct(xs: seq<Term>, ys: seq<Term>) returns (product: seq<Term>)
    requires forall x | x in xs :: CanonicalClaims(x)
    requires forall y | y in ys :: CanonicalClaims(y)
    ensures product == CrossProduct(xs, ys)
  {
    hide Conjoin, Products, CanonicalClaims, CrossProduct;
    product := [];
    assert xs[0..] == xs && ys[0..] == ys;
    for i := 0 to |xs|
      invariant CrossProduct(xs, ys) == product + CrossProduct(xs[i..], ys)
    {
      CrossProductFrom(xs, ys, i);
      ghost var before, rest := product, CrossProduct(xs[i + 1..], ys);
      Reassociate(before, Products(xs[i], ys), rest);
      for j := 0 to |ys|
        invariant before + Products(xs[i], ys) == product + Products(xs[i], ys[j..])
      {
        ProductsFrom(xs[i], ys, j);
        var merged := MergeTerms(xs[i], ys[j]);
        Reassociate(product, [merged], Products(xs[i], ys[j + 1..]));
        product := product + [merged];
      }
      ProductsFrom(xs[i], ys, |ys|);
      Reassociate(product, [], []);
    }
    CrossProductFrom(xs, ys, |xs|);
  }

  method BuildMeet(a: AdmittedSet, b: AdmittedSet) returns (s: AdmittedSet)
    requires a.Canonical() && b.Canonical()
    ensures s == MeetSets(a, b)
  {
    var product := BuildProduct(a.terms, b.terms);
    s := BuildNormal(product, a.caveats + b.caveats, "Meet");
  }

  /** One failure list is closer to none than another: fewer claims, or as many and a smaller first. */
  predicate Closer(f: seq<string>, g: seq<string>) {
    |f| < |g| || (|f| == |g| && f != [] && g != [] && Before(f[0], g[0]))
  }

  function FailuresOf(t: Term, token: Token): seq<string> {
    SortedKeys(FailedClaims(t, token))
  }

  /** The first index at which a term fails as few claims as any. */
  ghost predicate IsClosest(terms: seq<Term>, token: Token, i: nat) {
    i < |terms|
    && (forall j | 0 <= j < |terms| :: !Closer(FailuresOf(terms[j], token), FailuresOf(terms[i], token)))
    && (forall j | 0 <= j < i :: Closer(FailuresOf(terms[i], token), FailuresOf(terms[j], token)))
  }

  /** A rejection explained: a claim of the closest term, unless the set admits nothing at all. */
  method Excludes(a: AdmittedSet, token: Token) returns (excluded: bool, claim: string, got: Option<StringSet>)
    ensures excluded <==> !a.Admits(token)
    ensures !excluded || a.IsEmpty() ==> claim == "" && got.None?
    ensures excluded && !a.IsEmpty() ==>
      exists i: nat :: IsClosest(a.terms, token, i) && FailuresOf(a.terms[i], token) != []
        && claim == FailuresOf(a.terms[i], token)[0] && claim in a.terms[i] && got == Some(a.terms[i][claim])
  {
    hide Closer, Satisfies, IsClosest, FailedClaims, NoneSatisfied;
    NoneAdmit(a, token);
    var closest: seq<string> := [];
    var at := 0;
    for n := 0 to |a.terms|
      invariant n > 0 ==> closest != [] && at < n && closest == FailuresOf(a.terms[at], token) && IsClosest(a.terms[..n], token, at)
      invariant n == 0 ==> closest == []
      invariant NoneSatisfied(a.terms, token, n)
    {
      var failed := Failures(a.terms[n], token);
      if failed == [] {
        return false, "", None;
      }
      ghost var before := at;
      if closest == [] || Closer(failed, closest) {
        closest, at := failed, n;
      }
      ClosestSoFar(a.terms, token, n, before, at);
      assert !Satisfies(a.terms[n], token);
      NoneSoFar(a.terms, token, n);
    }
    if closest == [] {
      return true, "", None;
    }
    assert a.terms[..|a.terms|] == a.terms;
    FirstFailure(a.terms[at], token);
    return true, closest[0], Some(a.terms[at][closest[0]]);
  }

  ghost predicate NoneSatisfied(terms: seq<Term>, token: Token, n: nat) {
    forall j | 0 <= j < n <= |terms| :: !Satisfies(terms[j], token)
  }

  lemma NoneSoFar(terms: seq<Term>, token: Token, n: nat)
    requires n < |terms| && NoneSatisfied(terms, token, n) && !Satisfies(terms[n], token)
    ensures NoneSatisfied(terms, token, n + 1)
  {
  }

  lemma NoneAdmit(a: AdmittedSet, token: Token)
    ensures NoneSatisfied(a.terms, token, 0)
    ensures NoneSatisfied(a.terms, token, |a.terms|) <==> !a.Admits(token)
  {
  }

  lemma FirstFailure(t: Term, token: Token)
    requires FailuresOf(t, token) != []
    ensures FailuresOf(t, token)[0] in t
  {
    assert FailuresOf(t, token)[0] in FailedClaims(t, token);
  }

  lemma ClosestSoFar(terms: seq<Term>, token: Token, n: nat, before: nat, at: nat)
    requires n < |terms| && (n > 0 ==> before < n && IsClosest(terms[..n], token, before))
    requires n > 0 ==> FailuresOf(terms[before], token) != []
    requires at == if n == 0 || Closer(FailuresOf(terms[n], token), FailuresOf(terms[before], token)) then n else before
    ensures IsClosest(terms[..n + 1], token, at)
  {
    var some, more := terms[..n], terms[..n + 1];
    var f := FailuresOf(terms[at], token);
    forall j | 0 <= j < n + 1
      ensures !Closer(FailuresOf(more[j], token), f)
      ensures j < at ==> Closer(f, FailuresOf(more[j], token))
    {
      CloserIsAsymmetric(f, f);
      if j < n {
        assert some[j] == more[j] && some[before] == terms[before];
        if at == n { CloserIsWeakOrder(f, FailuresOf(terms[before], token), FailuresOf(more[j], token)); }
        CloserIsAsymmetric(f, FailuresOf(more[j], token));
      }
    }
  }

  lemma CloserIsAsymmetric(f: seq<string>, g: seq<string>)
    ensures Closer(f, g) ==> !Closer(g, f)
  {
    if f != [] && g != [] {
      if Before(f[0], g[0]) && Before(g[0], f[0]) { BeforeTransitive(f[0], g[0], f[0]); }
      BeforeIrreflexive(f[0]);
    }
  }

  lemma CloserIsWeakOrder(f: seq<string>, g: seq<string>, h: seq<string>)
    requires Closer(f, g) && !Closer(h, g)
    ensures Closer(f, h)
  {
    if |f| == |g| == |h| {
      assert h != [] ;
      BeforeTotal(g[0], h[0]);
      if g[0] != h[0] { BeforeTransitive(f[0], g[0], h[0]); }
    }
  }

  // ---- What normal form keeps ----

  /** The terms an admitted set may be built from. */
  ghost predicate Formed(terms: seq<Term>) {
    forall t | t in terms :: CanonicalClaims(t)
  }

  lemma {:induction false} LiveTerms(terms: seq<Term>)
    requires Formed(terms)
    ensures Formed(Live(terms))
    ensures forall t | t in Live(terms) :: LiveTerm(t)
    ensures forall t :: t in Live(terms) <==> exists u :: u in terms && !Dead(u) && t == Trimmed(u)
  {
    if terms != [] {
      LiveTerms(terms[1..]);
      var u := terms[0];
      assert forall x :: x in terms <==> x == u || x in terms[1..];
      if !Dead(u) {
        assert Trimmed(u) in Live(terms);
      }
    }
  }

  lemma TrimmedIsExact(t: Term, token: Token)
    ensures Dead(t) ==> !Satisfies(t, token)
    ensures Satisfies(t, token) <==> Satisfies(Trimmed(t), token) && forall k | k in t :: t[k].Full? || k in Trimmed(t)
  {
    if Dead(t) {
      var k :| k in t && t[k].IsEmpty();
      assert !Meets(t[k], k, token);
    }
    if Satisfies(t, token) {
      forall k | k in Trimmed(t) ensures Meets(Trimmed(t)[k], k, token) {
        assert Meets(t[k], k, token);
      }
    }
    if Satisfies(Trimmed(t), token) {
      forall k | k in t ensures Meets(t[k], k, token) {
        if k in Trimmed(t) {
          assert Meets(Trimmed(t)[k], k, token);
        }
      }
    }
  }

  // ---- What the seen renderings drop ----

  /** Different terms of the list render differently. */
  ghost predicate RendersApart(terms: seq<Term>) {
    forall s, t | s in terms && t in terms && RenderTerm(s) == RenderTerm(t) :: s == t
  }

  /** No two terms of the list render alike. */
  ghost predicate EachItsOwn(terms: seq<Term>) {
    forall i, j | 0 <= i < j < |terms| :: RenderTerm(terms[i]) != RenderTerm(terms[j])
  }

  /** What of terms whose renderings are not among those seen is kept: some of them, one for each rendering. */
  ghost predicate KeepsOneEach(terms: seq<Term>, seen: set<string>, kept: seq<Term>) {
    && (forall t | t in kept :: t in terms && RenderTerm(t) !in seen)
    && (forall t | t in terms && RenderTerm(t) !in seen :: exists s :: s in kept && RenderTerm(s) == RenderTerm(t))
    && EachItsOwn(kept)
  }

  lemma SkipsSeen(terms: seq<Term>, seen: set<string>, kept: seq<Term>)
    requires terms != [] && RenderTerm(terms[0]) in seen && KeepsOneEach(terms[1..], seen, kept)
    ensures KeepsOneEach(terms, seen, kept)
  {
    hide RenderTerm, EachItsOwn;
    assert forall t :: t in terms <==> t == terms[0] || t in terms[1..];
  }

  lemma KeepsFirst(terms: seq<Term>, seen: set<string>, kept: seq<Term>)
    requires terms != [] && RenderTerm(terms[0]) !in seen && KeepsOneEach(terms[1..], seen + {RenderTerm(terms[0])}, kept)
    ensures KeepsOneEach(terms, seen, [terms[0]] + kept)
  {
    hide RenderTerm;
    assert forall t :: t in terms <==> t == terms[0] || t in terms[1..];
    OneMoreOfItsOwn(terms[0], kept);
    hide EachItsOwn;
    var all := [terms[0]] + kept;
    assert terms[0] in all;
    forall t | t in terms && RenderTerm(t) !in seen ensures exists s :: s in all && RenderTerm(s) == RenderTerm(t) {
      if RenderTerm(t) != RenderTerm(terms[0]) {
        var s :| s in kept && RenderTerm(s) == RenderTerm(t);
        assert s in all;
      }
    }
  }

  /** Of each rendering not seen before, one term is kept. */
  lemma {:induction false} FirstOfEachIs(terms: seq<Term>, seen: set<string>)
    ensures KeepsOneEach(terms, seen, FirstOfEach(terms, seen))
  {
    hide RenderTerm;
    if terms != [] {
      hide KeepsOneEach;
      var text := RenderTerm(terms[0]);
      if text in seen {
        FirstOfEachIs(terms[1..], seen);
        SkipsSeen(terms, seen, FirstOfEach(terms[1..], seen));
      } else {
        FirstOfEachIs(terms[1..], seen + {text});
        KeepsFirst(terms, seen, FirstOfEach(terms[1..], seen + {text}));
      }
    }
  }

  lemma OneMoreOfItsOwn(t: Term, rest: seq<Term>)
    requires EachItsOwn(rest) && forall s | s in rest :: RenderTerm(s) != RenderTerm(t)
    ensures EachItsOwn([t] + rest) && forall s :: s in [t] + rest <==> s == t || s in rest
  {
    hide RenderTerm;
  }

  /** Every term is kept exactly when different terms render differently. */
  lemma NothingDroppedExactlyWhen(terms: seq<Term>)
    ensures (forall t | t in terms :: t in FirstOfEach(terms, {})) <==> RendersApart(terms)
  {
    hide RenderTerm, FirstOfEach;
    FirstOfEachIs(terms, {});
    var kept := FirstOfEach(terms, {});
    OwnIsApart(kept);
    hide EachItsOwn;
    if RendersApart(terms) {
      forall t | t in terms ensures t in kept {
        var s :| s in kept && RenderTerm(s) == RenderTerm(t);
        assert s in terms && s == t;
      }
    }
    if forall t | t in terms :: t in kept {
      forall s, t | s in terms && t in terms && RenderTerm(s) == RenderTerm(t) ensures s == t {
        assert s in kept && t in kept;
      }
    }
  }

  lemma OwnIsApart(terms: seq<Term>)
    requires EachItsOwn(terms)
    ensures RendersApart(terms)
  {
    hide RenderTerm;
    forall s, t | s in terms && t in terms && RenderTerm(s) == RenderTerm(t) ensures s == t {
      var i :| 0 <= i < |terms| && terms[i] == s;
      var j :| 0 <= j < |terms| && terms[j] == t;
    }
  }

  /** How many are kept is how many renderings there are, whatever the order. */
  lemma {:induction false} FirstOfEachCount(terms: seq<Term>, seen: set<string>)
    ensures |FirstOfEach(terms, seen)| == |RenderingsOf(terms) - seen|
  {
    hide RenderTerm;
    if terms != [] {
      var text, rest := RenderTerm(terms[0]), terms[1..];
      assert RenderingsOf(terms) == {text} + RenderingsOf(rest) by {
        assert forall t :: t in terms <==> t == terms[0] || t in rest;
      }
      if text in seen {
        FirstOfEachCount(rest, seen);
        assert RenderingsOf(terms) - seen == RenderingsOf(rest) - seen;
      } else {
        FirstOfEachCount(rest, seen + {text});
        assert RenderingsOf(terms) - seen == {text} + (RenderingsOf(rest) - (seen + {text}));
      }
    }
  }

  function RenderingsOf(terms: seq<Term>): set<string> {
    set t | t in terms :: RenderTerm(t)
  }

  /** The order of renderings is strict, and total on terms no two of which render alike. */
  lemma TermOrder(terms: seq<Term>)
    requires EachItsOwn(terms)
    ensures StrictOrder(TermBefore) && TotalOn(TermBefore, terms)
  {
    hide RenderTerm, Before;
    BeforeOrder([]);
    forall a, b | a in terms && b in terms ensures a == b || TermBefore(a, b) || TermBefore(b, a) {
      BeforeTotal(RenderTerm(a), RenderTerm(b));
      var i :| 0 <= i < |terms| && terms[i] == a;
      var j :| 0 <= j < |terms| && terms[j] == b;
    }
  }

  /** Plain names of live claims are enough, and so are an ascending list, and one term alone. */
  lemma PlainRendersApart(terms: seq<Term>)
    requires forall t | t in terms :: LiveTerm(t) && PlainClaims(t)
    ensures RendersApart(terms)
  {
    forall s, t | s in terms && t in terms && RenderTerm(s) == RenderTerm(t) ensures s == t {
      LiveIsQuoted(s);
      LiveIsQuoted(t);
      TermRenderingIsInjective(s, t);
    }
  }

  lemma LiveIsQuoted(t: Term)
    requires LiveTerm(t)
    ensures Quoted(t) && CanonicalClaims(t)
  {
  }

  lemma AscendingRendersApart(terms: seq<Term>)
    requires Ascending(TermBefore, terms)
    ensures RendersApart(terms) && EachItsOwn(terms)
  {
    hide RenderTerm, Before;
    BeforeOrder([]);
    forall i, j | 0 <= i < j < |terms| ensures RenderTerm(terms[i]) != RenderTerm(terms[j]) {
      assert TermBefore(terms[i], terms[j]);
    }
    OwnIsApart(terms);
  }

  /**
   * Normalising the terms drops none but repeats: one admits everything, or different terms that are left render
   * differently. Past the cap it keeps no term at all.
   */
  ghost predicate LosesNothing(terms: seq<Term>) {
    AnyTop(Live(terms)) || Overflows(terms) || RendersApart(Live(terms))
  }

  lemma PlainLosesNothing(terms: seq<Term>)
    requires Formed(terms) && forall t | t in terms :: PlainClaims(t)
    ensures LosesNothing(terms)
  {
    LiveTerms(terms);
    forall t | t in Live(terms) ensures PlainClaims(t) {
      var u :| u in terms && !Dead(u) && t == Trimmed(u);
    }
    PlainRendersApart(Live(terms));
  }

  /** What is built of terms with plain claim names has plain claim names. */
  lemma PlainNormal(terms: seq<Term>, caveats: seq<Caveat>, op: string)
    requires Formed(terms) && forall t | t in terms :: PlainClaims(t)
    ensures forall t | t in Normalise(terms, caveats, op).terms :: PlainClaims(t)
    ensures Ascending(CaveatBefore, Normalise(terms, caveats, op).caveats)
  {
    hide FirstOfEach, SortUnique, NormaliseCaveats;
    LiveTerms(terms);
    KeptIsExact(Live(terms));
    CaveatsNormalise(caveats, []);
    CaveatsNormalise(caveats + [Overflow(op)], []);
  }

  /** Two sets with plain claim names meet without losing a term. */
  lemma PlainProduct(a: AdmittedSet, b: AdmittedSet)
    requires a.Canonical() && b.Canonical() && forall t | t in a.terms + b.terms :: PlainClaims(t)
    ensures LosesNothing(Product(a, b))
  {
    hide LosesNothing, Conjoin, AdmittedSet.Canonical;
    FormedSets(a, b);
    CrossProductIs(a.terms, b.terms);
    forall t | t in Product(a, b) ensures PlainClaims(t) {
      var x, y :| x in a.terms && y in b.terms && t == Conjoin(x, y);
      ConjoinIsPlain(x, y);
    }
    PlainLosesNothing(Product(a, b));
  }

  lemma ConjoinIsPlain(x: Term, y: Term)
    requires CanonicalClaims(x) && CanonicalClaims(y)
    ensures PlainClaims(x) && PlainClaims(y) ==> PlainClaims(Conjoin(x, y))
  {
  }

  lemma OneTermLosesNothing(t: Term)
    ensures LosesNothing([t])
  {
    assert [t][1..] == [];
    assert |Live([t])| <= 1;
  }

  /** As many members as there are, in any two lists of the same values without repeats. */
  lemma SameLength<T>(xs: seq<T>, ys: seq<T>)
    requires forall i, j | 0 <= i < j < |xs| :: xs[i] != xs[j]
    requires forall i, j | 0 <= i < j < |ys| :: ys[i] != ys[j]
    requires forall x :: x in xs <==> x in ys
    ensures |xs| == |ys|
  {
    DistinctCount(xs);
    DistinctCount(ys);
    assert (set x | x in xs) == (set y | y in ys);
  }

  lemma {:induction false} DistinctCount<T>(xs: seq<T>)
    requires forall i, j | 0 <= i < j < |xs| :: xs[i] != xs[j]
    ensures |set x | x in xs| == |xs|
  {
    if xs != [] {
      DistinctCount(xs[1..]);
      assert (set x | x in xs) == {xs[0]} + (set x | x in xs[1..]);
    }
  }

  lemma AscendingIsDistinct<T(!new)>(before: (T, T) -> bool, xs: seq<T>)
    requires StrictOrder(before) && Ascending(before, xs)
    ensures forall i, j | 0 <= i < j < |xs| :: xs[i] != xs[j]
  {
  }

  // ---- What the normal form admits ----

  /**
   * Canonical and bounded; it admits everything once it overflows, no token no term admits until then, and every
   * token some term admits where nothing is lost; and it is empty only where no term admits a token.
   */
  lemma NormaliseIsExact(terms: seq<Term>, caveats: seq<Caveat>, op: string, token: Token)
    requires Formed(terms)
    ensures var s := Normalise(terms, caveats, op);
            && s.Canonical()
            && (Overflows(terms) ==> s.Admits(token))
            && (!Overflows(terms) && s.Admits(token) ==> exists t :: t in terms && Satisfies(t, token))
            && (LosesNothing(terms) && (exists t :: t in terms && Satisfies(t, token)) ==> s.Admits(token))
            && (s.IsEmpty() ==> forall t | t in terms :: !Satisfies(t, token))
    ensures forall c :: c in Normalise(terms, caveats, op).caveats <==> c in caveats || (Overflows(terms) && c == Overflow(op))
  {
    hide FirstOfEach, SortUnique, NormaliseCaveats, Satisfies, LiveTerm, Live, RenderTerm, Ascending, CaveatBefore, TermBefore;
    var s := Normalise(terms, caveats, op);
    var live := Live(terms);
    LiveTerms(terms);
    LiveAdmits(terms, token);
    CaveatsNormalise(caveats, []);
    CaveatsNormalise(caveats + [Overflow(op)], []);
    EverythingIsCanonical(s.caveats, token);
    if AnyTop(live) {
      var t :| t in live && AllTop(t);
      AllTopAdmits(t, token);
      assert Satisfies(t, token);
    } else if !Overflows(terms) {
      KeptIsExact(live);
      KeptIsCanonical(live, s);
      if live != [] {
        assert live[0] in live;
      }
      assert forall t | t in terms && Satisfies(t, token) :: live != [];
    }
  }

  lemma KeptIsCanonical(live: seq<Term>, s: AdmittedSet)
    requires (forall t | t in live :: LiveTerm(t)) && !AnyTop(live) && |s.terms| <= TERM_CAP && Ascending(CaveatBefore, s.caveats)
    requires Ascending(TermBefore, s.terms) && forall t | t in s.terms :: t in live
    ensures s.Canonical()
  {
    hide LiveTerm, TermBefore, CaveatBefore;
  }

  lemma EverythingIsCanonical(caveats: seq<Caveat>, token: Token)
    requires Ascending(CaveatBefore, caveats)
    ensures var s := AdmittedSet([map[]], caveats); s.Canonical() && s.Admits(token)
  {
    assert Satisfies(map[], token);
  }

  lemma AllTopAdmits(t: Term, token: Token)
    requires AllTop(t)
    ensures Satisfies(t, token)
  {
  }

  lemma LiveAdmits(terms: seq<Term>, token: Token)
    requires Formed(terms)
    ensures (exists t :: t in terms && Satisfies(t, token)) <==> exists t :: t in Live(terms) && Satisfies(t, token)
  {
    LiveTerms(terms);
    if t :| t in terms && Satisfies(t, token) {
      TrimmedIsExact(t, token);
      assert Trimmed(t) in Live(terms);
    }
    if t :| t in Live(terms) && Satisfies(t, token) {
      var u :| u in terms && !Dead(u) && t == Trimmed(u);
      TrimmedIsExact(u, token);
      assert Satisfies(u, token);
    }
  }

  /** What is kept of live terms: one of each rendering, in order; all of them exactly when they render apart. */
  lemma KeptIsExact(live: seq<Term>)
    ensures var kept := SortUnique(TermBefore, FirstOfEach(live, {}));
            && Ascending(TermBefore, kept) && |kept| == |FirstOfEach(live, {})|
            && (forall t | t in kept :: t in live)
            && ((forall t | t in live :: t in kept) <==> RendersApart(live))
            && (live != [] ==> kept != [])
  {
    hide FirstOfEach, SortUnique, RenderTerm, Before;
    var first := FirstOfEach(live, {});
    FirstOfEachIs(live, {});
    NothingDroppedExactlyWhen(live);
    TermOrder(first);
    SortUniqueAscending(TermBefore, first);
    var kept := SortUnique(TermBefore, first);
    AscendingIsDistinct(TermBefore, kept);
    AscendingIsDistinctOf(first);
    SameLength(first, kept);
    if live != [] {
      assert live[0] in live;
      var s :| s in first;
      assert s in kept;
    }
  }

  lemma AscendingIsDistinctOf(first: seq<Term>)
    requires EachItsOwn(first)
    ensures forall i, j | 0 <= i < j < |first| :: first[i] != first[j]
  {
    hide RenderTerm;
  }

  // ---- The order terms arrive in ----

  /** The same terms, in another order, any number of times. */
  ghost predicate SameTerms(xs: seq<Term>, ys: seq<Term>) {
    forall t :: t in xs <==> t in ys
  }

  lemma LiveAlike(xs: seq<Term>, ys: seq<Term>)
    requires Formed(xs) && SameTerms(xs, ys)
    ensures Formed(ys) && SameTerms(Live(xs), Live(ys)) && (AnyTop(Live(xs)) <==> AnyTop(Live(ys)))
    ensures RenderingsOf(Live(xs)) == RenderingsOf(Live(ys)) && (Overflows(xs) <==> Overflows(ys))
  {
    LiveTerms(xs);
    LiveTerms(ys);
    hide RenderTerm, FirstOfEach, Live;
    assert RenderingsOf(Live(xs)) == RenderingsOf(Live(ys));
    FirstOfEachCount(Live(xs), {});
    FirstOfEachCount(Live(ys), {});
    assert RenderingsOf(Live(xs)) - {} == RenderingsOf(Live(xs)) && RenderingsOf(Live(ys)) - {} == RenderingsOf(Live(ys));
  }

  /** Where nothing is lost the answer depends neither on the order the terms and caveats arrived in, nor on repeats. */
  lemma NormaliseIsOrderFree(xs: seq<Term>, ys: seq<Term>, cs: seq<Caveat>, ds: seq<Caveat>, op: string)
    requires Formed(xs) && LosesNothing(xs) && SameTerms(xs, ys) && forall c :: c in cs <==> c in ds
    ensures Normalise(xs, cs, op) == Normalise(ys, ds, op)
  {
    hide FirstOfEach, NormaliseCaveats, Live, SortUnique, AllTop, Ascending, RenderTerm;
    CaveatsNormalise(cs, ds);
    CaveatsNormalise(cs + [Overflow(op)], ds + [Overflow(op)]);
    LiveAlike(xs, ys);
    if !AnyTop(Live(xs)) && !Overflows(xs) {
      KeptAlike(Live(xs), Live(ys));
    }
  }

  lemma KeptAlike(a: seq<Term>, b: seq<Term>)
    requires RendersApart(a) && SameTerms(a, b)
    ensures SortUnique(TermBefore, FirstOfEach(a, {})) == SortUnique(TermBefore, FirstOfEach(b, {}))
  {
    hide RenderTerm, FirstOfEach, SortUnique;
    KeptIsExact(a);
    KeptIsExact(b);
    TermOrder([]);
    AscendingUnique(TermBefore, SortUnique(TermBefore, FirstOfEach(a, {})), SortUnique(TermBefore, FirstOfEach(b, {})));
  }

  /** Where something is lost the order matters: put first, a term that was dropped is kept. */
  lemma OrderMattersExactlyWhen(xs: seq<Term>, op: string)
    requires Formed(xs)
    ensures LosesNothing(xs) <==> forall ys | SameTerms(xs, ys) :: Normalise(ys, [], op) == Normalise(xs, [], op)
  {
    hide FirstOfEach, NormaliseCaveats, SortUnique, AllTop, Ascending, RenderTerm, Live;
    if LosesNothing(xs) {
      forall ys | SameTerms(xs, ys) ensures Normalise(ys, [], op) == Normalise(xs, [], op) {
        NormaliseIsOrderFree(xs, ys, [], [], op);
      }
    } else {
      var ys := DroppedFirst(xs, op);
      assert SameTerms(xs, ys) && Normalise(ys, [], op) != Normalise(xs, [], op);
    }
  }

  lemma DroppedFirst(xs: seq<Term>, op: string) returns (ys: seq<Term>)
    requires Formed(xs) && !LosesNothing(xs)
    ensures SameTerms(xs, ys) && Normalise(ys, [], op) != Normalise(xs, [], op)
  {
    hide FirstOfEach, NormaliseCaveats, SortUnique, AllTop, Ascending, RenderTerm, Live;
    KeptIsExact(Live(xs));
    var kept := SortUnique(TermBefore, FirstOfEach(Live(xs), {}));
    var t :| t in Live(xs) && t !in kept;
    LiveTerms(xs);
    var u :| u in xs && !Dead(u) && t == Trimmed(u);
    ys := [u] + xs;
    assert SameTerms(xs, ys);
    LiveAlike(xs, ys);
    LiveOfMore(u, xs);
    FirstIsKept(t, Live(xs));
    assert t in Normalise(ys, [], op).terms && t !in Normalise(xs, [], op).terms;
  }

  lemma LiveOfMore(u: Term, xs: seq<Term>)
    requires !Dead(u)
    ensures Live([u] + xs) == [Trimmed(u)] + Live(xs)
  {
    assert ([u] + xs)[1..] == xs;
  }

  lemma FirstIsKept(t: Term, rest: seq<Term>)
    ensures t in SortUnique(TermBefore, FirstOfEach([t] + rest, {}))
  {
    hide RenderTerm, SortUnique, Before;
    var first := FirstOfEach([t] + rest, {});
    assert ([t] + rest)[1..] == rest;
    assert t in first;
    FirstOfEachIs([t] + rest, {});
    TermOrder(first);
    SortUniqueAscending(TermBefore, first);
  }

  /** Normalising a canonical set changes nothing. */
  lemma NormaliseIsStable(s: AdmittedSet, caveats: seq<Caveat>, op: string)
    requires s.Canonical()
    ensures Normalise(s.terms, caveats, op) == AdmittedSet(s.terms, NormaliseCaveats(caveats))
    ensures LosesNothing(s.terms) && !Overflows(s.terms)
  {
    hide FirstOfEach, SortUnique, RenderTerm, NormaliseCaveats, Live;
    CanonicalIsLive(s);
    var live := Live(s.terms);
    if AnyTop(live) {
      var t :| t in live && AllTop(t);
      assert s.terms == [map[]];
    } else {
      AscendingRendersApart(s.terms);
      assert RendersApart(live);
      KeptIsExact(live);
      TermOrder([]);
      AscendingUnique(TermBefore, SortUnique(TermBefore, FirstOfEach(live, {})), s.terms);
    }
  }

  lemma CanonicalIsLive(s: AdmittedSet)
    requires s.Canonical()
    ensures Formed(s.terms) && SameTerms(Live(s.terms), s.terms)
  {
    assert Formed(s.terms);
    LiveTerms(s.terms);
    forall t | t in s.terms ensures !Dead(t) && Trimmed(t) == t {
      assert LiveTerm(t);
    }
  }

  // ---- Meet and Join ----

  lemma {:induction false} ProductsAre(x: Term, ys: seq<Term>)
    requires CanonicalClaims(x) && Formed(ys)
    ensures Formed(Products(x, ys))
    ensures forall t :: t in Products(x, ys) <==> exists y :: y in ys && t == Conjoin(x, y)
  {
    if ys != [] {
      hide Conjoin;
      ProductsAre(x, ys[1..]);
      ConjoinIsExact(x, ys[0], map[]);
      assert forall y :: y in ys <==> y == ys[0] || y in ys[1..];
    }
  }

  lemma {:induction false} CrossProductIs(xs: seq<Term>, ys: seq<Term>)
    requires Formed(xs) && Formed(ys)
    ensures Formed(CrossProduct(xs, ys))
    ensures forall t :: t in CrossProduct(xs, ys) <==> exists x, y :: x in xs && y in ys && t == Conjoin(x, y)
  {
    if xs != [] {
      hide Conjoin;
      ProductsAre(xs[0], ys);
      CrossProductIs(xs[1..], ys);
      assert forall x :: x in xs <==> x == xs[0] || x in xs[1..];
    }
  }

  lemma CrossProductAdmits(a: AdmittedSet, b: AdmittedSet, token: Token)
    requires a.Canonical() && b.Canonical()
    ensures (exists t :: t in CrossProduct(a.terms, b.terms) && Satisfies(t, token)) <==> a.Admits(token) && b.Admits(token)
  {
    CrossProductIs(a.terms, b.terms);
    if t :| t in CrossProduct(a.terms, b.terms) && Satisfies(t, token) {
      var x, y :| x in a.terms && y in b.terms && t == Conjoin(x, y);
      ConjoinIsExact(x, y, token);
    }
    if a.Admits(token) && b.Admits(token) {
      var x :| x in a.terms && Satisfies(x, token);
      var y :| y in b.terms && Satisfies(y, token);
      ConjoinIsExact(x, y, token);
      assert Conjoin(x, y) in CrossProduct(a.terms, b.terms);
    }
  }

  /** The terms Meet normalises. */
  function Product(a: AdmittedSet, b: AdmittedSet): seq<Term>
    requires a.Canonical() && b.Canonical()
  {
    CrossProduct(a.terms, b.terms)
  }

  /**
   * Meet admits no token but what both admit until it overflows, and every token both admit where nothing is lost;
   * past the cap it admits everything and says so; it is empty only where no token is both sides', and it keeps
   * every caveat.
   */
  lemma MeetSetsIsExact(a: AdmittedSet, b: AdmittedSet, token: Token)
    requires a.Canonical() && b.Canonical()
    ensures var s, all := MeetSets(a, b), Product(a, b);
            && s.Canonical()
            && (Overflows(all) ==> s.Admits(token))
            && (!Overflows(all) && s.Admits(token) ==> a.Admits(token) && b.Admits(token))
            && (LosesNothing(all) && a.Admits(token) && b.Admits(token) ==> s.Admits(token))
            && (s.IsEmpty() ==> !(a.Admits(token) && b.Admits(token)))
    ensures forall c :: c in MeetSets(a, b).caveats <==>
              c in a.caveats || c in b.caveats || (Overflows(Product(a, b)) && c == Overflow("Meet"))
  {
    hide Satisfies, AdmittedSet.Canonical, LosesNothing, Overflows, Normalise;
    FormedSets(a, b);
    CrossProductIs(a.terms, b.terms);
    CrossProductAdmits(a, b, token);
    NormaliseIsExact(Product(a, b), a.caveats + b.caveats, "Meet", token);
  }

  lemma FormedSets(a: AdmittedSet, b: AdmittedSet)
    requires a.Canonical() && b.Canonical()
    ensures Formed(a.terms) && Formed(b.terms)
  {
    CanonicalIsLive(a);
    CanonicalIsLive(b);
  }

  /** Join admits what either admits, as exactly as Meet what both admit. */
  lemma JoinSetsIsExact(a: AdmittedSet, b: AdmittedSet, token: Token)
    requires a.Canonical() && b.Canonical()
    ensures var s, all := JoinSets(a, b), a.terms + b.terms;
            && s.Canonical()
            && (Overflows(all) ==> s.Admits(token))
            && (!Overflows(all) && s.Admits(token) ==> a.Admits(token) || b.Admits(token))
            && (LosesNothing(all) && (a.Admits(token) || b.Admits(token)) ==> s.Admits(token))
            && (s.IsEmpty() ==> !a.Admits(token) && !b.Admits(token))
    ensures forall c :: c in JoinSets(a, b).caveats <==>
              c in a.caveats || c in b.caveats || (Overflows(a.terms + b.terms) && c == Overflow("Join"))
  {
    hide Satisfies, LosesNothing, Overflows, Normalise, LiveTerm, CanonicalClaims, TermBefore, CaveatBefore;
    FormedSets(a, b);
    var all := a.terms + b.terms;
    assert Formed(all);
    NormaliseIsExact(all, a.caveats + b.caveats, "Join", token);
    assert (exists t :: t in all && Satisfies(t, token)) <==> a.Admits(token) || b.Admits(token);
  }

  /** Swapping the operands of Join changes nothing where nothing is lost. */
  lemma JoinSetsCommutes(a: AdmittedSet, b: AdmittedSet)
    requires a.Canonical() && b.Canonical() && LosesNothing(a.terms + b.terms)
    ensures JoinSets(a, b) == JoinSets(b, a)
  {
    hide LosesNothing, Normalise, LiveTerm, CanonicalClaims;
    FormedSets(a, b);
    assert Formed(a.terms + b.terms);
    NormaliseIsOrderFree(a.terms + b.terms, b.terms + a.terms, a.caveats + b.caveats, b.caveats + a.caveats, "Join");
  }

  /** An "=" in a claim name breaks both: of two terms that render alike the first is kept, and the other's tokens lost. */
  lemma EqualsInNameDropsATerm(u: string, v: string)
    ensures var one: Term, two: Term := map["a=" + Quoting.Quote(u) + ", b" := Exact(v)], map["a" := Exact(u), "b" := Exact(v)];
            var token: Token := map["a" := u, "b" := v];
            Satisfies(two, token) && !NewAdmittedSet([one, two]).Admits(token) && NewAdmittedSet([two, one]).Admits(token)
  {
    hide RenderTerm, NewAdmittedSet;
    var name := "a=" + Quoting.Quote(u) + ", b";
    var one: Term, two: Term := map[name := Exact(v)], map["a" := Exact(u), "b" := Exact(v)];
    EqualsInNameCollides(u, v);
    assert "a" in two && name in one;
    OnlyFirstKept(one, two);
    OnlyFirstKept(two, one);
  }

  lemma OnlyFirstKept(one: Term, two: Term)
    requires RenderTerm(one) == RenderTerm(two)
    requires one != map[] && two != map[] && (forall k | k in one :: one[k].Exact?) && forall k | k in two :: two[k].Exact?
    ensures NewAdmittedSet([one, two]).terms == [one]
  {
    hide RenderTerm;
    assert Trimmed(one) == one && Trimmed(two) == two && !Dead(one) && !Dead(two);
    assert [one, two][1..] == [two] && [two][1..] == [];
    assert Live([two]) == [two] + Live([]);
    assert Live([one, two]) == [one] + Live([two]);
    assert Live([one, two]) == [one, two];
    var k :| k in one;
    var l :| l in two;
    assert !AllTop(one) && !AllTop(two);
    var text := RenderTerm(one);
    assert FirstOfEach([two], {} + {text}) == [];
    assert FirstOfEach([one, two], {}) == [one];
    assert SortUnique(TermBefore, [one]) == [one] by {
      assert [one][1..] == [];
    }
  }
}

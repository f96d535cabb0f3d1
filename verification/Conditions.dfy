/** What a statement's conditions admit, as an upper bound where one was not read (internal/parse/aws/condition.go, grant.go). */
module Conditions {
  import opened Strings
  import opened Sorting
  import opened Globs
  import opened StringSets
  import opened Lattice
  import opened Folding
  import opened Terms
  import opened AdmittedSets
  import opened Grants

  /** One condition: the values a StringEquals or a StringLike lists on a claim, and what was recorded against reading it. */
  datatype Condition = Condition(claim: string, operator: string, like: bool, values: seq<string>, facts: seq<string>)

  // ---- One condition ----

  function ValueSets(c: Condition, values: seq<string>): (sets: seq<StringSet>)
    ensures |sets| == |values|
  {
    if values == [] then [] else [if c.like then GlobOf(values[0]) else Exact(values[0])] + ValueSets(c, values[1..])
  }

  function UnknownSets(reasons: seq<string>): (sets: seq<StringSet>)
    ensures |sets| == |reasons|
  {
    if reasons == [] then [] else [Unknown([reasons[0]])] + UnknownSets(reasons[1..])
  }

  /** Every fact that kept a condition from being read: those met, an empty list, and a pattern list that only asks for presence. */
  function FactsOf(c: Condition): seq<string> {
    if c.values == [] then c.facts + [c.operator]
    else if c.facts != [] then c.facts
    else if FoldLeft(Lattice.Join, ValueSets(c, c.values)).IsTop() then [c.operator]
    else []
  }

  function SetOfCondition(c: Condition): StringSet {
    var facts := FactsOf(c);
    if facts != [] then FoldLeft(Lattice.Join, UnknownSets(facts)) else FoldLeft(Lattice.Join, ValueSets(c, c.values))
  }

  ghost predicate CanonicalSet(s: StringSet) { s.Canonical() }

  lemma JoinIsAssociative()
    ensures AssociativeOn(Lattice.Join, CanonicalSet)
  {
    forall a, b | CanonicalSet(a) && CanonicalSet(b) ensures CanonicalSet(Lattice.Join(a, b)) { JoinIsExact(a, b); }
    forall a, b, c | CanonicalSet(a) && CanonicalSet(b) && CanonicalSet(c)
      ensures Lattice.Join(Lattice.Join(a, b), c) == Lattice.Join(a, Lattice.Join(b, c))
    {
      JoinAssociates(a, b, c);
    }
  }

  lemma {:induction false} ValueSetsAre(c: Condition, values: seq<string>, v: string)
    ensures forall s | s in ValueSets(c, values) :: s.Canonical() && !s.Unknown? && !s.Empty?
    ensures (exists s :: s in ValueSets(c, values) && s.Contains(v)) <==> exists x :: x in values && ValueMatches(c, x, v)
  {
    if values != [] {
      ValueSetsAre(c, values[1..], v);
      var first := if c.like then GlobOf(values[0]) else Exact(values[0]);
      assert forall x :: x in values <==> x == values[0] || x in values[1..];
      assert forall s :: s in ValueSets(c, values) <==> s == first || s in ValueSets(c, values[1..]);
      assert first.Contains(v) <==> ValueMatches(c, values[0], v);
    }
  }

  /** What StringLike and StringEquals ask of a claim's value. */
  predicate ValueMatches(c: Condition, value: string, v: string) {
    if c.like then Matches(value, v) else v == value
  }

  lemma {:induction false} FoldContains(sets: seq<StringSet>, v: string)
    requires |sets| >= 1 && forall s | s in sets :: s.Canonical()
    ensures FoldLeft(Lattice.Join, sets).Canonical()
    ensures FoldLeft(Lattice.Join, sets).Contains(v) <==> exists s :: s in sets && s.Contains(v)
    ensures FoldLeft(Lattice.Join, sets).Unknown? <==> exists s :: s in sets && s.Unknown?
    decreases |sets|
  {
    if |sets| > 1 {
      hide StringSet.Contains, StringSet.Canonical, Lattice.Join;
      var first := Lattice.Join(sets[0], sets[1]);
      JoinIsExact(sets[0], sets[1]);
      var next := [first] + sets[2..];
      FoldContains(next, v);
      assert forall s :: s in sets <==> s == sets[0] || s == sets[1] || s in sets[2..];
      assert next[0] == first && sets[0] in sets && sets[1] in sets;
      assert forall s :: s in next <==> s == first || s in sets[2..];
      assert FoldLeft(Lattice.Join, sets) == FoldLeft(Lattice.Join, next);
      if s :| s in sets && s.Contains(v) {
        assert s in next || first.Contains(v);
        assert first in next;
      }
    } else {
      assert sets == [sets[0]] && sets[0] in sets;
    }
  }

  lemma {:induction false} UnknownSetsAre(reasons: seq<string>)
    ensures forall s | s in UnknownSets(reasons) :: s.Canonical() && s.Unknown?
  {
    if reasons != [] {
      UnknownSetsAre(reasons[1..]);
    }
  }

  /** A condition read admits exactly the values it lists, and needs the claim; one unread is an Unknown. */
  lemma SetOfConditionIsExact(c: Condition, v: string)
    ensures SetOfCondition(c).Canonical()
    ensures FactsOf(c) != [] <==> SetOfCondition(c).Unknown?
    ensures FactsOf(c) == [] ==> !SetOfCondition(c).IsTop()
    ensures FactsOf(c) == [] ==> (SetOfCondition(c).Contains(v) <==> exists x :: x in c.values && ValueMatches(c, x, v))
  {
    var facts := FactsOf(c);
    if facts != [] {
      UnknownSetsAre(facts);
      FoldContains(UnknownSets(facts), v);
      assert UnknownSets(facts)[0] in UnknownSets(facts);
    } else {
      ValueSetsAre(c, c.values, v);
      FoldContains(ValueSets(c, c.values), v);
    }
  }

  method Evaluate(c: Condition) returns (s: StringSet, facts: seq<string>)
    ensures s == SetOfCondition(c) && facts == FactsOf(c)
  {
    JoinIsAssociative();
    hide AssociativeOn, Lattice.Join;
    facts := c.facts;
    if c.values == [] {
      facts := facts + [c.operator];
    } else if facts == [] {
      ValueSetsAre(c, c.values, "");
      assert forall x | x in ValueSets(c, c.values) :: CanonicalSet(x);
      s := JoinAll(ValueSets(c, c.values), Lattice.Join, CanonicalSet);
      if !s.IsTop() {
        return;
      }
      facts := [c.operator];
    }
    UnknownSetsAre(facts);
    assert forall x | x in UnknownSets(facts) :: CanonicalSet(x);
    s := JoinAll(UnknownSets(facts), Lattice.Join, CanonicalSet);
  }

  // ---- Declaring caveats ----

  function Carriers(cs: seq<Caveat>): (carriers: seq<AdmittedSet>)
    ensures |carriers| == |cs|
  {
    if cs == [] then [] else [NOTHING.WithCaveat(cs[0])] + Carriers(cs[1..])
  }

  /** An empty set that carries caveats in order. */
  ghost predicate Carrier(s: AdmittedSet) {
    s.terms == [] && Ascending(CaveatBefore, s.caveats)
  }

  lemma JoinCarriers(a: AdmittedSet, b: AdmittedSet)
    requires Carrier(a) && Carrier(b)
    ensures JoinSets(a, b) == AdmittedSet([], NormaliseCaveats(a.caveats + b.caveats)) && Carrier(JoinSets(a, b))
  {
    var none: seq<Term> := [];
    assert a.terms + b.terms == none;
    assert Live(none) == [] && FirstOfEach(none, {}) == [];
    CaveatsNormalise(a.caveats + b.caveats, []);
  }

  lemma CarriersAssociate()
    ensures AssociativeOn(JoinSets, Carrier)
  {
    forall a, b | Carrier(a) && Carrier(b) ensures Carrier(JoinSets(a, b)) { JoinCarriers(a, b); }
    forall a, b, c | Carrier(a) && Carrier(b) && Carrier(c)
      ensures JoinSets(JoinSets(a, b), c) == JoinSets(a, JoinSets(b, c))
    {
      JoinCarriers(a, b);
      JoinCarriers(b, c);
      JoinCarriers(JoinSets(a, b), c);
      JoinCarriers(a, JoinSets(b, c));
      CaveatsNormalise(a.caveats + b.caveats, []);
      CaveatsNormalise(b.caveats + c.caveats, []);
      CaveatsNormalise(NormaliseCaveats(a.caveats + b.caveats) + c.caveats, a.caveats + NormaliseCaveats(b.caveats + c.caveats));
    }
  }

  lemma {:induction false} CarriersAre(cs: seq<Caveat>)
    ensures forall s | s in Carriers(cs) :: Carrier(s)
    ensures |cs| >= 1 ==> FoldRight(JoinSets, Carriers(cs)) == AdmittedSet([], NormaliseCaveats(cs))
  {
    if |cs| == 1 {
      CaveatsNormalise([] + [cs[0]], cs);
    } else if |cs| > 1 {
      hide JoinSets;
      CarriersAre(cs[1..]);
      var first, rest := NOTHING.WithCaveat(cs[0]), FoldRight(JoinSets, Carriers(cs[1..]));
      assert Carriers(cs)[1..] == Carriers(cs[1..]);
      CaveatsNormalise([cs[0]], []);
      CaveatsNormalise(cs[1..], []);
      assert [] + [cs[0]] == [cs[0]];
      JoinCarriers(first, rest);
      CaveatsNormalise(first.caveats + rest.caveats, cs);
      assert FoldRight(JoinSets, Carriers(cs)) == JoinSets(first, rest);
    }
  }

  /** withCaveats, through empty sets joined as a balanced tree, is the caveats recorded one by one. */
  method WithCaveats(s: AdmittedSet, cs: seq<Caveat>) returns (out: AdmittedSet)
    requires s.Canonical()
    ensures out == AddCaveats(s, cs)
  {
    if cs == [] {
      return s;
    }
    CarriersAssociate();
    CarriersAre(cs);
    ghost var carriers := Carriers(cs);
    LeftIsRight(JoinSets, Carrier, carriers);
    hide AssociativeOn, JoinSets;
    var all := JoinAll(Carriers(cs), JoinSets, Carrier);
    JoinCarrier(s, NormaliseCaveats(cs));
    CaveatsNormalise(cs, []);
    CaveatsNormalise(s.caveats + NormaliseCaveats(cs), s.caveats + cs);
    AddCaveatsIs(s, cs);
    out := JoinSets(s, all);
  }

  lemma JoinCarrier(s: AdmittedSet, cs: seq<Caveat>)
    requires s.Canonical()
    ensures JoinSets(s, AdmittedSet([], cs)) == AdmittedSet(s.terms, NormaliseCaveats(s.caveats + cs))
  {
    assert s.terms + [] == s.terms;
    NormaliseIsStable(s, s.caveats + cs, "Join");
  }

  // ---- A block of conditions ----

  function CaveatsOf(claim: string, facts: seq<string>, src: string): seq<Caveat> {
    if facts == [] then [] else [Caveat(claim, facts[0], src)] + CaveatsOf(claim, facts[1..], src)
  }

  /** The term every condition is met into, starting from the principal's identity. */
  function MeetInto(term: Term, conditions: seq<Condition>): Term
    requires CanonicalClaims(term)
    decreases |conditions|
  {
    if conditions == [] then term
    else
      SetOfConditionIsExact(conditions[0], "");
      MeetInto(MeetClaim(term, conditions[0].claim, SetOfCondition(conditions[0])), conditions[1..])
  }

  function MeetClaim(term: Term, claim: string, s: StringSet): (met: Term)
    requires CanonicalClaims(term) && s.Canonical()
    ensures CanonicalClaims(met)
  {
    if claim in term then
      MeetIsExact(term[claim], s);
      term[claim := Meet(term[claim], s)]
    else term[claim := s]
  }

  function AllCaveats(conditions: seq<Condition>, src: string): seq<Caveat> {
    if conditions == [] then []
    else CaveatsOf(conditions[0].claim, FactsOf(conditions[0]), src) + AllCaveats(conditions[1..], src)
  }

  function ProjectBlock(identity: Term, conditions: seq<Condition>, src: string): AdmittedSet
    requires CanonicalClaims(identity)
  {
    AddCaveats(NewAdmittedSet([MeetInto(identity, conditions)]), AllCaveats(conditions, src))
  }

  method EvaluateBlock(identity: Term, conditions: seq<Condition>, src: string) returns (s: AdmittedSet)
    requires CanonicalClaims(identity)
    ensures s == ProjectBlock(identity, conditions, src)
  {
    var term := identity;
    var caveats: seq<Caveat> := [];
    for i := 0 to |conditions|
      invariant CanonicalClaims(term) && MeetInto(identity, conditions) == MeetInto(term, conditions[i..])
      invariant AllCaveats(conditions, src) == caveats + AllCaveats(conditions[i..], src)
    {
      hide SetOfCondition, FactsOf, Meet, StringSet.Canonical;
      var c := conditions[i];
      assert conditions[i..][0] == c && conditions[i..][1..] == conditions[i + 1..];
      var set_, facts := Evaluate(c);
      SetOfConditionIsExact(c, "");
      term := MeetClaim(term, c.claim, set_);
      ghost var rest := AllCaveats(conditions[i + 1..], src);
      assert caveats + (CaveatsOf(c.claim, facts, src) + rest) == (caveats + CaveatsOf(c.claim, facts, src)) + rest;
      caveats := caveats + CaveatsOf(c.claim, facts, src);
    }
    assert caveats + [] == caveats;
    BlockIsCanonical(identity, conditions);
    NormaliseIsExact([term], [], "NewAdmittedSet", map[]);
    s := WithCaveats(NewAdmittedSet([term]), caveats);
  }

  lemma {:induction false} BlockIsCanonical(term: Term, conditions: seq<Condition>)
    requires CanonicalClaims(term)
    ensures CanonicalClaims(MeetInto(term, conditions))
    decreases |conditions|
  {
    if conditions != [] {
      SetOfConditionIsExact(conditions[0], "");
      BlockIsCanonical(MeetClaim(term, conditions[0].claim, SetOfCondition(conditions[0])), conditions[1..]);
    }
  }

  // ---- What the conditions mean ----

  /** What each unread condition means: anything at all. */
  type Meaning = (Condition, Token) -> bool

  /** A condition that was read asks for the claim, at one of its values; one that was not means whatever it means. */
  ghost predicate Holds(c: Condition, token: Token, meaning: Meaning) {
    if FactsOf(c) == [] then c.claim in token && exists x :: x in c.values && ValueMatches(c, x, token[c.claim])
    else meaning(c, token)
  }

  lemma MeetClaimIsExact(term: Term, claim: string, s: StringSet, token: Token)
    requires CanonicalClaims(term) && s.Canonical()
    ensures Satisfies(MeetClaim(term, claim, s), token) <==> Satisfies(term, token) && Meets(s, claim, token)
  {
    var met := MeetClaim(term, claim, s);
    if claim in term {
      MeetIsExact(term[claim], s);
    }
    assert claim in met;
    if Satisfies(met, token) {
      assert Meets(met[claim], claim, token);
      forall k | k in term ensures Meets(term[k], k, token) { assert k in met && Meets(met[k], k, token); }
    }
    if Satisfies(term, token) && Meets(s, claim, token) {
      forall k | k in met ensures Meets(met[k], k, token) { assert k in term ==> Meets(term[k], k, token); }
    }
  }

  /** The term met is satisfied exactly by the tokens of the identity that meet every condition that was read. */
  lemma {:induction false} MeetIntoIsExact(term: Term, conditions: seq<Condition>, token: Token, meaning: Meaning)
    requires CanonicalClaims(term)
    ensures Satisfies(MeetInto(term, conditions), token) <==>
            Satisfies(term, token) && forall c | c in conditions && FactsOf(c) == [] :: Holds(c, token, meaning)
    decreases |conditions|
  {
    if conditions != [] {
      var c := conditions[0];
      var s := SetOfCondition(c);
      SetOfConditionIsExact(c, if c.claim in token then token[c.claim] else "");
      assert Meets(s, c.claim, token) <==> FactsOf(c) != [] || Holds(c, token, meaning);
      MeetClaimIsExact(term, c.claim, s, token);
      MeetIntoIsExact(MeetClaim(term, c.claim, s), conditions[1..], token, meaning);
      assert forall x :: x in conditions <==> x == c || x in conditions[1..];
    }
  }

  lemma {:induction false} NoCaveatsNoFacts(conditions: seq<Condition>, src: string)
    ensures AllCaveats(conditions, src) == [] <==> forall c | c in conditions :: FactsOf(c) == []
  {
    if conditions != [] {
      NoCaveatsNoFacts(conditions[1..], src);
      assert forall x :: x in conditions <==> x == conditions[0] || x in conditions[1..];
    }
  }

  /** The block's set is an upper bound under every meaning of what was not read, and exact when all of it was. */
  lemma BlockIsUpperBound(identity: Term, conditions: seq<Condition>, src: string, token: Token, meaning: Meaning)
    requires CanonicalClaims(identity)
    ensures var s := ProjectBlock(identity, conditions, src);
            s.Canonical() && (s.IsExact() <==> forall c | c in conditions :: FactsOf(c) == [])
    ensures var s, meant := ProjectBlock(identity, conditions, src),
                            Satisfies(identity, token) && forall c | c in conditions :: Holds(c, token, meaning);
            (meant ==> s.Admits(token)) && (s.IsExact() ==> (s.Admits(token) <==> meant))
  {
    var term := MeetInto(identity, conditions);
    BlockIsCanonical(identity, conditions);
    FewNeverOverflow([term]);
    OneTermLosesNothing(term);
    NormaliseIsExact([term], [], "NewAdmittedSet", token);
    var plain := NewAdmittedSet([term]);
    CaveatsNormalise([], []);
    AddCaveatsIs(plain, AllCaveats(conditions, src));
    CaveatsNormalise(plain.caveats + AllCaveats(conditions, src), []);
    NoCaveatsNoFacts(conditions, src);
    var cs := AllCaveats(conditions, src);
    if cs != [] {
      assert cs[0] in ProjectBlock(identity, conditions, src).caveats;
    }
    MeetIntoIsExact(identity, conditions, token, meaning);
    assert plain.Admits(token) <==> Satisfies(term, token) by {
      assert term in [term];
    }
  }

  // ---- A statement ----

  /** What was read of a statement for one face of a principal, beside its conditions. */
  datatype Statement = Statement(
    effect: Effect,
    identity: Term,
    conditions: seq<Condition>,
    assumes: bool,              // its actions are unknown, or include the one the principal assumes through
    folding: seq<Caveat>,       // the doubts of an action that may be that one under another folding
    widenings: seq<Caveat>,     // findings that left the statement unevaluated
    doubts: seq<Caveat>)        // findings that leave the set an upper bound

  const DENY_NOT_APPLIED := "this Deny statement could not be fully evaluated, so it is not applied; the admitted set is an upper bound"

  function AdmitsBeforeEffect(s: Statement, src: string): AdmittedSet
    requires CanonicalClaims(s.identity)
  {
    var conditions := ProjectBlock(s.identity, s.conditions, src);
    AddCaveats(if s.widenings != [] then AddCaveats(EVERYTHING, conditions.caveats) else conditions,
               s.widenings + s.doubts + s.folding)
  }

  function GrantAdmits(s: Statement, src: string): AdmittedSet
    requires CanonicalClaims(s.identity)
  {
    if !s.assumes && s.folding == [] then NOTHING
    else
      var admits := AdmitsBeforeEffect(s, src);
      if s.effect == Deny && !admits.IsExact() then AddCaveats(NOTHING, admits.caveats + [Caveat("", DENY_NOT_APPLIED, src)])
      else admits
  }

  method GrantOfStatement(s: Statement, src: string) returns (admits: AdmittedSet)
    requires CanonicalClaims(s.identity)
    ensures admits == GrantAdmits(s, src)
  {
    var conditions := EvaluateBlock(s.identity, s.conditions, src);
    if !s.assumes && s.folding == [] {
      return NOTHING;
    }
    StatementIsCanonical(s, src);
    admits := conditions;
    if s.widenings != [] {
      admits := WithCaveats(EVERYTHING, admits.caveats);
    }
    admits := WithCaveats(admits, s.widenings + s.doubts + s.folding);
    if s.effect == Deny && !admits.IsExact() {
      admits := WithCaveats(NOTHING, admits.caveats + [Caveat("", DENY_NOT_APPLIED, src)]);
    }
  }

  lemma AddCaveatsIsCanonical(s: AdmittedSet, cs: seq<Caveat>)
    requires s.Canonical()
    ensures var out := AddCaveats(s, cs);
            out.Canonical() && out.terms == s.terms
            && forall c :: c in out.caveats <==> c in s.caveats || c in cs
  {
    AddCaveatsIs(s, cs);
    CaveatsNormalise(s.caveats + cs, []);
  }

  lemma StatementIsCanonical(s: Statement, src: string)
    requires CanonicalClaims(s.identity)
    ensures EVERYTHING.Canonical() && NOTHING.Canonical()
    ensures var b := ProjectBlock(s.identity, s.conditions, src);
            b.Canonical()
            && AddCaveats(EVERYTHING, b.caveats).Canonical()
  {
    hide ProjectBlock, AddCaveats, CaveatBefore;
    BlockIsUpperBound(s.identity, s.conditions, src, map[], (c, t) => true);
    AddCaveatsIsCanonical(EVERYTHING, ProjectBlock(s.identity, s.conditions, src).caveats);
  }

  /** What the statement means for a token: it may be presented at all, it is of the identity, and it meets every condition. */
  ghost predicate Meant(s: Statement, token: Token, meaning: Meaning) {
    Satisfies(s.identity, token) && forall c | c in s.conditions :: Holds(c, token, meaning)
  }

  /** Before its effect, a statement's set is an upper bound of what it means, and exact when nothing was doubted. */
  lemma BeforeEffectIsUpperBound(s: Statement, src: string, token: Token, meaning: Meaning)
    requires CanonicalClaims(s.identity)
    ensures var admits := AdmitsBeforeEffect(s, src);
            admits.Canonical() && (Meant(s, token, meaning) ==> admits.Admits(token))
            && (admits.IsExact() ==> (admits.Admits(token) <==> Meant(s, token, meaning)))
  {
    hide ProjectBlock, NormaliseCaveats, Holds;
    StatementIsCanonical(s, src);
    BlockIsUpperBound(s.identity, s.conditions, src, token, meaning);
    var block := ProjectBlock(s.identity, s.conditions, src);
    var more := s.widenings + s.doubts + s.folding;
    if s.widenings != [] {
      AddCaveatsIsCanonical(EVERYTHING, block.caveats);
      AddCaveatsIsCanonical(AddCaveats(EVERYTHING, block.caveats), more);
      assert s.widenings[0] in more;
      assert Satisfies(map[], token);
    } else {
      AddCaveatsIsCanonical(block, more);
      if |block.caveats| > 0 {
        assert block.caveats[0] in AdmitsBeforeEffect(s, src).caveats;
      }
    }
  }

  /** Whatever the parts of an Allow that were not read may mean, the grant lets in all it means to, and no more when it is exact. */
  lemma AllowIsUpperBound(s: Statement, src: string, token: Token, meaning: Meaning)
    requires CanonicalClaims(s.identity) && s.effect != Deny && (s.assumes || s.folding != [])
    ensures Meant(s, token, meaning) ==> GrantAdmits(s, src).Admits(token)
    ensures GrantAdmits(s, src).IsExact() ==> (GrantAdmits(s, src).Admits(token) <==> Meant(s, token, meaning))
  {
    BeforeEffectIsUpperBound(s, src, token, meaning);
  }

  /** A Deny denies no more than it may mean to: a token in its set meets it under every meaning of what was not read. */
  lemma DenyIsLowerBound(s: Statement, src: string, token: Token, meaning: Meaning)
    requires CanonicalClaims(s.identity) && s.effect == Deny
    requires GrantAdmits(s, src).Admits(token)
    ensures Meant(s, token, meaning) && GrantAdmits(s, src).IsExact()
  {
    var admits := AdmitsBeforeEffect(s, src);
    StatementIsCanonical(s, src);
    BeforeEffectIsUpperBound(s, src, token, meaning);
    if !admits.IsExact() {
      AddCaveatsIsCanonical(NOTHING, admits.caveats + [Caveat("", DENY_NOT_APPLIED, src)]);
    }
  }
}

/**
 * Placing a grant again with one census fact no longer established (internal/ring/property_test.go). The promise is that
 * it lands no nearer, on the rings if it was on them, and no more surely at an unchanged place. For the owner characters
 * neither half holds, and for the namespace and the case rule the last does not.
 */
module Unverifications {
  import opened Strings
  import opened Globs
  import opened StringSets
  import opened Terms
  import opened AdmittedSets
  import opened Grants
  import opened Owners
  import opened Subjects
  import opened Confinements
  import opened Rings
  import opened Placements
  import opened Renamings
  import opened Forgetting

  /** A fact of the census that placing a grant rests on. */
  datatype Fact =
    | IssuerFact | AnonymousFact | NamespaceFact | TenancyFact | CharactersFact | CaseFact | TenantFact | MembershipFact | RecyclableFact
    | PopulationFact | PrincipalFact

  /** The facts with one of them no longer established. */
  function Unverified(f: Facts, fact: Fact): Facts {
    match fact
    case IssuerFact => f.(issuerKind := NotSurveyed)
    case AnonymousFact => f.(anonymousTokens := Established.Unverified)
    case NamespaceFact => f.(ns := "")
    case TenancyFact => f.(tenancy := None)
    case CharactersFact => if f.tenancy.None? then f else f.(tenancy := Some(ForgetIn(f.tenancy.value)))
    case CaseFact => if f.tenancy.None? then f else f.(tenancy := Some(f.tenancy.value.(namesIgnoreCase := false)))
    case TenantFact => f.(tenant := f.tenant.(value := ""))
    case MembershipFact => f.(tenant := f.tenant.(membership := MembershipUnverified))
    case RecyclableFact => f.(tenant := f.tenant.(recyclable := Established.Unverified))
    case PopulationFact => f.(issuerless := EveryIssuer)
    case PrincipalFact => f.(principalModelled := false)
  }

  function Without(c: Classifier, fact: Fact): Classifier {
    c.(facts := Unverified(c.facts, fact))
  }

  // ---- The promise ----

  /** A grant placed again is anyone's, or no nearer and on the rings or beside them as it was. */
  predicate NeverInward(before: Placement, after: Placement) {
    && (after.Refused? <==> before.Refused?) && (after.Nobody? <==> before.Nobody?)
    && (before.Placed? ==>
          var ring, ring' := OutermostRing(before.populations), OutermostRing(after.populations);
          || ring' == Some(Anyone)
          || (ring.Some? && ring'.Some? && ring'.value.Rank() <= ring.value.Rank())
          || (ring.None? && ring'.None? && after.places == before.places))
  }

  /** Where it lands at the same places, it does not do so exactly if it did not before. */
  predicate NoMoreCertain(before: Placement, after: Placement) {
    before.Placed? && after.Placed? && after.places == before.places && after.state.ExactState? ==> before.state.ExactState?
  }

  // ---- Placements population by population ----

  /** The two land at one place, as certainly. */
  predicate AsPlaced(pop: Population, pop': Population) {
    pop'.place == pop.place && pop'.state == pop.state
  }

  /** The second lands at the same place, or on a ring no nearer than the first's. */
  predicate Backs(pop: Population, pop': Population) {
    pop'.place == pop.place || (pop.place.IsRing() && pop'.place.IsRing() && pop'.place.Rank() <= pop.place.Rank())
  }

  ghost predicate Pairwise(pops: seq<Population>, pops': seq<Population>, rel: (Population, Population) -> bool) {
    |pops'| == |pops| && forall i | 0 <= i < |pops| :: rel(pops[i], pops'[i])
  }

  /** The two classifiers place the same grant's alternatives population by population so related. */
  ghost predicate TermsRelated(c: Classifier, c': Classifier, rel: (Population, Population) -> bool) {
    c'.grant == c.grant && forall term | term in c.grant.admits.terms :: Pairwise(c.PlaceTerm(term), c'.PlaceTerm(term), rel)
  }

  /** What keeping a population does not take away. */
  ghost predicate SurvivesKeeping(c: Classifier, c': Classifier, rel: (Population, Population) -> bool) {
    forall pop, pop', i | rel(pop, pop') :: rel(c.Kept(pop, i), c'.Kept(pop', i))
  }

  lemma {:induction false} PopulationsRelated(c: Classifier, c': Classifier, rel: (Population, Population) -> bool, n: nat)
    requires n <= |c.grant.admits.terms| && TermsRelated(c, c', rel) && SurvivesKeeping(c, c', rel)
    ensures Pairwise(c.Populations(n), c'.Populations(n), rel)
  {
    hide Classifier.PlaceTerm, Classifier.Kept, Pairwise, TermsRelated, SurvivesKeeping;
    if n == 0 {
      NoneRelated(rel);
    } else {
      assert c'.grant == c.grant by { SameGrant(c, c', rel); }
      PopulationsRelated(c, c', rel, n - 1);
      var term := c.grant.admits.terms[n - 1];
      assert Pairwise(c.PlaceTerm(term), c'.PlaceTerm(term), rel) by { TermRelated(c, c', rel, n - 1); }
      KeptRelated(c, c', rel, c.PlaceTerm(term), c'.PlaceTerm(term), n - 1);
      JoinedRelated(c.Populations(n - 1), c'.Populations(n - 1), c.KeptAll(c.PlaceTerm(term), n - 1), c'.KeptAll(c'.PlaceTerm(term), n - 1), rel);
    }
  }

  lemma NoneRelated(rel: (Population, Population) -> bool)
    ensures Pairwise([], [], rel)
  {
  }

  lemma TermRelated(c: Classifier, c': Classifier, rel: (Population, Population) -> bool, i: nat)
    requires i < |c.grant.admits.terms| && TermsRelated(c, c', rel)
    ensures Pairwise(c.PlaceTerm(c.grant.admits.terms[i]), c'.PlaceTerm(c.grant.admits.terms[i]), rel)
  {
    hide Pairwise, Classifier.PlaceTerm;
    assert c.grant.admits.terms[i] in c.grant.admits.terms;
  }

  lemma KeptRelated(c: Classifier, c': Classifier, rel: (Population, Population) -> bool, pops: seq<Population>, pops': seq<Population>, n: nat)
    requires Pairwise(pops, pops', rel) && SurvivesKeeping(c, c', rel)
    ensures Pairwise(c.KeptAll(pops, n), c'.KeptAll(pops', n), rel)
  {
    hide Classifier.Kept;
    var kept, kept' := c.KeptAll(pops, n), c'.KeptAll(pops', n);
    forall k | 0 <= k < |kept| ensures rel(kept[k], kept'[k]) {
      assert rel(pops[k], pops'[k]);
    }
  }

  lemma JoinedRelated(a: seq<Population>, a': seq<Population>, b: seq<Population>, b': seq<Population>, rel: (Population, Population) -> bool)
    requires Pairwise(a, a', rel) && Pairwise(b, b', rel)
    ensures Pairwise(a + b, a' + b', rel)
  {
  }

  function AsPlacedRel(): (Population, Population) -> bool {
    (pop, pop') => AsPlaced(pop, pop')
  }

  function BacksRel(): (Population, Population) -> bool {
    (pop, pop') => Backs(pop, pop')
  }

  lemma {:induction false} SameRing(pops: seq<Population>, pops': seq<Population>)
    requires |pops'| == |pops| && forall i | 0 <= i < |pops| :: pops'[i].place == pops[i].place
    ensures OutermostRing(pops') == OutermostRing(pops)
  {
    if pops != [] {
      SameRing(pops[..|pops| - 1], pops'[..|pops| - 1]);
    }
  }

  lemma SameNamed(pops: seq<Population>, pops': seq<Population>)
    requires |pops'| == |pops| && forall i | 0 <= i < |pops| :: pops'[i].place == pops[i].place
    ensures Named(pops') == Named(pops)
  {
    hide OutermostRing;
    SameRing(pops, pops');
    forall place ensures Reaches(pops', place) == Reaches(pops, place) {
      forall i | 0 <= i < |pops| ensures pops[i] in pops && pops'[i] in pops' && pops'[i].place == pops[i].place {}
    }
  }

  lemma SameExactly(pops: seq<Population>, pops': seq<Population>, place: Place)
    requires Pairwise(pops, pops', AsPlacedRel())
    ensures ReachesExactly(pops', place) == ReachesExactly(pops, place)
  {
    forall i | 0 <= i < |pops| ensures pops[i] in pops && pops'[i] in pops' && AsPlaced(pops[i], pops'[i]) {
      assert AsPlacedRel()(pops[i], pops'[i]);
    }
  }

  /** A grant whose every population lands where it did, as certainly, is placed as it was. */
  lemma PlacedAsBefore(c: Classifier, c': Classifier)
    requires TermsRelated(c, c', AsPlacedRel())
    ensures NeverInward(c.Classify(), c'.Classify()) && NoMoreCertain(c.Classify(), c'.Classify())
  {
    hide Classifier.PlaceTerm, Classifier.Populations, OutermostRing, Reaches, ReachesExactly, TermsRelated, Distinct, OwnersAt, Named;
    assert c'.grant == c.grant by { SameGrant(c, c', AsPlacedRel()); }
    KeepsAsPlaced(c, c');
    var n := |c.grant.admits.terms|;
    PopulationsRelated(c, c', AsPlacedRel(), n);
    var pops, pops' := c.Populations(n), c'.Populations(n);
    forall i | 0 <= i < |pops| ensures pops'[i].place == pops[i].place {
      assert AsPlacedRel()(pops[i], pops'[i]);
    }
    SameRing(pops, pops');
    SameNamed(pops, pops');
    forall place ensures ReachesExactly(pops', place) == ReachesExactly(pops, place) {
      SameExactly(pops, pops', place);
    }
    SameOutcome(c, c');
  }

  lemma SameGrant(c: Classifier, c': Classifier, rel: (Population, Population) -> bool)
    requires TermsRelated(c, c', rel)
    ensures c'.grant == c.grant
  {
  }

  lemma KeepsAsPlaced(c: Classifier, c': Classifier)
    requires c'.grant == c.grant
    ensures SurvivesKeeping(c, c', AsPlacedRel())
  {
  }

  lemma KeepsBacks(c: Classifier, c': Classifier)
    requires c'.grant == c.grant
    ensures SurvivesKeeping(c, c', BacksRel())
  {
  }

  /** Facts decide neither that a grant is refused nor that it admits nobody. */
  lemma SameOutcome(c: Classifier, c': Classifier)
    requires c'.grant == c.grant
    ensures c'.Classify().Placed? == c.Classify().Placed? && c'.Classify().Refused? == c.Classify().Refused?
    ensures c'.Classify().Nobody? == c.Classify().Nobody?
  {
    hide Classifier.Populations, Named, Distinct, OwnersAt, ReachesExactly;
  }

  /** A grant whose every population goes back, or stays, goes back or stays. */
  lemma PlacedNoNearer(c: Classifier, c': Classifier)
    requires TermsRelated(c, c', BacksRel())
    ensures NeverInward(c.Classify(), c'.Classify())
  {
    hide Classifier.PlaceTerm, Classifier.Populations, OutermostRing, TermsRelated, Distinct, OwnersAt, Named, ReachesExactly;
    SameGrant(c, c', BacksRel());
    KeepsBacks(c, c');
    SameOutcome(c, c');
    var n := |c.grant.admits.terms|;
    PopulationsRelated(c, c', BacksRel(), n);
    BackedRing(c.Populations(n), c'.Populations(n));
  }

  lemma BackedRing(pops: seq<Population>, pops': seq<Population>)
    requires Pairwise(pops, pops', BacksRel())
    ensures var ring, ring' := OutermostRing(pops), OutermostRing(pops');
            || (ring.Some? && ring'.Some? && ring'.value.Rank() <= ring.value.Rank())
            || (ring.None? && ring'.None? && Named(pops') == Named(pops))
  {
    hide OutermostRing, Named;
    OutermostRingIs(pops);
    OutermostRingIs(pops');
    forall i | 0 <= i < |pops| ensures pops[i] in pops && pops'[i] in pops' && Backs(pops[i], pops'[i]) {
      assert BacksRel()(pops[i], pops'[i]);
    }
    if OutermostRing(pops).Some? {
      var pop :| pop in pops && pop.place == OutermostRing(pops).value;
      var i :| 0 <= i < |pops| && pops[i] == pop;
      assert pops'[i].place.IsRing();
    } else {
      forall i | 0 <= i < |pops| ensures pops'[i].place == pops[i].place {
        assert !pops[i].place.IsRing();
      }
      SameRing(pops, pops');
      SameNamed(pops, pops');
    }
  }

  /** A grant no population of which lands anywhere exactly is not placed exactly. */
  lemma NothingExact(c: Classifier)
    requires forall term, pop | term in c.grant.admits.terms && pop in c.PlaceTerm(term) :: pop.state.UnknownState?
    ensures c.Classify().Placed? ==> c.Classify().state.UnknownState?
  {
    hide Classifier.PlaceTerm, Classifier.Populations, OutermostRing, Distinct, OwnersAt;
    if c.Classify().Placed? {
      var terms := c.grant.admits.terms;
      var pops := c.Populations(|terms|);
      var first := c.Kept(c.PlaceTerm(terms[0])[0], 0);
      PopulationsAre(c, |terms|, first);
      SomewhereIsNamed(pops, first);
      forall pop | pop in pops ensures pop.state.UnknownState? {
        PopulationsAre(c, |terms|, pop);
        var i, k :| 0 <= i < |terms| && 0 <= k < |c.PlaceTerm(terms[i])| && pop == c.Kept(c.PlaceTerm(terms[i])[k], i);
        assert terms[i] in terms && c.PlaceTerm(terms[i])[k] in c.PlaceTerm(terms[i]);
      }
      assert !ReachesExactly(pops, Named(pops)[0]);
    }
  }

  /** A grant every alternative of which is anyone's is anyone's. */
  lemma AnyonesGrant(c: Classifier)
    requires forall term | term in c.grant.admits.terms :: c.PlaceTerm(term)[0].place == Anyone
    ensures c.Classify().Placed? ==> OutermostRing(c.Classify().populations) == Some(Anyone)
  {
    hide Classifier.PlaceTerm, Classifier.Populations, OutermostRing, Outermost;
    if c.Classify().Placed? {
      var terms := c.grant.admits.terms;
      var pops := c.Populations(|terms|);
      assert terms[0] in terms;
      var first := c.Kept(c.PlaceTerm(terms[0])[0], 0);
      PopulationsAre(c, |terms|, first);
      OutermostRingIs(pops);
      OutermostHolds(pops);
      assert first in pops && first.place == Anyone;
    }
  }

  // ---- A shared issuer's grant ----

  /** Who holds the grant's tokens is told by the tenancy of a shared issuer. */
  predicate PlacedByTenancy(c: Classifier) {
    && c.facts.principalModelled && c.grant.issuer != "" && !IsSAMLIssuer(c.grant.issuer) && !(SERVICE_PREFIX <= c.grant.issuer)
    && c.grant.issuer != AWS_ISSUER && c.facts.issuerKind.Shared? && c.facts.anonymousTokens.No? && c.facts.tenancy.Some?
  }

  predicate HasAlternatives(c: Classifier) {
    !c.grant.effect.Deny? && c.grant.admits.terms != []
  }

  lemma SharedPopulation(c: Classifier, pop: Population)
    requires PlacedByTenancy(c)
    ensures pop in c.Populations(|c.grant.admits.terms|) <==>
              exists i | 0 <= i < |c.grant.admits.terms| :: pop == c.Kept(c.PlaceShared(c.grant.admits.terms[i]), i)
  {
    hide Classifier.PlaceShared, Classifier.Kept;
    var terms := c.grant.admits.terms;
    PopulationsAre(c, |terms|, pop);
    forall term ensures c.PlaceTerm(term) == [c.PlaceShared(term)] {}
    hide Classifier.PlaceTerm;
    if i :| 0 <= i < |terms| && pop == c.Kept(c.PlaceShared(terms[i]), i) {
      assert pop == c.Kept(c.PlaceTerm(terms[i])[0], i);
    }
  }

  /** It lands at the outermost ring of its alternatives, exactly where one of them lands there exactly and its effect was read. */
  lemma SharedPlacement(c: Classifier)
    requires PlacedByTenancy(c) && HasAlternatives(c)
    ensures c.Classify().Placed? && |c.Classify().places| == 1 && OutermostRing(c.Classify().populations) == Some(c.Classify().places[0])
    ensures exists term | term in c.grant.admits.terms :: c.PlaceShared(term).place == c.Classify().places[0]
    ensures forall term | term in c.grant.admits.terms :: c.Classify().places[0].Rank() <= c.PlaceShared(term).place.Rank()
    ensures c.Classify().state.ExactState? <==>
              !c.grant.effect.EffectUnread?
              && exists term | term in c.grant.admits.terms ::
                   c.PlaceShared(term).place == c.Classify().places[0] && c.PlaceShared(term).state.ExactState?
  {
    hide Classifier.PlaceShared, Classifier.Populations, OutermostRing, Distinct, OwnersAt, ReachesExactly, Reaches;
    var terms := c.grant.admits.terms;
    var pops := c.Populations(|terms|);
    OutermostRingIs(pops);
    forall i | 0 <= i < |terms| ensures c.Kept(c.PlaceShared(terms[i]), i) in pops && terms[i] in terms {
      SharedPopulation(c, c.Kept(c.PlaceShared(terms[i]), i));
    }
    assert c.Kept(c.PlaceShared(terms[0]), 0) in pops;
    OnTheRings(c);
    SharedExactly(c, OutermostRing(pops).value);
    assert Named(pops) == [OutermostRing(pops).value];
    assert exists term | term in terms :: c.PlaceShared(term).place == OutermostRing(pops).value by {
      ReachedByTerm(c, OutermostRing(pops).value);
    }
  }

  lemma OnTheRings(c: Classifier)
    requires PlacedByTenancy(c) && HasAlternatives(c)
    ensures var pops := c.Populations(|c.grant.admits.terms|);
            !Reaches(pops, SAMLLine) && !Reaches(pops, ServiceLine) && OutermostRing(pops).Some?
  {
    hide Classifier.PlaceShared, Classifier.Populations, OutermostRing;
    var terms := c.grant.admits.terms;
    var pops := c.Populations(|terms|);
    OutermostRingIs(pops);
    SharedPopulation(c, c.Kept(c.PlaceShared(terms[0]), 0));
    SharedReachesThePlatform(c, terms[0]);
    forall pop | pop in pops ensures pop.place.IsRing() {
      SharedPopulation(c, pop);
      var i :| 0 <= i < |terms| && pop == c.Kept(c.PlaceShared(terms[i]), i);
      SharedReachesThePlatform(c, terms[i]);
    }
  }

  lemma ReachedByTerm(c: Classifier, place: Place)
    requires PlacedByTenancy(c) && Reaches(c.Populations(|c.grant.admits.terms|), place)
    ensures exists term | term in c.grant.admits.terms :: c.PlaceShared(term).place == place
  {
    hide Classifier.PlaceShared, Classifier.Populations;
    var terms := c.grant.admits.terms;
    var pop :| pop in c.Populations(|terms|) && pop.place == place;
    SharedPopulation(c, pop);
    var i :| 0 <= i < |terms| && pop == c.Kept(c.PlaceShared(terms[i]), i);
    assert terms[i] in terms && c.PlaceShared(terms[i]).place == place;
  }

  lemma SharedExactly(c: Classifier, place: Place)
    requires PlacedByTenancy(c)
    ensures ReachesExactly(c.Populations(|c.grant.admits.terms|), place) <==>
              !c.grant.effect.EffectUnread?
              && exists term | term in c.grant.admits.terms :: c.PlaceShared(term).place == place && c.PlaceShared(term).state.ExactState?
  {
    hide Classifier.PlaceShared, Classifier.Populations;
    var terms := c.grant.admits.terms;
    var pops := c.Populations(|terms|);
    if pop :| pop in pops && pop.place == place && pop.state.ExactState? {
      SharedPopulation(c, pop);
      var i :| 0 <= i < |terms| && pop == c.Kept(c.PlaceShared(terms[i]), i);
      assert terms[i] in terms && c.PlaceShared(terms[i]).state.ExactState?;
    }
    if term :| term in terms && c.PlaceShared(term).place == place && c.PlaceShared(term).state.ExactState? && !c.grant.effect.EffectUnread? {
      var i :| 0 <= i < |terms| && terms[i] == term;
      SharedPopulation(c, c.Kept(c.PlaceShared(terms[i]), i));
      assert c.Kept(c.PlaceShared(terms[i]), i) in pops;
    }
  }

  // ---- What a fact leaves alone ----

  /** The same grant, declarations and tables under other facts. */
  ghost predicate OnlyFactsDiffer(c: Classifier, c': Classifier) {
    c' == c.(facts := c'.facts)
  }

  /** Whose an owner is rests on the facts in one namespace alone. */
  lemma CoveredAside(c: Classifier, c': Classifier, o: Owner)
    requires OnlyFactsDiffer(c, c') && (o.ns != "github" || c'.facts.tenancy == c.facts.tenancy)
    ensures c'.Covered(o) == c.Covered(o)
  {
    forall d | d in c.declared ensures Names(d, o, c'.facts, c.parser) == Names(d, o, c.facts, c.parser) {}
  }

  lemma SameYours(c: Classifier, c': Classifier, pins: seq<seq<Owner>>)
    requires forall pin, o | pin in pins && o in pin :: c'.Covered(o) == c.Covered(o)
    ensures c'.SomePinIsYours(pins) == c.SomePinIsYours(pins)
  {
    hide Classifier.Covered;
  }

  lemma DecideAsPlaced(c: Classifier, c': Classifier, r: Reading)
    requires OnlyFactsDiffer(c, c') && forall pin, o | pin in r.pins && o in pin :: c'.Covered(o) == c.Covered(o)
    ensures AsPlaced(c.Decide(r), c'.Decide(r))
  {
    hide Classifier.Covered, Classifier.RequestUnread, Classifier.Pinned, Classifier.SomePinIsYours;
    SameRequest(c, c');
    SameYours(c, c', r.pins);
    Renamings.PinnedIsExact(c, r.pins);
    Renamings.PinnedIsExact(c', r.pins);
  }

  /** Every owner an AWS principal's claim names is in one namespace. */
  lemma TenantsAreInAws(c: Classifier, term: Term, claim: string)
    ensures forall o | o in c.TenantReading(term, claim).owners :: o.ns == "aws"
  {
    hide Confine;
    var value, prefix := AwsTenants.TenantValues(c.grant.issuer, claim), AwsTenants.TenantPrefixes(c.grant.issuer, claim);
    ConfineRenamed(term, claim, value, value, prefix, prefix, c.WidenedOn(claim), "aws");
    var owners := c.TenantReading(term, claim).owners;
    assert owners == InNamespace(owners, "aws");
  }

  lemma PrincipalAsPlaced(c: Classifier, c': Classifier, term: Term)
    requires OnlyFactsDiffer(c, c')
    ensures AsPlaced(c.PlacePrincipal(term), c'.PlacePrincipal(term))
  {
    hide Classifier.TenantReading, AddedAll, PinsOf, Classifier.Decide, Classifier.Covered, AsPlaced;
    SamePrincipalReadings(c, c', term);
    var cs := c.PrincipalReadings(term);
    AddedAllIs(cs);
    forall pin, o | pin in AddedAll(cs).pins && o in pin ensures c'.Covered(o) == c.Covered(o) {
      PinsComeFrom(cs, pin);
      var r :| r in cs && r.owners == pin;
      var claim :| claim in AwsTenants.TENANCY_CLAIMS && r == c.TenantReading(term, claim);
      TenantsAreInAws(c, term, claim);
      CoveredAside(c, c', o);
    }
    DecideAsPlaced(c, c', AddedAll(cs));
  }

  lemma SamePrincipalReadings(c: Classifier, c': Classifier, term: Term)
    requires OnlyFactsDiffer(c, c')
    ensures c'.PrincipalReadings(term) == c.PrincipalReadings(term)
  {
    hide Confine;
  }

  lemma ProviderAsPlaced(c: Classifier, c': Classifier)
    requires OnlyFactsDiffer(c, c')
    ensures AsPlaced(c.PlaceProvider(), c'.PlaceProvider()) && c'.PlaceService() == c.PlaceService()
  {
    hide Classifier.Covered;
    CoveredAside(c, c', c.ProviderOwner());
  }

  lemma SharedAsPlaced(c: Classifier, c': Classifier, term: Term)
    requires OnlyFactsDiffer(c, c') && c'.facts.tenancy == c.facts.tenancy && c'.facts.ns == c.facts.ns
    ensures AsPlaced(c.PlaceShared(term), c'.PlaceShared(term))
  {
    hide AddedAll, Classifier.Decide, Classifier.Covered, Classifier.SharedReadings;
    if c.facts.tenancy.Some? {
      var t := c.facts.tenancy.value;
      SameSharedReadings(c, c', t, term);
      forall o ensures c'.Covered(o) == c.Covered(o) {
        CoveredAside(c, c', o);
      }
      DecideAsPlaced(c, c', AddedAll(c.SharedReadings(t, term)));
    }
  }

  lemma SameSharedReadings(c: Classifier, c': Classifier, t: Tenancy, term: Term)
    requires OnlyFactsDiffer(c, c') && c'.facts.ns == c.facts.ns
    ensures c'.SharedReadings(t, term) == c.SharedReadings(t, term)
  {
    hide Subject;
    SameClaims(c, c', t, term, |t.claims|);
    hide Classifier.ClaimReadings;
  }

  lemma {:induction false} SameClaims(c: Classifier, c': Classifier, t: Tenancy, term: Term, n: nat)
    requires OnlyFactsDiffer(c, c') && c'.facts.ns == c.facts.ns && n <= |t.claims|
    ensures c'.ClaimReadings(t, term, n) == c.ClaimReadings(t, term, n)
  {
    hide Confine;
    if n > 0 {
      SameClaims(c, c', t, term, n - 1);
    }
  }

  /** Where a per-tenant issuer's grant lands rests on nothing read of it, and on its tenant's value and membership alone. */
  lemma TenantAsPlaced(c: Classifier, c': Classifier)
    requires OnlyFactsDiffer(c, c') && c'.facts.tenant == c.facts.tenant.(recyclable := c'.facts.tenant.recyclable)
    ensures AsPlaced(c.PlaceTenant(), c'.PlaceTenant())
  {
    hide Classifier.Covered, Distinct, Classifier.FlagPins;
    TenantCovered(c, c');
    var pins, pins' := [[c.TenantOwner()]], [[c'.TenantOwner()]];
    assert pins[0] in pins && pins'[0] in pins' && pins[0][0] in pins[0] && pins'[0][0] in pins'[0];
    assert forall pin | pin in pins :: pin == [c.TenantOwner()];
    assert forall pin | pin in pins' :: pin == [c'.TenantOwner()];
  }

  lemma TenantCovered(c: Classifier, c': Classifier)
    requires OnlyFactsDiffer(c, c') && c'.facts.tenant == c.facts.tenant.(recyclable := c'.facts.tenant.recyclable)
    ensures c'.Covered(c'.TenantOwner()) == c.Covered(c.TenantOwner())
  {
    forall d | d in c.declared ensures Names(d, c'.TenantOwner(), c'.facts, c.parser) == Names(d, c.TenantOwner(), c.facts, c.parser) {}
  }

  lemma TenantIsOnTheRings(c: Classifier)
    ensures 1 <= c.PlaceTenant().place.Rank() <= 3
  {
    hide Distinct, Classifier.FlagPins, Classifier.SomePinIsYours;
  }

  /** Who holds the grant's tokens is told by an OpenID Connect issuer. */
  predicate ByOIDC(c: Classifier) {
    && c.facts.principalModelled && c.grant.issuer != "" && !IsSAMLIssuer(c.grant.issuer) && !(SERVICE_PREFIX <= c.grant.issuer)
    && c.grant.issuer != AWS_ISSUER
  }

  /** Everyone else is placed as before, whatever facts are forgotten of an issuer. */
  lemma OthersAsPlaced(c: Classifier, c': Classifier, rel: (Population, Population) -> bool, term: Term)
    requires OnlyFactsDiffer(c, c') && c'.facts.principalModelled == c.facts.principalModelled
    requires c.facts.principalModelled && c.grant.issuer == "" ==> c'.facts.issuerless == c.facts.issuerless
    requires ByOIDC(c) ==> rel(c.PlaceOIDC(term), c'.PlaceOIDC(term))
    requires forall pop, pop' | AsPlaced(pop, pop') :: rel(pop, pop')
    ensures Pairwise(c.PlaceTerm(term), c'.PlaceTerm(term), rel)
  {
    hide Classifier.PlacePrincipal, Classifier.PlaceProvider, Classifier.PlaceOIDC, Classifier.PlaceService, IsSAMLIssuer;
    PrincipalAsPlaced(c, c', term);
    ProviderAsPlaced(c, c');
    forall pop: Population ensures AsPlaced(pop, pop) {}
  }

  // ---- The facts that are forgotten safely ----

  /** No population is certain, and all are anyone's, or each goes back or stays. */
  ghost predicate GoesBackInDoubt(c: Classifier, c': Classifier) {
    && c'.grant == c.grant
    && (forall term, pop | term in c.grant.admits.terms && pop in c'.PlaceTerm(term) :: pop.state.UnknownState?)
    && ((forall term | term in c.grant.admits.terms :: c'.PlaceTerm(term)[0].place == Anyone) || TermsRelated(c, c', BacksRel()))
  }

  lemma InDoubt(c: Classifier, c': Classifier)
    requires GoesBackInDoubt(c, c')
    ensures NeverInward(c.Classify(), c'.Classify()) && NoMoreCertain(c.Classify(), c'.Classify())
  {
    hide Classifier.PlaceTerm, Classifier.Classify, TermsRelated, OutermostRing;
    NothingExact(c');
    SameOutcome(c, c');
    if TermsRelated(c, c', BacksRel()) {
      PlacedNoNearer(c, c');
    } else {
      AnyonesGrant(c');
    }
  }

  /** Forgetting these facts moves no population, or leaves every one of them back and in doubt. */
  ghost predicate Safely(c: Classifier, fact: Fact) {
    TermsRelated(c, Without(c, fact), AsPlacedRel()) || GoesBackInDoubt(c, Without(c, fact))
  }

  lemma AnyoneInDoubt(c: Classifier, c': Classifier, basis: Basis)
    requires c'.grant == c.grant && forall term :: c'.PlaceTerm(term) == [At(Anyone, UnknownState, basis)]
    ensures GoesBackInDoubt(c, c')
  {
    hide Classifier.PlaceTerm, TermsRelated;
  }

  lemma RelatedByTerm(c: Classifier, c': Classifier, rel: (Population, Population) -> bool)
    requires c'.grant == c.grant && forall term :: Pairwise(c.PlaceTerm(term), c'.PlaceTerm(term), rel)
    ensures TermsRelated(c, c', rel)
  {
    hide Classifier.PlaceTerm, Pairwise;
  }

  lemma IssuerIsSafe(c: Classifier, fact: Fact)
    requires fact.IssuerFact? || fact.AnonymousFact?
    ensures Safely(c, fact)
  {
    hide Classifier.PlaceShared, Classifier.PlaceTenant, IsSAMLIssuer, TermsRelated, GoesBackInDoubt, Classifier.PlaceTerm, Pairwise;
    var c' := Without(c, fact);
    if ByOIDC(c) {
      OnlyAnyone(c, fact);
    } else {
      forall term ensures Pairwise(c.PlaceTerm(term), c'.PlaceTerm(term), AsPlacedRel()) {
        OthersAsPlaced(c, c', AsPlacedRel(), term);
      }
      RelatedByTerm(c, c', AsPlacedRel());
    }
  }

  lemma OnlyAnyone(c: Classifier, fact: Fact)
    requires (fact.IssuerFact? || fact.AnonymousFact?) && ByOIDC(c)
    ensures GoesBackInDoubt(c, Without(c, fact))
  {
    hide Classifier.PlaceShared, Classifier.PlaceTenant, IsSAMLIssuer, GoesBackInDoubt;
    var c' := Without(c, fact);
    var basis := if fact.IssuerFact? || c.facts.issuerKind.NotSurveyed? then IssuerNotSurveyed else AccountNotVerified;
    assert forall term :: c'.PlaceTerm(term) == [At(Anyone, UnknownState, basis)];
    AnyoneInDoubt(c, c', basis);
  }

  lemma WhoIsSafe(c: Classifier, fact: Fact)
    requires fact.PopulationFact? || fact.PrincipalFact?
    ensures Safely(c, fact)
  {
    hide Classifier.PlaceShared, Classifier.PlaceTenant, IsSAMLIssuer, TermsRelated, GoesBackInDoubt, Pairwise, AsPlaced, AsPlacedRel;
    var c' := Without(c, fact);
    if fact.PrincipalFact? || !c.facts.principalModelled {
      AnyoneInDoubt(c, c', PrincipalNotModelled);
    } else if c.grant.issuer == "" {
      AnyoneInDoubt(c, c', AnyIssuer);
    } else {
      OIDCStays(c, c');
      hide Classifier.PlaceTerm;
      forall term ensures Pairwise(c.PlaceTerm(term), c'.PlaceTerm(term), AsPlacedRel()) {
        OthersAsPlaced(c, c', AsPlacedRel(), term);
      }
      RelatedByTerm(c, c', AsPlacedRel());
    }
  }

  lemma OIDCStays(c: Classifier, c': Classifier)
    requires OnlyFactsDiffer(c, c')
    requires c'.facts == c.facts.(issuerless := c'.facts.issuerless, tenant := c.facts.tenant.(recyclable := c'.facts.tenant.recyclable))
    ensures forall term :: AsPlacedRel()(c.PlaceOIDC(term), c'.PlaceOIDC(term))
    ensures forall pop, pop' | AsPlaced(pop, pop') :: AsPlacedRel()(pop, pop')
  {
    hide Classifier.PlaceShared, Classifier.PlaceTenant;
    TenantAsPlaced(c, c');
    forall term ensures AsPlacedRel()(c.PlaceOIDC(term), c'.PlaceOIDC(term)) {
      SharedAsPlaced(c, c', term);
    }
  }

  lemma RecyclableIsSafe(c: Classifier)
    ensures Safely(c, RecyclableFact)
  {
    hide Classifier.PlaceTerm, Pairwise, TermsRelated, GoesBackInDoubt, AsPlaced, AsPlacedRel, Classifier.PlaceOIDC;
    var c' := Without(c, RecyclableFact);
    OIDCStays(c, c');
    forall term ensures Pairwise(c.PlaceTerm(term), c'.PlaceTerm(term), AsPlacedRel()) {
      OthersAsPlaced(c, c', AsPlacedRel(), term);
    }
    RelatedByTerm(c, c', AsPlacedRel());
  }

  /** The issuer names a tenant by itself, and its tokens need an account. */
  predicate PlacedByTenant(c: Classifier) {
    ByOIDC(c) && c.facts.issuerKind.PerTenant? && c.facts.anonymousTokens.No?
  }

  lemma OnThePlatformInDoubt(c: Classifier, c': Classifier, basis: Basis)
    requires c'.grant == c.grant && forall term :: c'.PlaceTerm(term) == [At(Platform, UnknownState, basis)]
    requires forall term :: |c.PlaceTerm(term)| == 1 && 1 <= c.PlaceTerm(term)[0].place.Rank() <= 3
    ensures GoesBackInDoubt(c, c')
  {
    hide Classifier.PlaceTerm;
    forall term ensures Pairwise(c.PlaceTerm(term), c'.PlaceTerm(term), BacksRel()) {}
    RelatedByTerm(c, c', BacksRel());
    hide TermsRelated;
  }

  lemma TenantIsSafe(c: Classifier, fact: Fact)
    requires fact.TenantFact? || fact.MembershipFact?
    ensures Safely(c, fact)
  {
    hide TermsRelated, GoesBackInDoubt, Classifier.PlaceTerm, Pairwise, IsSAMLIssuer;
    var c' := Without(c, fact);
    if PlacedByTenant(c) && !(fact.TenantFact? && c.facts.tenant.membership.OpenToAnyone?) {
      ForgottenTenant(c, fact);
    } else {
      forall term ensures Pairwise(c.PlaceTerm(term), c'.PlaceTerm(term), AsPlacedRel()) {
        TenantAside(c, c', term);
        OthersAsPlaced(c, c', AsPlacedRel(), term);
      }
      RelatedByTerm(c, c', AsPlacedRel());
    }
  }

  lemma TenantAside(c: Classifier, c': Classifier, term: Term)
    requires c' == c.(facts := c.facts.(tenant := c'.facts.tenant))
    requires PlacedByTenant(c) ==> c.facts.tenant.membership.OpenToAnyone? && c'.facts.tenant.membership.OpenToAnyone?
    ensures ByOIDC(c) ==> AsPlacedRel()(c.PlaceOIDC(term), c'.PlaceOIDC(term))
    ensures forall pop, pop' | AsPlaced(pop, pop') :: AsPlacedRel()(pop, pop')
  {
    hide Classifier.PlaceShared, IsSAMLIssuer, Classifier.Pinned;
    SharedAsPlaced(c, c', term);
  }

  lemma ForgottenTenant(c: Classifier, fact: Fact)
    requires (fact.TenantFact? && !c.facts.tenant.membership.OpenToAnyone?) || fact.MembershipFact?
    requires PlacedByTenant(c)
    ensures GoesBackInDoubt(c, Without(c, fact))
  {
    hide Classifier.PlaceShared, Classifier.Pinned, GoesBackInDoubt, IsSAMLIssuer;
    var c' := Without(c, fact);
    TenantIsOnTheRings(c);
    assert c'.PlaceTenant() == At(Platform, UnknownState, MembershipNotVerified);
    forall term ensures c.PlaceTerm(term) == [c.PlaceTenant()] && c'.PlaceTerm(term) == [c'.PlaceTenant()] {}
    hide Classifier.PlaceTerm, Classifier.PlaceTenant;
    OnThePlatformInDoubt(c, c', MembershipNotVerified);
  }

  lemma TenancyIsSafe(c: Classifier)
    ensures Safely(c, TenancyFact)
  {
    hide TermsRelated, GoesBackInDoubt, Classifier.PlaceTerm, Pairwise, IsSAMLIssuer;
    var c' := Without(c, TenancyFact);
    if PlacedByTenancy(c) {
      ForgottenTenancy(c);
    } else {
      forall term ensures Pairwise(c.PlaceTerm(term), c'.PlaceTerm(term), AsPlacedRel()) {
        TenancyAside(c, c', term);
        OthersAsPlaced(c, c', AsPlacedRel(), term);
      }
      RelatedByTerm(c, c', AsPlacedRel());
    }
  }

  lemma ForgottenTenancy(c: Classifier)
    requires PlacedByTenancy(c)
    ensures GoesBackInDoubt(c, Without(c, TenancyFact))
  {
    hide GoesBackInDoubt, IsSAMLIssuer, Classifier.Decide, AddedAll, Classifier.SharedReadings;
    var c' := Without(c, TenancyFact);
    forall term ensures c.PlaceTerm(term) == [c.PlaceShared(term)] && c'.PlaceTerm(term) == [At(Platform, UnknownState, TenancyNotRecorded)] {}
    forall term ensures 1 <= c.PlaceShared(term).place.Rank() <= 3 {
      SharedReachesThePlatform(c, term);
    }
    hide Classifier.PlaceTerm, Classifier.PlaceShared;
    OnThePlatformInDoubt(c, c', TenancyNotRecorded);
  }

  /** Where no tenancy is read for a grant, what is recorded of one moves nothing. */
  lemma TenancyAside(c: Classifier, c': Classifier, term: Term)
    requires c' == c.(facts := c.facts.(tenancy := c'.facts.tenancy, ns := c'.facts.ns)) && !PlacedByTenancy(c)
    requires c.facts.tenancy.None? ==> c'.facts.tenancy.None?
    ensures ByOIDC(c) ==> AsPlacedRel()(c.PlaceOIDC(term), c'.PlaceOIDC(term))
    ensures forall pop, pop' | AsPlaced(pop, pop') :: AsPlacedRel()(pop, pop')
  {
    hide Classifier.PlaceTenant, IsSAMLIssuer, Classifier.Decide, AddedAll, Classifier.SharedReadings;
    TenantAsPlaced(c, c');
  }

  lemma IsSafe(c: Classifier, fact: Fact)
    requires !fact.NamespaceFact? && !fact.CharactersFact? && !fact.CaseFact?
    ensures Safely(c, fact)
  {
    hide Safely;
    match fact
    case IssuerFact => IssuerIsSafe(c, fact);
    case AnonymousFact => IssuerIsSafe(c, fact);
    case TenancyFact => TenancyIsSafe(c);
    case TenantFact => TenantIsSafe(c, fact);
    case MembershipFact => TenantIsSafe(c, fact);
    case RecyclableFact => RecyclableIsSafe(c);
    case PopulationFact => WhoIsSafe(c, fact);
    case PrincipalFact => WhoIsSafe(c, fact);
  }

  // ---- Two placings of a shared issuer's grant ----

  /** Of two placings by tenancy, one is no nearer exactly where its outermost alternative is no nearer than the other's. */
  lemma SharedNeverInward(c: Classifier, c': Classifier)
    requires PlacedByTenancy(c) && PlacedByTenancy(c') && c'.grant == c.grant && HasAlternatives(c)
    ensures NeverInward(c.Classify(), c'.Classify()) <==>
              !exists near | near in c.grant.admits.terms ::
                 forall term | term in c.grant.admits.terms :: c.PlaceShared(near).place.Rank() < c'.PlaceShared(term).place.Rank()
  {
    hide Classifier.Classify, OutermostRing, Classifier.PlaceShared, PlacedByTenancy, NeverInward;
    RingsDecide(c, c');
    SharedPlacement(c);
    SharedPlacement(c');
    var ring, ring' := c.Classify().places[0], c'.Classify().places[0];
    var near :| near in c.grant.admits.terms && c.PlaceShared(near).place == ring;
    var near' :| near' in c.grant.admits.terms && c'.PlaceShared(near').place == ring';
    if ring.Rank() < ring'.Rank() {
      assert forall term | term in c.grant.admits.terms :: c.PlaceShared(near).place.Rank() < c'.PlaceShared(term).place.Rank();
    }
  }

  lemma RingsDecide(c: Classifier, c': Classifier)
    requires PlacedByTenancy(c) && PlacedByTenancy(c') && c'.grant == c.grant && HasAlternatives(c)
    ensures c.Classify().Placed? && |c.Classify().places| == 1 && c'.Classify().Placed? && |c'.Classify().places| == 1
    ensures NeverInward(c.Classify(), c'.Classify()) <==> c'.Classify().places[0].Rank() <= c.Classify().places[0].Rank()
  {
    hide Classifier.Classify, OutermostRing, Classifier.PlaceShared, PlacedByTenancy;
    SharedPlacement(c);
    SharedPlacement(c');
  }

  /** The ring the grant's outermost alternatives reach. */
  predicate IsOutermost(c: Classifier, ring: Place) {
    && (exists term | term in c.grant.admits.terms :: c.PlaceShared(term).place == ring)
    && (forall term | term in c.grant.admits.terms :: ring.Rank() <= c.PlaceShared(term).place.Rank())
  }

  /** Some alternative lands there exactly. */
  predicate SomeExactly(c: Classifier, ring: Place) {
    exists term | term in c.grant.admits.terms :: c.PlaceShared(term).place == ring && c.PlaceShared(term).state.ExactState?
  }

  lemma OneOutermost(c: Classifier, ring: Place)
    requires PlacedByTenancy(c) && HasAlternatives(c)
    ensures IsOutermost(c, ring) <==> c.Classify().Placed? && c.Classify().places == [ring]
  {
    hide Classifier.Classify, OutermostRing, Classifier.PlaceShared, PlacedByTenancy;
    SharedPlacement(c);
    var p := c.Classify().places[0];
    if IsOutermost(c, ring) {
      SameRank(p, ring);
    }
  }

  /** And of the two, one is more certain where it was exactly where no alternative lands there exactly, and one of the other's does. */
  lemma SharedNoMoreCertain(c: Classifier, c': Classifier)
    requires PlacedByTenancy(c) && PlacedByTenancy(c') && c'.grant == c.grant && HasAlternatives(c)
    ensures NoMoreCertain(c.Classify(), c'.Classify()) <==>
              !(c.grant.effect.Allow? && exists ring :: IsOutermost(c, ring) && IsOutermost(c', ring) && !SomeExactly(c, ring) && SomeExactly(c', ring))
  {
    hide Classifier.Classify, OutermostRing, Classifier.PlaceShared, PlacedByTenancy, IsOutermost, SomeExactly;
    StateTold(c);
    StateTold(c');
    var p, p' := c.Classify().places[0], c'.Classify().places[0];
    forall ring ensures (IsOutermost(c, ring) <==> ring == p) && (IsOutermost(c', ring) <==> ring == p') {
      OneOutermost(c, ring);
      OneOutermost(c', ring);
    }
    assert c'.Classify().places == c.Classify().places <==> p' == p;
    if p' == p {
      assert IsOutermost(c, p) && IsOutermost(c', p);
    }
  }

  lemma StateTold(c: Classifier)
    requires PlacedByTenancy(c) && HasAlternatives(c)
    ensures c.Classify().Placed? && c.Classify().places == [c.Classify().places[0]]
    ensures c.Classify().state.ExactState? <==> c.grant.effect.Allow? && SomeExactly(c, c.Classify().places[0])
  {
    hide Classifier.Classify, OutermostRing, Classifier.PlaceShared, PlacedByTenancy;
    SharedPlacement(c);
  }

  // ---- The namespace ----

  /** Some alternative is yours exactly, in a grant whose outermost alternatives are outsiders', none of them exactly. */
  predicate YoursBehindOutsiders(c: Classifier) {
    && c.grant.effect.Allow? && IsOutermost(c, Outsider) && !SomeExactly(c, Outsider)
    && SomeExactly(c, Yours)
  }

  lemma UndeclaredIsNobodys(c: Classifier, o: Owner)
    requires o.ns == ""
    ensures !c.Covered(o)
  {
  }

  /** With no namespace every pin is an outsider's. */
  lemma ForgottenNamespace(c: Classifier, term: Term)
    requires PlacedByTenancy(c)
    ensures var pop, pop' := c.PlaceShared(term), Without(c, NamespaceFact).PlaceShared(term);
            pop'.state == pop.state && pop'.place == if pop.place.Yours? then Outsider else pop.place
  {
    hide AddedAll, Classifier.SharedReadings, Classifier.Decide, PlacedByTenancy, InNamespace, Classifier.Covered;
    var c' := Without(c, NamespaceFact);
    assert c.facts.tenancy.Some? by { TenancyIsKnown(c); }
    var t := c.facts.tenancy.value;
    SharedRenamed(c, c', term);
    var cs' := c'.SharedReadings(t, term);
    var r, r' := AddedAll(c.SharedReadings(t, term)), AddedAll(cs');
    PlatformHasNoPins(c, r);
    PlatformHasNoPins(c', r');
    PinsAreNotEmpty(cs');
    forall pin | pin in r'.pins ensures exists o | o in pin :: !c'.Covered(o) {
      var i :| 0 <= i < |r'.pins| && r'.pins[i] == pin;
      assert pin[0] == r.pins[i][0].(ns := "") && pin[0] in pin;
      UndeclaredIsNobodys(c', pin[0]);
    }
  }

  lemma TenancyIsKnown(c: Classifier)
    requires PlacedByTenancy(c)
    ensures c.facts.tenancy.Some?
  {
  }

  lemma StaysByTenancy(c: Classifier, fact: Fact)
    requires fact.NamespaceFact? || fact.CharactersFact? || fact.CaseFact?
    ensures PlacedByTenancy(Without(c, fact)) <==> PlacedByTenancy(c)
  {
  }

  /** A grant that no tenancy places is placed as it was whatever is forgotten of names. */
  lemma NamesAside(c: Classifier, fact: Fact)
    requires fact.NamespaceFact? || fact.CharactersFact? || fact.CaseFact?
    requires !PlacedByTenancy(c) || !HasAlternatives(c)
    ensures NeverInward(c.Classify(), Without(c, fact).Classify()) && NoMoreCertain(c.Classify(), Without(c, fact).Classify())
  {
    hide Classifier.PlaceTerm, Classifier.Populations, TermsRelated, Pairwise, PlacedByTenancy, OutermostRing, Outermost;
    var c' := Without(c, fact);
    if HasAlternatives(c) {
      forall term ensures Pairwise(c.PlaceTerm(term), c'.PlaceTerm(term), AsPlacedRel()) {
        TenancyAside(c, c', term);
        OthersAsPlaced(c, c', AsPlacedRel(), term);
      }
      RelatedByTerm(c, c', AsPlacedRel());
      PlacedAsBefore(c, c');
    }
  }

  lemma NamesNeverInward(c: Classifier, c': Classifier)
    requires PlacedByTenancy(c) && PlacedByTenancy(c') && c'.grant == c.grant && HasAlternatives(c)
    requires forall term :: c'.PlaceShared(term).place.Rank() <= c.PlaceShared(term).place.Rank()
    ensures NeverInward(c.Classify(), c'.Classify())
  {
    hide Classifier.Classify, NeverInward, Classifier.PlaceShared, PlacedByTenancy;
    SharedNeverInward(c, c');
  }

  /**
   * Forgetting the namespace of a shared issuer's owners makes a grant certain where it was exactly where alternatives
   * that are yours stand behind outsiders' that are none of them exact: with the namespace gone they are outsiders' too.
   */
  lemma NamespaceMakesCertainExactlyWhen(c: Classifier)
    ensures NoMoreCertain(c.Classify(), Without(c, NamespaceFact).Classify()) <==>
              !(PlacedByTenancy(c) && HasAlternatives(c) && YoursBehindOutsiders(c))
  {
    hide Classifier.Classify, NoMoreCertain, Classifier.PlaceShared, PlacedByTenancy;
    var c' := Without(c, NamespaceFact);
    StaysByTenancy(c, NamespaceFact);
    if PlacedByTenancy(c) && HasAlternatives(c) {
      SharedNoMoreCertain(c, c');
      forall term ensures var pop, pop' := c.PlaceShared(term), c'.PlaceShared(term);
                          pop'.state == pop.state && pop'.place == if pop.place.Yours? then Outsider else pop.place
      {
        ForgottenNamespace(c, term);
      }
      YoursGoOut(c, c', term => true);
    } else {
      NamesAside(c, NamespaceFact);
    }
  }

  /** Where some that are yours go to the outsiders and nothing else changes, a place is more certain exactly where one that goes is exact. */
  lemma YoursGoOut(c: Classifier, c': Classifier, goes: Term -> bool)
    requires c'.grant == c.grant && HasAlternatives(c)
    requires forall term :: var pop, pop' := c.PlaceShared(term), c'.PlaceShared(term);
                            pop'.state == pop.state && pop'.place == if pop.place.Yours? && goes(term) then Outsider else pop.place
    ensures (exists ring :: IsOutermost(c, ring) && IsOutermost(c', ring) && !SomeExactly(c, ring) && SomeExactly(c', ring)) <==>
              && IsOutermost(c, Outsider) && !SomeExactly(c, Outsider)
              && exists term | term in c.grant.admits.terms :: goes(term) && c.PlaceShared(term).place.Yours? && c.PlaceShared(term).state.ExactState?
  {
    hide Classifier.PlaceShared;
    if ring :| IsOutermost(c, ring) && IsOutermost(c', ring) && !SomeExactly(c, ring) && SomeExactly(c', ring) {
      var term :| term in c.grant.admits.terms && c'.PlaceShared(term).place == ring && c'.PlaceShared(term).state.ExactState?;
      assert c.PlaceShared(term).place.Yours? && goes(term);
    }
    if IsOutermost(c, Outsider) && !SomeExactly(c, Outsider) {
      var near :| near in c.grant.admits.terms && c.PlaceShared(near).place == Outsider;
      assert IsOutermost(c', Outsider);
    }
  }

  // ---- The case rule ----

  /** The owner is declared as yours letter for letter. */
  predicate CoveredAsWritten(c: Classifier, o: Owner) {
    Without(c, CaseFact).Covered(o)
  }

  /** The alternative is yours by the case rule alone: no pin of it is declared letter for letter. */
  ghost predicate YoursByCase(c: Classifier, term: Term)
    requires c.facts.tenancy.Some?
  {
    c.PlaceShared(term).place.Yours?
    && forall pin | pin in AddedAll(c.SharedReadings(c.facts.tenancy.value, term)).pins :: exists o | o in pin :: !CoveredAsWritten(c, o)
  }

  ghost predicate YoursByCaseBehindOutsiders(c: Classifier)
    requires c.facts.tenancy.Some?
  {
    && c.grant.effect.Allow? && IsOutermost(c, Outsider) && !SomeExactly(c, Outsider)
    && exists term | term in c.grant.admits.terms :: YoursByCase(c, term) && c.PlaceShared(term).state.ExactState?
  }

  lemma WrittenIsCovered(c: Classifier, o: Owner)
    requires CoveredAsWritten(c, o)
    ensures c.Covered(o)
  {
    var d :| d in c.declared && Names(d, o, Without(c, CaseFact).facts, c.parser);
    assert Names(d, o, c.facts, c.parser);
  }

  lemma SamePins(c: Classifier, term: Term)
    requires c.facts.tenancy.Some?
    ensures var c' := Without(c, CaseFact);
            && AddedAll(c'.SharedReadings(c'.facts.tenancy.value, term)).pins == AddedAll(c.SharedReadings(c.facts.tenancy.value, term)).pins
            && c'.PlaceShared(term).state == c.PlaceShared(term).state
  {
    hide AddedAll, Classifier.SharedReadings, InNamespace, Classifier.PlaceShared;
    SharedRenamed(c, Without(c, CaseFact), term);
    SharedRenamed(c, c, term);
  }

  lemma ForgottenCase(c: Classifier, term: Term)
    requires c.facts.tenancy.Some?
    ensures var pop, pop' := c.PlaceShared(term), Without(c, CaseFact).PlaceShared(term);
            pop'.state == pop.state && pop'.place == if YoursByCase(c, term) then Outsider else pop.place
  {
    hide AddedAll, Classifier.SharedReadings, Classifier.Decide, Classifier.Covered;
    var c' := Without(c, CaseFact);
    SamePins(c, term);
    var r, r' := AddedAll(c.SharedReadings(c.facts.tenancy.value, term)), AddedAll(c'.SharedReadings(c'.facts.tenancy.value, term));
    PlatformHasNoPins(c, r);
    PlatformHasNoPins(c', r');
    forall o | CoveredAsWritten(c, o) ensures c.Covered(o) {
      WrittenIsCovered(c, o);
    }
  }

  /** Forgetting the case rule makes a grant certain where it was exactly where such alternatives are yours by that rule alone. */
  lemma CaseMakesCertainExactlyWhen(c: Classifier)
    ensures NoMoreCertain(c.Classify(), Without(c, CaseFact).Classify()) <==>
              !(PlacedByTenancy(c) && HasAlternatives(c) && YoursByCaseBehindOutsiders(c))
  {
    hide Classifier.Classify, NoMoreCertain, Classifier.PlaceShared, YoursByCase;
    hide IsSAMLIssuer;
    var c' := Without(c, CaseFact);
    StaysByTenancy(c, CaseFact);
    if PlacedByTenancy(c) && HasAlternatives(c) {
      SharedNoMoreCertain(c, c');
      CaseGoesOut(c);
    } else {
      NamesAside(c, CaseFact);
    }
  }

  lemma CaseGoesOut(c: Classifier)
    requires c.facts.tenancy.Some? && HasAlternatives(c)
    ensures var c' := Without(c, CaseFact);
            (exists ring :: IsOutermost(c, ring) && IsOutermost(c', ring) && !SomeExactly(c, ring) && SomeExactly(c', ring)) <==>
              && IsOutermost(c, Outsider) && !SomeExactly(c, Outsider)
              && exists term | term in c.grant.admits.terms :: YoursByCase(c, term) && c.PlaceShared(term).state.ExactState?
  {
    hide Classifier.PlaceShared, IsOutermost, SomeExactly;
    var c' := Without(c, CaseFact);
    forall term ensures var pop, pop' := c.PlaceShared(term), c'.PlaceShared(term);
                        pop'.state == pop.state && pop'.place == if YoursByCase(c, term) then Outsider else pop.place
    {
      ForgottenCase(c, term);
    }
    YoursGoOut(c, c', ByCase(c));
  }

  ghost function ByCase(c: Classifier): Term -> bool
    requires c.facts.tenancy.Some?
  {
    term => YoursByCase(c, term)
  }

  // ---- The owner characters ----

  /** Some alternative lands farther out than the tenancy claims alone put any alternative. */
  ghost predicate NearerByClaims(c: Classifier)
    requires c.facts.tenancy.Some?
  {
    exists near | near in c.grant.admits.terms ::
      forall term | term in c.grant.admits.terms :: c.PlaceShared(near).place.Rank() < ByClaims(c, term).Rank()
  }

  /**
   * Forgetting the owner characters moves a grant inward exactly where the tenancy claims alone, any name taken for one,
   * put each alternative nearer than the outermost of them landed.
   */
  lemma CharactersMoveInwardExactlyWhen(c: Classifier)
    ensures NeverInward(c.Classify(), Without(c, CharactersFact).Classify()) <==>
              !(PlacedByTenancy(c) && HasAlternatives(c) && NearerByClaims(c))
  {
    hide Classifier.Classify, NeverInward, Classifier.PlaceShared, IsSAMLIssuer, ByClaims;
    var c' := Without(c, CharactersFact);
    StaysByTenancy(c, CharactersFact);
    if PlacedByTenancy(c) && HasAlternatives(c) {
      assert c' == Forget(c);
      SharedNeverInward(c, c');
      forall term ensures c'.PlaceShared(term).place == ByClaims(c, term) {
        ForgottenPlace(c, term);
      }
    } else {
      NamesAside(c, CharactersFact);
    }
  }

  /**
   * The outermost alternatives are pinned, each read only as a bound of its subject, and the tenancy claims alone put
   * them, or others, there, and none farther out.
   */
  ghost predicate BoundWhereClaimsPin(c: Classifier, ring: Place)
    requires c.facts.tenancy.Some?
  {
    && ring.Rank() >= 2 && IsOutermost(c, ring)
    && (forall term | term in c.grant.admits.terms && c.PlaceShared(term).place == ring :: c.SubjectReading(c.facts.tenancy.value, term).bounded)
    && (exists term | term in c.grant.admits.terms :: ByClaims(c, term) == ring)
    && (forall term | term in c.grant.admits.terms :: ring.Rank() <= ByClaims(c, term).Rank())
  }

  /** Forgetting the owner characters makes a grant certain where it was exactly there. */
  lemma CharactersMakeCertainExactlyWhen(c: Classifier)
    ensures NoMoreCertain(c.Classify(), Without(c, CharactersFact).Classify()) <==>
              !(PlacedByTenancy(c) && HasAlternatives(c) && c.grant.effect.Allow? && exists ring :: BoundWhereClaimsPin(c, ring))
  {
    hide Classifier.Classify, NoMoreCertain, Classifier.PlaceShared, IsSAMLIssuer, ByClaims, IsOutermost, SomeExactly, BoundWhereClaimsPin;
    var c' := Without(c, CharactersFact);
    StaysByTenancy(c, CharactersFact);
    if PlacedByTenancy(c) && HasAlternatives(c) {
      assert c' == Forget(c);
      SharedNoMoreCertain(c, c');
      forall ring
        ensures IsOutermost(c, ring) && IsOutermost(c', ring) && !SomeExactly(c, ring) && SomeExactly(c', ring) <==> BoundWhereClaimsPin(c, ring)
      {
        CertainAt(c, ring);
      }
    } else {
      NamesAside(c, CharactersFact);
    }
  }

  /** Where an alternative lands with the characters and without. */
  ghost predicate PlacedTwice(c: Classifier, term: Term)
    requires c.facts.tenancy.Some?
  {
    var pop, pop' := c.PlaceShared(term), Forget(c).PlaceShared(term);
    && pop'.place == ByClaims(c, term) && 1 <= pop'.place.Rank()
    && (pop'.place.Rank() >= 2 ==> pop'.state.ExactState?)
    && (pop.place.Rank() >= 2 ==> (pop.state.UnknownState? <==> c.SubjectReading(c.facts.tenancy.value, term).bounded))
    && (pop'.place.Platform? && pop'.state.ExactState? ==> pop.place.Platform? && pop.state.ExactState?)
  }

  lemma CertainAt(c: Classifier, ring: Place)
    requires c.facts.tenancy.Some? && HasAlternatives(c)
    ensures var c' := Forget(c);
            IsOutermost(c, ring) && IsOutermost(c', ring) && !SomeExactly(c, ring) && SomeExactly(c', ring) <==> BoundWhereClaimsPin(c, ring)
  {
    hide Classifier.PlaceShared, ByClaims, Classifier.SubjectReading, PlacedTwice, IsOutermost, SomeExactly, BoundWhereClaimsPin;
    forall term ensures PlacedTwice(c, term) {
      PlacedApart(c, term);
    }
    if IsOutermost(c, ring) && IsOutermost(Forget(c), ring) && !SomeExactly(c, ring) && SomeExactly(Forget(c), ring) {
      CertainIsBound(c, ring);
    }
    if BoundWhereClaimsPin(c, ring) {
      BoundIsCertain(c, ring);
    }
  }

  lemma CertainIsBound(c: Classifier, ring: Place)
    requires c.facts.tenancy.Some? && forall term :: PlacedTwice(c, term)
    requires IsOutermost(c, ring) && IsOutermost(Forget(c), ring) && !SomeExactly(c, ring) && SomeExactly(Forget(c), ring)
    ensures BoundWhereClaimsPin(c, ring)
  {
    hide Classifier.PlaceShared, ByClaims, Classifier.SubjectReading;
    var terms := c.grant.admits.terms;
    var exact :| exact in terms && Forget(c).PlaceShared(exact).place == ring && Forget(c).PlaceShared(exact).state.ExactState?;
    assert PlacedTwice(c, exact);
    assert ring.Rank() >= 2;
    forall term | term in terms
      ensures ring.Rank() <= ByClaims(c, term).Rank()
      ensures c.PlaceShared(term).place == ring ==> c.SubjectReading(c.facts.tenancy.value, term).bounded
    {
      assert PlacedTwice(c, term);
    }
  }

  lemma BoundIsCertain(c: Classifier, ring: Place)
    requires c.facts.tenancy.Some? && (forall term :: PlacedTwice(c, term)) && BoundWhereClaimsPin(c, ring)
    ensures IsOutermost(c, ring) && IsOutermost(Forget(c), ring) && !SomeExactly(c, ring) && SomeExactly(Forget(c), ring)
  {
    hide Classifier.PlaceShared, ByClaims, Classifier.SubjectReading;
    var terms := c.grant.admits.terms;
    var pinned :| pinned in terms && ByClaims(c, pinned) == ring;
    assert PlacedTwice(c, pinned);
    forall term | term in terms
      ensures ring.Rank() <= Forget(c).PlaceShared(term).place.Rank()
      ensures c.PlaceShared(term).place == ring ==> c.PlaceShared(term).state.UnknownState?
    {
      assert PlacedTwice(c, term);
    }
  }

  lemma PlacedApart(c: Classifier, term: Term)
    requires c.facts.tenancy.Some?
    ensures PlacedTwice(c, term)
  {
    hide Classifier.PlaceShared, ByClaims, Classifier.SubjectReading;
    ForgottenPlace(c, term);
    SharedReachesThePlatform(Forget(c), term);
    if c.PlaceShared(term).place.Rank() >= 2 {
      PinnedIsUnknownWhenBounded(c, term);
    }
    if Forget(c).PlaceShared(term).place.Rank() >= 2 {
      ForgottenPinIsExact(c, term);
    } else if Forget(c).PlaceShared(term).state.ExactState? && Forget(c).PlaceShared(term).place.Platform? {
      PlatformStaysDoubted(c, term);
    }
  }

  // ---- Every fact ----

  /** Forgetting any fact but the owner characters never moves a grant inward, and never out of the rings. */
  lemma ForgettingNeverMovesInward(c: Classifier, fact: Fact)
    requires !fact.CharactersFact?
    ensures NeverInward(c.Classify(), Without(c, fact).Classify())
  {
    hide Classifier.Classify, NeverInward, NoMoreCertain, Classifier.PlaceShared, PlacedByTenancy, TermsRelated, GoesBackInDoubt;
    var c' := Without(c, fact);
    if fact.NamespaceFact? || fact.CaseFact? {
      if PlacedByTenancy(c) && HasAlternatives(c) {
        StaysByTenancy(c, fact);
        assert c.facts.tenancy.Some? by { TenancyIsKnown(c); }
        forall term ensures c'.PlaceShared(term).place.Rank() <= c.PlaceShared(term).place.Rank() {
          if fact.NamespaceFact? {
            ForgottenNamespace(c, term);
          } else {
            ForgottenCase(c, term);
          }
        }
        NamesNeverInward(c, c');
      } else {
        NamesAside(c, fact);
      }
    } else {
      SafelyForgotten(c, fact);
    }
  }

  lemma SafelyForgotten(c: Classifier, fact: Fact)
    requires !fact.NamespaceFact? && !fact.CharactersFact? && !fact.CaseFact?
    ensures NeverInward(c.Classify(), Without(c, fact).Classify()) && NoMoreCertain(c.Classify(), Without(c, fact).Classify())
  {
    hide Classifier.Classify, NeverInward, NoMoreCertain, TermsRelated, GoesBackInDoubt;
    IsSafe(c, fact);
    if TermsRelated(c, Without(c, fact), AsPlacedRel()) {
      PlacedAsBefore(c, Without(c, fact));
    } else {
      InDoubt(c, Without(c, fact));
    }
  }

  /** Apart from the three facts about names, forgetting one makes no unchanged place more certain. */
  lemma ForgettingNeverMakesCertain(c: Classifier, fact: Fact)
    requires !fact.NamespaceFact? && !fact.CharactersFact? && !fact.CaseFact?
    ensures NoMoreCertain(c.Classify(), Without(c, fact).Classify())
  {
    hide Classifier.Classify, NeverInward, NoMoreCertain;
    SafelyForgotten(c, fact);
  }

  // ---- Where the promise fails ----

  const OWNED_BY_B := map["repository_owner" := Exact("b")]

  const STARRED := map["repository_owner" := Exact("a"), "sub" := Exact("*")]

  /** A grant with these alternatives, of an issuer whose census says that names are made of a to z. */
  function Owned(parser: Parser, terms: seq<Term>, ns: string, declared: seq<Declaration>, anyCase: bool): Classifier {
    Classifier(
      Grant(TargetRef("role", "r"), "https://ci.example.com", AdmittedSet(terms, []), Allow, []),
      Facts(Shared, ns, No, Some(CENSUS.(namesIgnoreCase := anyCase)),
            IssuerTenant("", NameKind, Established.Unverified, MembershipUnverified), EveryIssuer, true),
      declared,
      parser)
  }

  function NamedOwner(ns: string, v: string): Owner {
    Owner("https://ci.example.com", ns, OwnerScope, NameKind, v, "", false, false)
  }

  lemma NoArnBegins(text: string)
    requires text != "" && text[0] != 'a'
    ensures !IsSAMLIssuer(text)
  {
    var fields := AwsTenants.SplitN(text, 6);
    assert fields[0] != "" ==> fields[0][0] == text[0];
  }

  ghost predicate IsOwned(c: Classifier, ns: string) {
    c.facts.tenancy.Some? && c == Owned(c.parser, c.grant.admits.terms, ns, c.declared, c.facts.tenancy.value.namesIgnoreCase)
  }

  lemma OwnedIsPlacedByTenancy(c: Classifier, ns: string)
    requires IsOwned(c, ns)
    ensures PlacedByTenancy(c) && c.facts.tenancy.Some? && c.grant.effect.Allow? && c.facts.tenancy.value.claims == [NAME_CLAIM]
    ensures forall claim | claim in c.facts.tenancy.value.claims :: claim == NAME_CLAIM
    ensures c.IsRead(c.facts.tenancy.value, NAME_CLAIM)
  {
    NoArnBegins("https://ci.example.com");
    hide IsSAMLIssuer;
  }

  lemma OneLetterRuns(t: Tenancy, v: string)
    requires v in ["a", "b"] && t.ownerCharacters == [CharRange('a', 'z')]
    ensures t.OwnerRun(v) == v
  {
    assert t.Allows(v[0]) by {
      assert t.ownerCharacters[0] in t.ownerCharacters;
    }
    assert v[1..] == "" && v == [v[0]];
  }

  lemma NameIsRead(c: Classifier, term: Term, v: string, ns: string)
    requires IsOwned(c, ns)
    requires v in ["a", "b"] && "repository_owner" in term && term["repository_owner"] == Exact(v)
    ensures c.ClaimReading(c.facts.tenancy.value, NAME_CLAIM, term) == Belonging([NamedOwner(ns, v)])
    ensures c.IsRead(c.facts.tenancy.value, NAME_CLAIM)
  {
    hide Tenancy.OwnerRun;
    var t := c.facts.tenancy.value;
    OneLetterRuns(t, v);
    assert ClaimOwners(c.Iss(), t, NAME_CLAIM, v) == [NamedOwner(ns, v)];
  }

  lemma StarIsABound(c: Classifier, term: Term, ns: string)
    requires IsOwned(c, ns)
    requires SUBJECT in term ==> term[SUBJECT] == Exact("*")
    ensures var r := c.SubjectReading(c.facts.tenancy.value, term); r.owners == [] && !r.unread && (r.bounded <==> SUBJECT in term)
  {
    hide LiteralPrefix, OwnerStarts;
    var t := c.facts.tenancy.value;
    assert Starred("*") && !SomeFormReads(c.Iss(), t, "*");
    assert SubjectOwners(c.Iss(), t, LiteralPrefix("*"), false) == [];
  }

  /** One owner pins the alternative, as a bound where the subject is starred. */
  lemma OwnedIsPinned(c: Classifier, term: Term, v: string, ns: string)
    requires IsOwned(c, ns)
    requires v in ["a", "b"] && "repository_owner" in term && term["repository_owner"] == Exact(v)
    requires SUBJECT in term ==> term[SUBJECT] == Exact("*")
    ensures AddedAll(c.SharedReadings(c.facts.tenancy.value, term)).pins == [[NamedOwner(ns, v)]]
    ensures c.PlaceShared(term).place == (if c.Covered(NamedOwner(ns, v)) then Yours else Outsider)
    ensures c.PlaceShared(term).state.UnknownState? <==> SUBJECT in term
    ensures c.SubjectReading(c.facts.tenancy.value, term).bounded <==> SUBJECT in term
  {
    hide Classifier.SubjectReading, Classifier.Covered, AddedAll, Classifier.SharedReadings, Classifier.Pinned, IsOwned;
    StarIsABound(c, term, ns);
    OwnedReads(c, term, v, ns);
    assert c.facts.tenancy.Some? by { OwnedIsPlacedByTenancy(c, ns); }
    var r := AddedAll(c.SharedReadings(c.facts.tenancy.value, term));
    PlatformHasNoPins(c, r);
    Renamings.PinnedIsExact(c, r.pins);
    OneOwnersPin(c, NamedOwner(ns, v));
  }

  lemma OneOwnersPin(c: Classifier, o: Owner)
    ensures c.SomePinIsYours([[o]]) <==> c.Covered(o)
  {
    hide Classifier.Covered;
    assert [o] in [[o]] && o in [o];
    assert forall p | p in [[o]] :: p == [o];
    assert forall x | x in [o] :: x == o;
  }

  lemma OwnedReads(c: Classifier, term: Term, v: string, ns: string)
    requires IsOwned(c, ns)
    requires v in ["a", "b"] && "repository_owner" in term && term["repository_owner"] == Exact(v)
    requires SUBJECT in term ==> term[SUBJECT] == Exact("*")
    ensures var r := AddedAll(c.SharedReadings(c.facts.tenancy.value, term)); r.pins == [[NamedOwner(ns, v)]] && (r.bounded <==> SUBJECT in term)
  {
    hide Classifier.ClaimReading, Classifier.SubjectReading, Classifier.IsRead, Classifier.RequestUnread, PlacedByTenancy;
    OwnedIsPlacedByTenancy(c, ns);
    NameIsRead(c, term, v, ns);
    StarIsABound(c, term, ns);
    hide IsOwned;
    var t := c.facts.tenancy.value;
    var name, sub := c.ClaimReading(t, NAME_CLAIM, term), c.SubjectReading(t, term);
    assert c.ClaimReadings(t, term, 0) == [];
    assert c.ClaimReadings(t, term, 1) == [name];
    var cs := c.SharedReadings(t, term);
    assert cs == [name, sub] && cs[..1] == [name] && [name][..0] == [];
    assert AddedAll([name]) == Added(NO_READING, name);
    assert AddedAll(cs) == Added(AddedAll([name]), sub);
  }

  /** Forgetting the characters moves a grant to a name they exclude from the platform to an outsider. */
  lemma CharactersCanMoveInward(parser: Parser)
    ensures !NeverInward(Spaced(parser).Classify(), Without(Spaced(parser), CharactersFact).Classify())
  {
    hide NeverInward, Classifier.Classify, Classifier.PlaceShared, ByClaims, IsSAMLIssuer;
    var c := Spaced(parser);
    NoArnBegins("https://ci.example.com");
    ForgettingCanMoveInward(parser);
    ForgottenPlace(c, SPACED);
    assert NearerByClaims(c) by {
      assert SPACED in c.grant.admits.terms;
    }
    CharactersMoveInwardExactlyWhen(c);
  }

  /** Forgetting the characters makes a grant of an owner's tokens with a starred subject, an outsider's in doubt, an outsider's exactly. */
  lemma CharactersCanMakeCertain(parser: Parser)
    ensures var c := Owned(parser, [STARRED], "", [], false); !NoMoreCertain(c.Classify(), Without(c, CharactersFact).Classify())
  {
    hide NoMoreCertain, Classifier.Classify, Without;
    CharactersExample(Owned(parser, [STARRED], "", [], false));
  }

  lemma CharactersExample(c: Classifier)
    requires IsOwned(c, "") && c.grant.admits.terms == [STARRED] && c.declared == []
    ensures !NoMoreCertain(c.Classify(), Without(c, CharactersFact).Classify())
  {
    hide NoMoreCertain, Classifier.Classify, PlacedByTenancy, IsOwned, BoundWhereClaimsPin, Without;
    OwnedIsPlacedByTenancy(c, "");
    BoundAlternative(c);
    CharactersMakeCertainExactlyWhen(c);
  }

  lemma BoundAlternative(c: Classifier)
    requires IsOwned(c, "") && c.grant.admits.terms == [STARRED] && c.declared == []
    ensures BoundWhereClaimsPin(c, Outsider)
  {
    hide Classifier.PlaceShared, Classifier.SubjectReading, IsOwned, ByClaims, AddedAll, Classifier.SharedReadings;
    OwnedIsPinned(c, STARRED, "a", "");
    StarredByClaims(c);
    assert c.grant.admits.terms[0] in c.grant.admits.terms;
    assert forall term | term in c.grant.admits.terms :: term == STARRED;
    assert !c.Covered(NamedOwner("", "a"));
  }

  lemma StarredByClaims(c: Classifier)
    requires IsOwned(c, "") && c.declared == []
    ensures ByClaims(c, STARRED) == Outsider
  {
    OwnedIsPlacedByTenancy(c, "");
    hide Classifier.IsRead, PlacedByTenancy, IsOwned;
    var t := c.facts.tenancy.value;
    assert t.claims[0] in t.claims && WritesOwners(NAME_CLAIM, STARRED);
    assert Lists(STARRED["repository_owner"], "a");
    assert !c.Covered(ValueOwner(c.Iss(), NAME_CLAIM, "a"));
  }

  /** Forgetting the namespace makes a grant certain that admits one of yours beside an outsider in doubt. */
  lemma NamespaceCanMakeCertain(parser: Parser)
    ensures var c := Owned(parser, [STARRED, OWNED_BY_B], "github", [Declaration("github", OwnerScope, "b", "", "")], false);
            !NoMoreCertain(c.Classify(), Without(c, NamespaceFact).Classify())
  {
    hide NoMoreCertain, Classifier.Classify, Without;
    NamespaceExample(Owned(parser, [STARRED, OWNED_BY_B], "github", [Declaration("github", OwnerScope, "b", "", "")], false));
  }

  lemma NamespaceExample(c: Classifier)
    requires IsOwned(c, "github") && c.grant.admits.terms == [STARRED, OWNED_BY_B] && !c.facts.tenancy.value.namesIgnoreCase
    requires c.declared == [Declaration("github", OwnerScope, "b", "", "")]
    ensures !NoMoreCertain(c.Classify(), Without(c, NamespaceFact).Classify())
  {
    hide NoMoreCertain, Classifier.Classify, Classifier.PlaceShared, PlacedByTenancy, IsOwned, AddedAll, Without, IsOutermost, SomeExactly,
      Classifier.Covered, Classifier.SharedReadings;
    OwnedIsPlacedByTenancy(c, "github");
    BIsDeclared(c);
    TwoAlternatives(c);
    NamespaceMakesCertainExactlyWhen(c);
  }

  lemma BIsDeclared(c: Classifier)
    requires c.facts.tenancy.Some? && !c.facts.tenancy.value.namesIgnoreCase
    requires c.declared == [Declaration("github", OwnerScope, "b", "", "")]
    ensures c.Covered(NamedOwner("github", "b")) && !c.Covered(NamedOwner("github", "a"))
  {
    assert c.declared[0] in c.declared && Names(c.declared[0], NamedOwner("github", "b"), c.facts, c.parser);
    assert forall d | d in c.declared :: d == c.declared[0];
    assert !Names(c.declared[0], NamedOwner("github", "a"), c.facts, c.parser);
  }

  /** The one an outsider's in doubt, the other yours exactly. */
  lemma TwoAlternatives(c: Classifier)
    requires IsOwned(c, "github") && c.grant.admits.terms == [STARRED, OWNED_BY_B]
    requires c.Covered(NamedOwner("github", "b")) && !c.Covered(NamedOwner("github", "a"))
    ensures IsOutermost(c, Outsider) && !SomeExactly(c, Outsider) && SomeExactly(c, Yours)
    ensures c.PlaceShared(OWNED_BY_B).place.Yours? && c.PlaceShared(OWNED_BY_B).state.ExactState?
    ensures AddedAll(c.SharedReadings(c.facts.tenancy.value, OWNED_BY_B)).pins == [[NamedOwner("github", "b")]]
  {
    hide Classifier.PlaceShared, IsOwned, Classifier.Covered, Classifier.SubjectReading, AddedAll, Classifier.SharedReadings;
    OwnedIsPinned(c, STARRED, "a", "github");
    OwnedIsPinned(c, OWNED_BY_B, "b", "github");
    var terms := c.grant.admits.terms;
    assert terms[0] in terms && terms[1] in terms;
    assert forall term | term in terms :: term == STARRED || term == OWNED_BY_B;
  }

  /** Forgetting the case rule does so where that one is yours by the rule. */
  lemma CaseCanMakeCertain(parser: Parser)
    ensures var c := Owned(parser, [STARRED, OWNED_BY_B], "github", [Declaration("github", OwnerScope, "B", "", "")], true);
            !NoMoreCertain(c.Classify(), Without(c, CaseFact).Classify())
  {
    hide NoMoreCertain, Classifier.Classify, Without;
    CaseExample(Owned(parser, [STARRED, OWNED_BY_B], "github", [Declaration("github", OwnerScope, "B", "", "")], true));
  }

  lemma CaseExample(c: Classifier)
    requires IsOwned(c, "github") && c.grant.admits.terms == [STARRED, OWNED_BY_B] && c.facts.tenancy.value.namesIgnoreCase
    requires c.declared == [Declaration("github", OwnerScope, "B", "", "")]
    ensures !NoMoreCertain(c.Classify(), Without(c, CaseFact).Classify())
  {
    hide NoMoreCertain, Classifier.Classify, Classifier.PlaceShared, PlacedByTenancy, IsOwned, AddedAll, Classifier.SharedReadings, Names;
    OwnedIsPlacedByTenancy(c, "github");
    CaseCovers(c);
    TwoAlternatives(c);
    assert YoursByCase(c, OWNED_BY_B) by {
      var pin := [NamedOwner("github", "b")];
      assert pin[0] in pin;
    }
    assert c.grant.admits.terms[1] in c.grant.admits.terms;
    CaseMakesCertainExactlyWhen(c);
  }

  lemma CaseCovers(c: Classifier)
    requires c.facts.tenancy.Some? && c.facts.tenancy.value.namesIgnoreCase
    requires c.declared == [Declaration("github", OwnerScope, "B", "", "")]
    ensures c.Covered(NamedOwner("github", "b")) && !c.Covered(NamedOwner("github", "a")) && !CoveredAsWritten(c, NamedOwner("github", "b"))
  {
    assert LowerASCII("B") == ['b'] + LowerASCII("B"[1..]);
    assert LowerASCII("b") == ['b'] + LowerASCII("b"[1..]);
    assert LowerASCII("a") == ['a'] + LowerASCII("a"[1..]);
    assert LowerASCII("B")[0] == 'b' && LowerASCII("a")[0] == 'a';
    assert c.declared[0] in c.declared && Names(c.declared[0], NamedOwner("github", "b"), c.facts, c.parser);
  }
}

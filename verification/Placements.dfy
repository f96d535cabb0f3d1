/** What the placing of a grant promises (internal/ring/classify.go). */
module Placements {
  import opened Strings
  import opened Sorting
  import opened StringSets
  import opened Terms
  import opened AdmittedSets
  import opened Grants
  import opened Owners
  import opened Subjects
  import opened Confinements
  import opened AwsTenants
  import opened Rings

  // ---- A nearer ring holds every token ----

  /** The pin behind a place: its owners are the population's, and where the place is yours they are all declared. */
  ghost predicate PinBehind(c: Classifier, pop: Population, pin: seq<Owner>) {
    && pin != [] && (forall o | o in pin :: c.Flag(o) in pop.owners)
    && (pop.place.Yours? ==> forall o | o in pin :: c.Covered(o))
  }

  lemma {:induction false} FlagPinsHold(c: Classifier, pins: seq<seq<Owner>>, o: Owner)
    ensures o in c.FlagPins(pins) <==> exists pin, p | pin in pins && p in pin :: o == c.Flag(p)
  {
    hide Classifier.Covered;
    if pins != [] {
      FlagPinsHold(c, pins[1..], o);
      assert forall pin :: pin in pins <==> pin == pins[0] || pin in pins[1..];
      assert o in c.FlagAll(pins[0]) <==> exists p | p in pins[0] :: o == c.Flag(p) by {
        FlagAllHold(c, pins[0], o);
      }
    }
  }

  lemma FlagAllHold(c: Classifier, pin: seq<Owner>, o: Owner)
    ensures o in c.FlagAll(pin) <==> exists p | p in pin :: o == c.Flag(p)
  {
    var flagged := c.FlagAll(pin);
    if o in flagged {
      var i :| 0 <= i < |flagged| && flagged[i] == o;
      assert pin[i] in pin;
    }
    forall p | p in pin ensures c.Flag(p) in flagged {
      var i :| 0 <= i < |pin| && pin[i] == p;
      assert flagged[i] == c.Flag(p);
    }
  }

  /** A place nearer than the platform has a pin behind it. */
  lemma NearerIsPinned(c: Classifier, r: Reading)
    requires c.Decide(r).place.Rank() >= 2 && forall pin | pin in r.pins :: pin != []
    ensures exists pin | pin in r.pins :: PinBehind(c, c.Decide(r), pin)
  {
    hide Distinct, Classifier.Covered, Classifier.FlagPins;
    var pop := c.Decide(r);
    assert r.pins[0] in r.pins;
    var pin := r.pins[0];
    if c.SomePinIsYours(r.pins) {
      pin :| pin in r.pins && forall o | o in pin :: c.Covered(o);
    }
    DistinctIs(c.FlagPins(r.pins));
    forall o | o in pin ensures c.Flag(o) in pop.owners {
      FlagPinsHold(c, r.pins, c.Flag(o));
    }
    assert PinBehind(c, pop, pin);
  }

  lemma PinsAreNotEmpty(cs: seq<Confinement>)
    ensures forall pin | pin in AddedAll(cs).pins :: pin != []
  {
    AddedAllIs(cs);
    forall pin | pin in AddedAll(cs).pins ensures pin != [] {
      PinsComeFrom(cs, pin);
    }
  }

  /**
   * An alternative of a shared issuer placed with an outsider or with you: every token it admits belongs to owners
   * the population names, and, where the place is yours, to owners you declared.
   */
  lemma SharedPlaceIsSound(c: Classifier, term: Term, token: Token)
    requires c.facts.tenancy.Some? && Satisfies(term, token) && c.PlaceShared(term).place.Rank() >= 2
    ensures exists pin :: PinBehind(c, c.PlaceShared(term), pin) && TokenBelongs(c, c.facts.tenancy.value, pin, token)
  {
    hide PinBehind, TokenBelongs, Classifier.Decide, AddedAll, Classifier.SharedReadings;
    var t := c.facts.tenancy.value;
    var r := AddedAll(c.SharedReadings(t, term));
    PinsAreNotEmpty(c.SharedReadings(t, term));
    NearerIsPinned(c, r);
    var pin :| pin in r.pins && PinBehind(c, c.Decide(r), pin);
    SharedPinsHold(c, t, term, token, pin);
  }

  /** The same of an AWS principal's alternative: a claim of every token names an account or organisation that is an owner. */
  lemma PrincipalPlaceIsSound(c: Classifier, term: Term, token: Token)
    requires Satisfies(term, token) && c.PlacePrincipal(term).place.Rank() >= 2
    ensures exists pin :: PinBehind(c, c.PlacePrincipal(term), pin) && PrincipalBelongs(c, pin, token)
  {
    hide PinBehind, PrincipalBelongs, Classifier.Decide, AddedAll, Classifier.PrincipalReadings;
    var r := AddedAll(c.PrincipalReadings(term));
    PinsAreNotEmpty(c.PrincipalReadings(term));
    NearerIsPinned(c, r);
    var pin :| pin in r.pins && PinBehind(c, c.Decide(r), pin);
    PrincipalPinsHold(c, term, token, pin);
  }

  // ---- Exact means read ----

  /** An exact place rests on no bound, and an exact platform on every constraint and every request key having been read. */
  lemma ExactMeansRead(c: Classifier, cs: seq<Confinement>)
    requires c.Decide(AddedAll(cs)).state.ExactState?
    ensures forall k | k in cs :: !k.bounded
    ensures c.Decide(AddedAll(cs)).place.Platform? ==>
              !c.RequestUnread() && forall k | k in cs :: k.owners == [] && !k.unread
  {
    hide AddedAll, PinsOf, Classifier.RequestUnread, Classifier.Pinned;
    AddedAllIs(cs);
    var r := AddedAll(cs);
    if c.Decide(r).place.Platform? {
      PlatformHasNoPins(c, r);
      forall k | k in cs ensures k.owners == [] {
        PinsComeFrom(cs, k.owners);
      }
    }
  }

  lemma PlatformHasNoPins(c: Classifier, r: Reading)
    ensures c.Decide(r).place.Platform? <==> r.pins == []
    ensures r.pins != [] ==> c.Decide(r).place == (if c.SomePinIsYours(r.pins) then Yours else Outsider)
  {
  }

  // ---- Unread never narrows ----

  /** wide is term with some claims' constraints read as unknown, or not there. */
  predicate Widened(term: Term, wide: Term) {
    forall k | k in wide :: wide[k].Unknown? || (k in term && wide[k] == term[k])
  }

  /** One constraint of a widened term pins nothing, or what it pinned. */
  lemma ConfineWidens(term: Term, wide: Term, claim: string, value: ValueReader, prefix: PrefixReader, w: bool, w': bool)
    requires Widened(term, wide)
    ensures var owners := Confine(wide, claim, value, prefix, w').owners;
            owners == [] || owners == Confine(term, claim, value, prefix, w).owners
  {
  }

  /** A pin read from a list of constraints that each pin nothing or what the other list's do is a pin of the other's. */
  ghost predicate PinsWithin(wide: seq<Confinement>, cs: seq<Confinement>) {
    forall k | k in wide :: k.owners == [] || exists k' | k' in cs :: k'.owners == k.owners
  }

  /** Fewer pins place no nearer. */
  lemma FewerPinsNoNearer(c: Classifier, c': Classifier, wide: seq<Confinement>, cs: seq<Confinement>)
    requires PinsWithin(wide, cs) && SameCover(c, c')
    ensures c'.Decide(AddedAll(wide)).place.Rank() <= c.Decide(AddedAll(cs)).place.Rank()
  {
    hide AddedAll, PinsOf, Classifier.Decide;
    AddedAllIs(wide);
    AddedAllIs(cs);
    var r', r := AddedAll(wide), AddedAll(cs);
    PlatformHasNoPins(c, r);
    PlatformHasNoPins(c', r');
    forall pin | pin in r'.pins ensures pin in r.pins {
      PinsComeFrom(wide, pin);
      PinsComeFrom(cs, pin);
    }
    if r'.pins != [] {
      assert r'.pins[0] in r.pins;
      SameCoverSameYours(c, c', r'.pins, r.pins);
    }
  }

  /** Two classifiers that hold the same owners declared. */
  ghost predicate SameCover(c: Classifier, c': Classifier) {
    forall o :: c.Covered(o) <==> c'.Covered(o)
  }

  lemma SameCoverSameYours(c: Classifier, c': Classifier, fewer: seq<seq<Owner>>, pins: seq<seq<Owner>>)
    requires SameCover(c, c') && forall pin | pin in fewer :: pin in pins
    ensures c'.SomePinIsYours(fewer) ==> c.SomePinIsYours(pins)
  {
    hide Classifier.Covered;
  }

  /** The grant with other alternatives and other caveats. */
  function With(c: Classifier, admits: AdmittedSet): Classifier {
    c.(grant := c.grant.(admits := admits))
  }

  lemma ClaimReadingWidens(c: Classifier, c': Classifier, t: Tenancy, claim: TenancyClaim, term: Term, wide: Term)
    requires Widened(term, wide) && c' == With(c, c'.grant.admits)
    ensures var owners := c'.ClaimReading(t, claim, wide).owners; owners == [] || owners == c.ClaimReading(t, claim, term).owners
  {
    hide Confine, Widened;
    ConfineWidens(term, wide, claim.claim, ClaimValues(c.Iss(), t, claim), ClaimPrefixes(claim), c.WidenedOn(claim.claim), c'.WidenedOn(claim.claim));
  }

  lemma {:induction false} ClaimReadingsWiden(c: Classifier, c': Classifier, t: Tenancy, term: Term, wide: Term, n: nat)
    requires n <= |t.claims| && Widened(term, wide) && c' == With(c, c'.grant.admits)
    ensures PinsWithin(c'.ClaimReadings(t, wide, n), c.ClaimReadings(t, term, n))
  {
    hide Classifier.ClaimReading, Widened, Classifier.IsRead;
    if n > 0 {
      ClaimReadingsWiden(c, c', t, term, wide, n - 1);
      ClaimReadingWidens(c, c', t, t.claims[n - 1], term, wide);
      assert c'.IsRead(t, t.claims[n - 1]) == c.IsRead(t, t.claims[n - 1]) by {
        SameRead(c, c', t, t.claims[n - 1]);
      }
    }
  }

  lemma SameRead(c: Classifier, c': Classifier, t: Tenancy, claim: TenancyClaim)
    ensures c'.IsRead(t, claim) == c.IsRead(t, claim)
  {
  }

  /** Whatever is unread of a shared issuer's alternative, and whatever caveats are added, it is placed no nearer. */
  lemma UnreadNeverNarrowsShared(c: Classifier, admits: AdmittedSet, term: Term, wide: Term)
    requires Widened(term, wide)
    ensures With(c, admits).PlaceShared(wide).place.Rank() <= c.PlaceShared(term).place.Rank()
  {
    hide Confine, Widened, Classifier.Decide, AddedAll, Classifier.Covered, Classifier.ClaimReadings, Classifier.SubjectReading;
    var c' := With(c, admits);
    if c.facts.tenancy.Some? {
      var t := c.facts.tenancy.value;
      ClaimReadingsWiden(c, c', t, term, wide, |t.claims|);
      SubjectReadingWidens(c, c', t, term, wide);
      SameDeclaredSameCover(c, c');
      FewerPinsNoNearer(c, c', c'.SharedReadings(t, wide), c.SharedReadings(t, term));
    }
  }

  lemma SameDeclaredSameCover(c: Classifier, c': Classifier)
    requires c'.declared == c.declared && c'.facts == c.facts && c'.parser == c.parser
    ensures SameCover(c, c')
  {
  }

  lemma SubjectReadingWidens(c: Classifier, c': Classifier, t: Tenancy, term: Term, wide: Term)
    requires Widened(term, wide) && c' == With(c, c'.grant.admits)
    ensures var owners := c'.SubjectReading(t, wide).owners; owners == [] || owners == c.SubjectReading(t, term).owners
  {
    hide Confine;
    ConfineWidens(term, wide, SUBJECT, SubjectValues(c.Iss(), t), SubjectPrefixes(c.Iss(), t), c.WidenedOn(SUBJECT), c'.WidenedOn(SUBJECT));
    if SUBJECT !in wide {
      AbsentPinsNothing(wide, SUBJECT, SubjectValues(c.Iss(), t), SubjectPrefixes(c.Iss(), t), c'.WidenedOn(SUBJECT));
    } else if SUBJECT !in term {
      AbsentPinsNothing(term, SUBJECT, SubjectValues(c.Iss(), t), SubjectPrefixes(c.Iss(), t), c.WidenedOn(SUBJECT));
    }
  }

  lemma AbsentPinsNothing(term: Term, claim: string, value: ValueReader, prefix: PrefixReader, w: bool)
    requires claim !in term
    ensures Confine(term, claim, value, prefix, w).owners == []
  {
  }

  /** The same of an AWS principal's alternative. */
  lemma UnreadNeverNarrowsPrincipal(c: Classifier, admits: AdmittedSet, term: Term, wide: Term)
    requires Widened(term, wide)
    ensures With(c, admits).PlacePrincipal(wide).place.Rank() <= c.PlacePrincipal(term).place.Rank()
  {
    hide Confine, Widened, Classifier.Decide, AddedAll, Classifier.Covered;
    var c' := With(c, admits);
    var issuer := c.grant.issuer;
    forall claim | claim in TENANCY_CLAIMS
      ensures var owners := c'.TenantReading(wide, claim).owners; owners == [] || owners == c.TenantReading(term, claim).owners
    {
      ConfineWidens(term, wide, claim, TenantValues(issuer, claim), TenantPrefixes(issuer, claim), c.WidenedOn(claim), c'.WidenedOn(claim));
    }
    SameDeclaredSameCover(c, c');
    FewerPinsNoNearer(c, c', c'.PrincipalReadings(wide), c.PrincipalReadings(term));
  }

  /** Where a population lands no nearer than another: on the rings or beside them as it is, and no farther in. */
  predicate NoNearer(wide: Place, place: Place) {
    (wide.IsRing() <==> place.IsRing()) && wide.Rank() <= place.Rank()
  }

  lemma SameIsNoNearer(place: Place)
    ensures NoNearer(place, place)
  {
  }

  /** One alternative, whoever its principal is: what is unread places it no nearer, and off the rings only where it was. */
  lemma UnreadNeverNarrows(c: Classifier, admits: AdmittedSet, term: Term, wide: Term)
    requires Widened(term, wide)
    ensures var pops', pops := With(c, admits).PlaceTerm(wide), c.PlaceTerm(term);
            |pops'| == |pops| && forall k | 0 <= k < |pops| :: NoNearer(pops'[k].place, pops[k].place)
  {
    hide Classifier.PlaceShared, Classifier.PlacePrincipal, IsSAMLIssuer, Widened, Classifier.PlaceTenant, Classifier.PlaceProvider,
      Classifier.PlaceService, Classifier.PlaceIssuerless, NoNearer;
    UnreadNoNearer(c, admits, term, wide);
    CaveatsAside(c, admits);
    forall place ensures NoNearer(place, place) {
      SameIsNoNearer(place);
    }
  }

  lemma UnreadNoNearer(c: Classifier, admits: AdmittedSet, term: Term, wide: Term)
    requires Widened(term, wide)
    ensures NoNearer(With(c, admits).PlaceShared(wide).place, c.PlaceShared(term).place)
    ensures NoNearer(With(c, admits).PlacePrincipal(wide).place, c.PlacePrincipal(term).place)
  {
    hide Classifier.PlaceShared, Classifier.PlacePrincipal, Widened;
    UnreadNeverNarrowsShared(c, admits, term, wide);
    UnreadNeverNarrowsPrincipal(c, admits, term, wide);
    SharedIsARing(c, term);
    SharedIsARing(With(c, admits), wide);
  }

  /** What is read of no claim is placed alike whatever a grant admits. */
  lemma CaveatsAside(c: Classifier, admits: AdmittedSet)
    ensures var c' := With(c, admits);
            c'.PlaceTenant().place == c.PlaceTenant().place && c'.PlaceProvider().place == c.PlaceProvider().place
            && c'.PlaceService() == c.PlaceService() && c'.PlaceIssuerless() == c.PlaceIssuerless()
  {
    hide Distinct;
    var c' := With(c, admits);
    SameDeclaredSameCover(c, c');
    hide Classifier.Covered;
  }

  lemma SharedIsARing(c: Classifier, term: Term)
    ensures c.PlaceShared(term).place.IsRing() && c.PlacePrincipal(term).place.IsRing()
  {
    hide AddedAll, Classifier.Decide, Classifier.SharedReadings, Classifier.PrincipalReadings;
    DecideIsARing(c, AddedAll(c.PrincipalReadings(term)));
    if c.facts.tenancy.Some? {
      DecideIsARing(c, AddedAll(c.SharedReadings(c.facts.tenancy.value, term)));
    }
  }

  lemma DecideIsARing(c: Classifier, r: Reading)
    ensures c.Decide(r).place.IsRing()
  {
    hide Distinct, Classifier.FlagPins, Classifier.SomePinIsYours, Classifier.RequestUnread;
  }

  // ---- The grant's outermost ring ----

  lemma {:induction false} PopulationsAre(c: Classifier, n: nat, pop: Population)
    requires n <= |c.grant.admits.terms|
    ensures pop in c.Populations(n) <==>
              exists i, k | 0 <= i < n && 0 <= k < |c.PlaceTerm(c.grant.admits.terms[i])| :: pop == c.Kept(c.PlaceTerm(c.grant.admits.terms[i])[k], i)
  {
    hide Classifier.PlaceTerm, Classifier.Kept, Classifier.KeptAll;
    if n > 0 {
      PopulationsAre(c, n - 1, pop);
      KeptAllHold(c, c.PlaceTerm(c.grant.admits.terms[n - 1]), n - 1, pop);
    }
  }

  lemma KeptAllHold(c: Classifier, pops: seq<Population>, i: nat, pop: Population)
    ensures pop in c.KeptAll(pops, i) <==> exists k | 0 <= k < |pops| :: pop == c.Kept(pops[k], i)
  {
    hide Classifier.Kept;
    var kept := c.KeptAll(pops, i);
    if pop in kept {
      var k :| 0 <= k < |kept| && kept[k] == pop;
      assert pop == c.Kept(pops[k], i);
    }
    forall k | 0 <= k < |pops| ensures c.Kept(pops[k], i) in kept {
      assert kept[k] == c.Kept(pops[k], i);
    }
  }

  /**
   * Reading less of a grant's conditions, and adding alternatives or caveats, never moves the grant's outermost ring
   * nearer.
   */
  lemma UnreadNeverNarrowsTheGrant(c: Classifier, admits: AdmittedSet)
    requires !c.grant.effect.Deny? && c.grant.admits.terms != []
    requires forall term | term in c.grant.admits.terms :: exists wide | wide in admits.terms :: Widened(term, wide)
    ensures c.Classify().Placed? && With(c, admits).Classify().Placed?
    ensures var ring, ring' := OutermostRing(c.Classify().populations), OutermostRing(With(c, admits).Classify().populations);
            ring.Some? ==> ring'.Some? && ring'.value.Rank() <= ring.value.Rank()
  {
    hide Classifier.PlaceTerm, Classifier.Populations, OutermostRing, Widened, Outermost;
    var c' := With(c, admits);
    var term0 := c.grant.admits.terms[0];
    assert term0 in c.grant.admits.terms;
    var wide0 :| wide0 in admits.terms && Widened(term0, wide0);
    OutermostHolds(c.Populations(|c.grant.admits.terms|));
    OutermostHolds(c'.Populations(|admits.terms|));
    var pops, pops' := c.Populations(|c.grant.admits.terms|), c'.Populations(|admits.terms|);
    OutermostRingIs(pops);
    OutermostRingIs(pops');
    if OutermostRing(pops).Some? {
      var pop :| pop in pops && pop.place == OutermostRing(pops).value;
      var pop' := NoNearerPopulation(c, admits, pop);
      assert pop' in pops';
    }
  }

  lemma OutermostHolds(pops: seq<Population>)
    ensures Outermost(pops).Placed? && Outermost(pops).populations == pops
  {
  }

  lemma NoNearerPopulation(c: Classifier, admits: AdmittedSet, pop: Population) returns (pop': Population)
    requires forall term | term in c.grant.admits.terms :: exists wide | wide in admits.terms :: Widened(term, wide)
    requires pop in c.Populations(|c.grant.admits.terms|) && pop.place.IsRing()
    ensures pop' in With(c, admits).Populations(|admits.terms|) && pop'.place.IsRing() && pop'.place.Rank() <= pop.place.Rank()
  {
    hide Classifier.PlaceTerm, Classifier.Populations, Widened;
    var terms, c' := c.grant.admits.terms, With(c, admits);
    PopulationsAre(c, |terms|, pop);
    var i, k :| 0 <= i < |terms| && 0 <= k < |c.PlaceTerm(terms[i])| && pop == c.Kept(c.PlaceTerm(terms[i])[k], i);
    assert terms[i] in terms;
    var wide :| wide in admits.terms && Widened(terms[i], wide);
    var j :| 0 <= j < |admits.terms| && admits.terms[j] == wide;
    UnreadNeverNarrows(c, admits, terms[i], wide);
    pop' := c'.Kept(c'.PlaceTerm(wide)[k], j);
    PopulationsAre(c', |admits.terms|, pop');
  }

  // ---- What is not shown is placed outermost ----

  /** What the facts show of whoever a grant admits: the principal and its issuer are known, and its tokens need an account. */
  predicate AccountShown(c: Classifier) {
    && c.facts.principalModelled && c.grant.issuer != ""
    && (c.grant.issuer == AWS_ISSUER || IsSAMLIssuer(c.grant.issuer)
        || (!c.facts.issuerKind.NotSurveyed? && c.facts.anonymousTokens.No?))
  }

  /**
   * A ring nearer than anyone needs an account shown; an outsider's or yours a pin, or a tenant whose owner controls
   * it; and your people a provider declared. A state is exact only of what was placed by such facts.
   */
  lemma NearerOnlyWhenShown(c: Classifier, term: Term)
    ensures forall pop | pop in c.PlaceTerm(term) && pop.place.IsRing() ::
              && (pop.place.Rank() >= 1 ==> AccountShown(c))
              && (pop.place.Rank() >= 2 && pop.basis.ControlledTenant? ==> c.facts.tenant.membership.Controlled? && c.facts.tenant.value != "")
              && (pop.place.Rank() >= 2 ==> pop.owners != [])
              && (pop.place.People? <==> IsSAMLIssuer(c.grant.issuer) && AccountShown(c) && c.Covered(c.ProviderOwner()))
              && (pop.place.Anyone? ==> pop.state.UnknownState?)
  {
    hide AddedAll, IsSAMLIssuer, Classifier.SharedReadings, Classifier.PrincipalReadings, Classifier.Decide, Classifier.Covered,
      Classifier.Pinned;
    DecideNearer(c, AddedAll(c.PrincipalReadings(term)));
    PinsAreNotEmpty(c.PrincipalReadings(term));
    if c.facts.tenancy.Some? {
      DecideNearer(c, AddedAll(c.SharedReadings(c.facts.tenancy.value, term)));
      PinsAreNotEmpty(c.SharedReadings(c.facts.tenancy.value, term));
    }
    PinnedHasOwners(c, [[c.TenantOwner()]], ControlledTenant);
  }

  lemma DecideNearer(c: Classifier, r: Reading)
    ensures var pop := c.Decide(r);
            && 1 <= pop.place.Rank() <= 3
            && (pop.place.Rank() >= 2 ==> pop.basis == Confinements.Pinned)
            && (pop.place.Rank() >= 2 && (forall pin | pin in r.pins :: pin != []) ==> pop.owners != [])
  {
    hide Classifier.RequestUnread;
    if r.pins != [] {
      PinnedHasOwners(c, r.pins, Confinements.Pinned);
    }
  }

  lemma PinnedHasOwners(c: Classifier, pins: seq<seq<Owner>>, basis: Basis)
    ensures var pop := c.Pinned(pins, basis);
            && 2 <= pop.place.Rank() <= 3 && pop.basis == basis
            && (pins != [] && (forall pin | pin in pins :: pin != []) ==> pop.owners != [])
  {
    hide Distinct, Classifier.FlagPins, Classifier.SomePinIsYours;
    if pins != [] && forall pin | pin in pins :: pin != [] {
      assert pins[0] in pins && pins[0][0] in pins[0];
      FlagPinsHold(c, pins, c.Flag(pins[0][0]));
      DistinctIs(c.FlagPins(pins));
    }
  }

  /** A grant whose effect was not read is placed, and never exactly. */
  lemma UnreadEffectIsNeverExact(c: Classifier)
    requires c.grant.effect.EffectUnread? && c.grant.admits.terms != []
    ensures c.Classify().Placed? && c.Classify().places != [] && c.Classify().state.UnknownState?
  {
    hide Classifier.PlaceTerm, Classifier.Populations, OutermostRing;
    var pops := c.Populations(|c.grant.admits.terms|);
    var first := c.PlaceTerm(c.grant.admits.terms[0])[0];
    PopulationsAre(c, |c.grant.admits.terms|, c.Kept(first, 0));
    OutermostRingIs(pops);
    assert c.Kept(first, 0) in pops;
    SomewhereIsNamed(pops, c.Kept(first, 0));
    forall pop | pop in pops ensures pop.state.UnknownState? {
      PopulationsAre(c, |c.grant.admits.terms|, pop);
    }
    assert !ReachesExactly(pops, Named(pops)[0]);
  }

  lemma SomewhereIsNamed(pops: seq<Population>, pop: Population)
    requires pop in pops
    ensures Named(pops) != []
  {
    hide OutermostRing;
    OutermostRingIs(pops);
  }
}

/** What declaring an owner would move (internal/report/findings.go, internal/ring/classify.go). */
module Moves {
  import opened Strings
  import opened StringSets
  import opened Terms
  import opened AdmittedSets
  import opened Grants
  import opened Owners
  import opened Subjects
  import opened Confinements
  import opened AwsTenants
  import opened Rings
  import opened Placements

  /** The classifier with other owners declared. */
  function Declaring(c: Classifier, declared: seq<Declaration>): Classifier {
    c.(declared := declared)
  }

  // ---- Declaring moves a population inward, or nothing ----

  /** The same population, but for whose its owners are: an outsider may be yours, a provider's sign-ins your people. */
  predicate MovesInward(before: Population, after: Population) {
    && after.term == before.term && after.state == before.state && after.basis == before.basis
    && after.starts == before.starts && after.bounded == before.bounded
    && (after.place == before.place || (before.place.Outsider? && after.place.Yours?) || (before.place.SAMLLine? && after.place.People?))
  }

  lemma {:induction false} SameClaimReadings(c: Classifier, c': Classifier, t: Tenancy, term: Term, n: nat)
    requires n <= |t.claims| && c' == Declaring(c, c'.declared)
    ensures c'.ClaimReadings(t, term, n) == c.ClaimReadings(t, term, n)
  {
    hide Confine;
    if n > 0 {
      SameClaimReadings(c, c', t, term, n - 1);
    }
  }

  /** What is read of a term does not depend on who is declared. */
  lemma SameReadings(c: Classifier, c': Classifier, term: Term)
    requires c' == Declaring(c, c'.declared)
    ensures forall t :: c'.SharedReadings(t, term) == c.SharedReadings(t, term)
    ensures c'.PrincipalReadings(term) == c.PrincipalReadings(term)
    ensures c'.RequestUnread() == c.RequestUnread()
  {
    forall t ensures c'.SharedReadings(t, term) == c.SharedReadings(t, term) {
      SameClaimReadings(c, c', t, term, |t.claims|);
      hide Subject, Classifier.ClaimReadings;
    }
    hide Confine;
  }

  lemma DecideMovesInward(c: Classifier, c': Classifier, r: Reading)
    requires c' == Declaring(c, c'.declared) && c'.RequestUnread() == c.RequestUnread()
    requires forall o | c.Covered(o) :: c'.Covered(o)
    ensures MovesInward(c.Decide(r), c'.Decide(r))
  {
    hide Classifier.Covered, Distinct, Classifier.FlagPins;
  }

  lemma MoreDeclaredMoreCovered(c: Classifier, declared: seq<Declaration>)
    requires forall d | d in c.declared :: d in declared
    ensures forall o | c.Covered(o) :: Declaring(c, declared).Covered(o)
  {
  }

  /** Declaring more owners leaves every population's basis and state, and moves it only from an outsider's to yours or to your people. */
  lemma DeclaringOnlyMovesInward(c: Classifier, declared: seq<Declaration>, term: Term)
    requires forall d | d in c.declared :: d in declared
    ensures var pops, pops' := c.PlaceTerm(term), Declaring(c, declared).PlaceTerm(term);
            |pops'| == |pops| && forall k | 0 <= k < |pops| :: MovesInward(pops[k], pops'[k])
  {
    hide Classifier.Decide, Classifier.Covered, AddedAll, Classifier.SharedReadings, Classifier.PrincipalReadings, Distinct,
      Classifier.FlagPins, IsSAMLIssuer, MovesInward, Classifier.PlaceTenant, Classifier.PlaceService, Classifier.PlaceProvider;
    var c' := Declaring(c, declared);
    SameReadings(c, c', term);
    MoreDeclaredMoreCovered(c, declared);
    DecideMovesInward(c, c', AddedAll(c.PrincipalReadings(term)));
    if c.facts.tenancy.Some? {
      DecideMovesInward(c, c', AddedAll(c.SharedReadings(c.facts.tenancy.value, term)));
    }
    OthersMoveInward(c, c');
    forall pop: Population ensures MovesInward(pop, pop) {
      StaysInward(pop);
    }
  }

  lemma StaysInward(pop: Population)
    ensures MovesInward(pop, pop)
  {
  }

  lemma OthersMoveInward(c: Classifier, c': Classifier)
    requires c' == Declaring(c, c'.declared) && forall o | c.Covered(o) :: c'.Covered(o)
    ensures MovesInward(c.PlaceTenant(), c'.PlaceTenant()) && MovesInward(c.PlaceProvider(), c'.PlaceProvider())
    ensures c'.PlaceService() == c.PlaceService() && c'.PlaceIssuerless() == c.PlaceIssuerless()
  {
    hide Classifier.Covered, Distinct, Classifier.FlagPins;
  }

  // ---- Only an owner a population names can move it ----

  /** Some population's owners include one the declaration names. */
  predicate NamesOneOf(d: Declaration, pops: seq<Population>, f: Facts, parser: Parser) {
    exists pop | pop in pops :: exists o | o in pop.owners :: Names(d, o, f, parser)
  }

  /** Whose an owner is does not depend on its mark. */
  lemma MarkAside(d: Declaration, o: Owner, declared: bool, f: Facts, parser: Parser)
    ensures Names(d, o.(declared := declared), f, parser) == Names(d, o, f, parser)
  {
  }

  /** Both classifiers hold o declared, or neither does. */
  predicate Agree(c: Classifier, c': Classifier, o: Owner) {
    c'.Covered(o) == c.Covered(o)
  }

  lemma {:induction false} SameFlags(c: Classifier, c': Classifier, pins: seq<seq<Owner>>)
    requires forall pin, o | pin in pins && o in pin :: Agree(c, c', o)
    ensures c'.FlagPins(pins) == c.FlagPins(pins)
  {
    hide Classifier.Covered;
    if pins != [] {
      SameFlags(c, c', pins[1..]);
      SameFlagsOfOne(c, c', pins[0]);
    }
  }

  lemma SameFlagsOfOne(c: Classifier, c': Classifier, pin: seq<Owner>)
    requires forall o | o in pin :: Agree(c, c', o)
    ensures c'.FlagAll(pin) == c.FlagAll(pin)
  {
    hide Classifier.Covered;
    forall i | 0 <= i < |pin| ensures c'.FlagAll(pin)[i] == c.FlagAll(pin)[i] {
      assert pin[i] in pin;
    }
  }

  lemma SamePinned(c: Classifier, c': Classifier, pins: seq<seq<Owner>>, basis: Basis)
    requires forall pin, o | pin in pins && o in pin :: Agree(c, c', o)
    ensures c'.Pinned(pins, basis) == c.Pinned(pins, basis)
  {
    SameFlags(c, c', pins);
    hide Distinct, Classifier.FlagPins, Classifier.Covered;
    assert c'.SomePinIsYours(pins) == c.SomePinIsYours(pins);
  }

  /** The owner added, where it names none the population is pinned to, is no pin's. */
  lemma UnnamedAgrees(c: Classifier, d: Declaration, pins: seq<seq<Owner>>, basis: Basis, pin: seq<Owner>, o: Owner)
    requires forall o | o in c.Pinned(pins, basis).owners :: !Names(d, o, c.facts, c.parser)
    requires pin in pins && o in pin
    ensures !Names(d, o, c.facts, c.parser)
  {
    hide Distinct, Names, Classifier.FlagPins, Classifier.Covered;
    DistinctIs(c.FlagPins(pins));
    FlagPinsHold(c, pins, c.Flag(o));
    MarkAside(d, o, c.Covered(o), c.facts, c.parser);
  }

  /** Adding an owner that is declared already, or that names no owner pinned, changes who is covered nowhere it is asked. */
  lemma AddedAgrees(c: Classifier, c': Classifier, d: Declaration, o: Owner)
    requires c' == Declaring(c, c'.declared) && (forall x :: x in c'.declared <==> x in c.declared || x == d)
    requires d in c.declared || !Names(d, o, c.facts, c.parser)
    ensures Agree(c, c', o)
  {
    hide Names;
  }

  lemma PinnedStays(c: Classifier, c': Classifier, d: Declaration, pins: seq<seq<Owner>>, basis: Basis)
    requires c' == Declaring(c, c'.declared) && (forall x :: x in c'.declared <==> x in c.declared || x == d)
    requires d in c.declared || forall o | o in c.Pinned(pins, basis).owners :: !Names(d, o, c.facts, c.parser)
    ensures c'.Pinned(pins, basis) == c.Pinned(pins, basis)
  {
    hide Names, Agree, Classifier.Pinned;
    forall pin, o | pin in pins && o in pin ensures Agree(c, c', o) {
      if d !in c.declared {
        UnnamedAgrees(c, d, pins, basis, pin, o);
      }
      AddedAgrees(c, c', d, o);
    }
    SamePinned(c, c', pins, basis);
  }

  lemma DecideStays(c: Classifier, c': Classifier, d: Declaration, r: Reading)
    requires c' == Declaring(c, c'.declared) && (forall x :: x in c'.declared <==> x in c.declared || x == d)
    requires d in c.declared || forall o | o in c.Decide(r).owners :: !Names(d, o, c.facts, c.parser)
    requires c'.RequestUnread() == c.RequestUnread()
    ensures c'.Decide(r) == c.Decide(r)
  {
    hide Names, Classifier.Pinned;
    if r.pins != [] {
      PinnedStays(c, c', d, r.pins, Confinements.Pinned);
    }
  }

  lemma ProviderStays(c: Classifier, c': Classifier, d: Declaration)
    requires c' == Declaring(c, c'.declared) && (forall x :: x in c'.declared <==> x in c.declared || x == d)
    requires d in c.declared || forall o | o in c.PlaceProvider().owners :: !Names(d, o, c.facts, c.parser)
    ensures c'.PlaceProvider() == c.PlaceProvider()
  {
    hide Names, Classifier.Covered;
    var o := c.ProviderOwner();
    MarkAside(d, o, c.Covered(o), c.facts, c.parser);
    assert c.Flag(o) in c.PlaceProvider().owners;
    AddedAgrees(c, c', d, o);
  }

  lemma TenantStays(c: Classifier, c': Classifier, d: Declaration)
    requires c' == Declaring(c, c'.declared) && (forall x :: x in c'.declared <==> x in c.declared || x == d)
    requires d in c.declared || forall o | o in c.PlaceTenant().owners :: !Names(d, o, c.facts, c.parser)
    ensures c'.PlaceTenant() == c.PlaceTenant()
  {
    hide Names, Classifier.Pinned;
    if c.facts.tenant.membership.Controlled? && c.facts.tenant.value != "" {
      PinnedStays(c, c', d, [[c.TenantOwner()]], ControlledTenant);
    }
  }

  /** An alternative is placed as before by an owner declared already, or that names none of its populations' owners. */
  lemma TermStays(c: Classifier, c': Classifier, d: Declaration, term: Term)
    requires c' == Declaring(c, c'.declared) && (forall x :: x in c'.declared <==> x in c.declared || x == d)
    requires d in c.declared || !NamesOneOf(d, c.PlaceTerm(term), c.facts, c.parser)
    ensures c'.PlaceTerm(term) == c.PlaceTerm(term)
  {
    hide Classifier.Decide, Names, AddedAll, Classifier.SharedReadings, Classifier.PrincipalReadings, IsSAMLIssuer,
      Classifier.PlaceTenant, Classifier.PlaceService, Classifier.PlaceProvider;
    SameReadings(c, c', term);
    if c.grant.issuer == "" || !c.facts.principalModelled {
    } else if IsSAMLIssuer(c.grant.issuer) {
      assert d !in c.declared ==> forall o | o in c.PlaceTerm(term)[0].owners :: !Names(d, o, c.facts, c.parser);
      ProviderStays(c, c', d);
    } else if SERVICE_PREFIX <= c.grant.issuer {
      ServiceStays(c, c');
    } else if c.grant.issuer == AWS_ISSUER {
      assert d !in c.declared ==> forall o | o in c.PlaceTerm(term)[0].owners :: !Names(d, o, c.facts, c.parser);
      DecideStays(c, c', d, AddedAll(c.PrincipalReadings(term)));
    } else {
      assert d !in c.declared ==> forall o | o in c.PlaceTerm(term)[0].owners :: !Names(d, o, c.facts, c.parser);
      OIDCStays(c, c', d, term);
    }
  }

  lemma ServiceStays(c: Classifier, c': Classifier)
    requires c' == Declaring(c, c'.declared)
    ensures c'.PlaceService() == c.PlaceService()
  {
  }

  lemma OIDCStays(c: Classifier, c': Classifier, d: Declaration, term: Term)
    requires c' == Declaring(c, c'.declared) && (forall x :: x in c'.declared <==> x in c.declared || x == d)
    requires d in c.declared || forall o | o in c.PlaceOIDC(term).owners :: !Names(d, o, c.facts, c.parser)
    requires forall t :: c'.SharedReadings(t, term) == c.SharedReadings(t, term)
    requires c'.RequestUnread() == c.RequestUnread()
    ensures c'.PlaceOIDC(term) == c.PlaceOIDC(term)
  {
    hide Classifier.Decide, Names, AddedAll, Classifier.SharedReadings, Classifier.PlaceTenant;
    if c.facts.issuerKind.PerTenant? && c.facts.anonymousTokens.No? {
      TenantStays(c, c', d);
    } else if c.facts.issuerKind.Shared? && c.facts.anonymousTokens.No? && c.facts.tenancy.Some? {
      DecideStays(c, c', d, AddedAll(c.SharedReadings(c.facts.tenancy.value, term)));
    }
  }

  lemma NamesNoneKept(c: Classifier, d: Declaration, pops: seq<Population>, kept: seq<Population>, i: nat)
    requires kept == c.KeptAll(pops, i) && !NamesOneOf(d, kept, c.facts, c.parser)
    ensures !NamesOneOf(d, pops, c.facts, c.parser)
  {
    hide Names;
    forall pop, o | pop in pops && o in pop.owners ensures !Names(d, o, c.facts, c.parser) {
      var k :| 0 <= k < |pops| && pops[k] == pop;
      assert kept[k] in kept && kept[k].owners == pop.owners;
    }
  }

  lemma SameKept(c: Classifier, c': Classifier, pops: seq<Population>, i: nat)
    requires c' == Declaring(c, c'.declared)
    ensures c'.KeptAll(pops, i) == c.KeptAll(pops, i)
  {
    assert forall pop :: c'.Kept(pop, i) == c.Kept(pop, i);
  }

  lemma {:induction false} PopulationsStay(c: Classifier, c': Classifier, d: Declaration, n: nat)
    requires n <= |c.grant.admits.terms|
    requires c' == Declaring(c, c'.declared) && (forall x :: x in c'.declared <==> x in c.declared || x == d)
    requires d in c.declared || !NamesOneOf(d, c.Populations(n), c.facts, c.parser)
    ensures c'.Populations(n) == c.Populations(n)
  {
    hide Classifier.PlaceTerm, Names, Classifier.Kept;
    if n > 0 {
      var pops := c.PlaceTerm(c.grant.admits.terms[n - 1]);
      var kept := c.KeptAll(pops, n - 1);
      if d !in c.declared {
        assert c.Populations(n) == c.Populations(n - 1) + kept;
        NamesNoneKept(c, d, pops, kept, n - 1);
      }
      PopulationsStay(c, c', d, n - 1);
      TermStays(c, c', d, c.grant.admits.terms[n - 1]);
      SameKept(c, c', pops, n - 1);
    }
  }

  // ---- moves ----

  /** A grant with the facts it is placed by. */
  datatype Placeable = Placeable(grant: Grant, facts: Facts)

  /** An owner suggested for declaring, marked where it is declared already. */
  datatype Suggestion = Suggestion(owner: Declaration, declared: bool)

  function PopulationsOf(p: Placement): seq<Population> {
    if p.Placed? then p.populations else []
  }

  function ClassifierOf(g: Placeable, declared: seq<Declaration>, parser: Parser): Classifier {
    Classifier(g.grant, g.facts, declared, parser)
  }

  /** The placement of every grant under one list of declarations. */
  function PlaceAll(grants: seq<Placeable>, declared: seq<Declaration>, parser: Parser): (placed: seq<Placement>)
    ensures |placed| == |grants|
    ensures forall i | 0 <= i < |grants| :: placed[i] == ClassifierOf(grants[i], declared, parser).Classify()
  {
    if grants == [] then [] else [ClassifierOf(grants[0], declared, parser).Classify()] + PlaceAll(grants[1..], declared, parser)
  }

  /** The second placing puts some population of the first in another place, or nowhere. */
  predicate LandsElsewhere(before: seq<Placement>, after: seq<Placement>) {
    exists i, j | 0 <= i < |before| && 0 <= j < |PopulationsOf(before[i])| ::
      !(i < |after| && j < |PopulationsOf(after[i])| && PopulationsOf(after[i])[j].place == PopulationsOf(before[i])[j].place)
  }

  /** Some grant's populations include an owner the declaration names. */
  predicate PinnedTo(d: Declaration, grants: seq<Placeable>, placed: seq<Placement>, parser: Parser)
    requires |placed| == |grants|
  {
    exists i | 0 <= i < |grants| :: NamesOneOf(d, PopulationsOf(placed[i]), grants[i].facts, parser)
  }

  method FindsOneOf(d: Declaration, pops: seq<Population>, f: Facts, parser: Parser) returns (found: bool)
    ensures found == NamesOneOf(d, pops, f, parser)
  {
    for j := 0 to |pops|
      invariant forall k, o | 0 <= k < j && o in pops[k].owners :: !Names(d, o, f, parser)
    {
      for m := 0 to |pops[j].owners|
        invariant forall k | 0 <= k < m :: !Names(d, pops[j].owners[k], f, parser)
      {
        if Names(d, pops[j].owners[m], f, parser) {
          return true;
        }
      }
    }
    return false;
  }

  method FindPinnedTo(d: Declaration, grants: seq<Placeable>, placed: seq<Placement>, parser: Parser) returns (found: bool)
    requires |placed| == |grants|
    ensures found == PinnedTo(d, grants, placed, parser)
  {
    hide NamesOneOf;
    for i := 0 to |grants|
      invariant forall k | 0 <= k < i :: !NamesOneOf(d, PopulationsOf(placed[k]), grants[k].facts, parser)
    {
      found := FindsOneOf(d, PopulationsOf(placed[i]), grants[i].facts, parser);
      if found {
        return;
      }
    }
    return false;
  }

  /** Two placings of the same grants have populations side by side. */
  ghost predicate SideBySide(before: seq<Placement>, after: seq<Placement>) {
    |after| == |before| && forall i | 0 <= i < |before| :: |PopulationsOf(after[i])| == |PopulationsOf(before[i])|
  }

  method FindElsewhere(before: seq<Placement>, after: seq<Placement>) returns (found: bool)
    requires SideBySide(before, after)
    ensures found == LandsElsewhere(before, after)
  {
    for i := 0 to |before|
      invariant forall k, j | 0 <= k < i && 0 <= j < |PopulationsOf(before[k])| ::
                  PopulationsOf(after[k])[j].place == PopulationsOf(before[k])[j].place
    {
      var was, now := PopulationsOf(before[i]), PopulationsOf(after[i]);
      for j := 0 to |was|
        invariant forall k | 0 <= k < j :: now[k].place == was[k].place
      {
        if was[j].place != now[j].place {
          return true;
        }
      }
    }
    return false;
  }

  lemma {:induction false} AsManyPopulations(c: Classifier, c': Classifier, n: nat)
    requires n <= |c.grant.admits.terms| && c' == Declaring(c, c'.declared)
    ensures |c'.Populations(n)| == |c.Populations(n)|
  {
    hide Classifier.PlaceTerm;
    if n > 0 {
      AsManyPopulations(c, c', n - 1);
      AsManyPlaces(c, c', c.grant.admits.terms[n - 1]);
    }
  }

  lemma AsManyPlaces(c: Classifier, c': Classifier, term: Term)
    requires c' == Declaring(c, c'.declared)
    ensures |c'.PlaceTerm(term)| == |c.PlaceTerm(term)|
  {
    hide Classifier.PlaceOIDC, Classifier.PlacePrincipal, Classifier.PlaceProvider, Classifier.PlaceService, IsSAMLIssuer;
  }

  lemma PlacingsAreSideBySide(grants: seq<Placeable>, declared: seq<Declaration>, more: seq<Declaration>, parser: Parser)
    ensures SideBySide(PlaceAll(grants, declared, parser), PlaceAll(grants, more, parser))
  {
    hide Classifier.Populations;
    forall i | 0 <= i < |grants|
      ensures |PopulationsOf(PlaceAll(grants, more, parser)[i])| == |PopulationsOf(PlaceAll(grants, declared, parser)[i])|
    {
      var c, c' := ClassifierOf(grants[i], declared, parser), ClassifierOf(grants[i], more, parser);
      AsManyPopulations(c, c', |c.grant.admits.terms|);
    }
  }

  /** The owners asked about whose declaring would move a population, every grant placed again for each of them. */
  function MovesBy(asked: seq<Suggestion>, grants: seq<Placeable>, declared: seq<Declaration>, recognised: seq<Declaration>,
                   parser: Parser): seq<Suggestion>
  {
    if asked == [] then []
    else
      var s := asked[|asked| - 1];
      MovesBy(asked[..|asked| - 1], grants, declared, recognised, parser)
      + if LandsElsewhere(PlaceAll(grants, declared + recognised, parser), PlaceAll(grants, declared + [s.owner] + recognised, parser))
        then [s] else []
  }

  /** The fast path is safe: an owner declared already, or that no population is pinned to, moves nothing. */
  lemma SkippedMovesNothing(d: Declaration, grants: seq<Placeable>, declared: seq<Declaration>, recognised: seq<Declaration>, parser: Parser)
    requires d in declared || !PinnedTo(d, grants, PlaceAll(grants, declared + recognised, parser), parser)
    ensures !LandsElsewhere(PlaceAll(grants, declared + recognised, parser), PlaceAll(grants, declared + [d] + recognised, parser))
  {
    hide NamesOneOf, Classifier.Populations, Outermost;
    var all, more := declared + recognised, declared + [d] + recognised;
    assert forall x :: x in more <==> x in all || x == d;
    var before, after := PlaceAll(grants, all, parser), PlaceAll(grants, more, parser);
    forall i | 0 <= i < |grants| ensures PopulationsOf(after[i]) == PopulationsOf(before[i]) {
      assert d !in all ==> !NamesOneOf(d, PopulationsOf(before[i]), grants[i].facts, parser);
      GrantStays(ClassifierOf(grants[i], all, parser), ClassifierOf(grants[i], more, parser), d);
    }
  }

  lemma GrantStays(c: Classifier, c': Classifier, d: Declaration)
    requires c' == Declaring(c, c'.declared) && (forall x :: x in c'.declared <==> x in c.declared || x == d)
    requires d in c.declared || !NamesOneOf(d, PopulationsOf(c.Classify()), c.facts, c.parser)
    ensures PopulationsOf(c'.Classify()) == PopulationsOf(c.Classify())
  {
    hide NamesOneOf, Classifier.Populations, Outermost;
    if !c.grant.effect.Deny? && !c.grant.admits.IsEmpty() {
      OutermostHolds(c.Populations(|c.grant.admits.terms|));
      OutermostHolds(c'.Populations(|c.grant.admits.terms|));
      PopulationsStay(c, c', d, |c.grant.admits.terms|);
    }
  }

  /** The suggestions that move something: only those the fast path does not rule out are tried by placing every grant again. */
  method FindMoves(asked: seq<Suggestion>, grants: seq<Placeable>, declared: seq<Declaration>, recognised: seq<Declaration>, parser: Parser)
    returns (out: seq<Suggestion>)
    requires forall s | s in asked :: s.declared <==> s.owner in declared
    ensures out == MovesBy(asked, grants, declared, recognised, parser)
  {
    hide LandsElsewhere, PinnedTo, PlaceAll;
    var placed := PlaceAll(grants, declared + recognised, parser);
    out := [];
    for n := 0 to |asked|
      invariant out == MovesBy(asked[..n], grants, declared, recognised, parser)
    {
      assert asked[..n + 1][..n] == asked[..n];
      var s := asked[n];
      var pinned := FindPinnedTo(s.owner, grants, placed, parser);
      if s.declared || !pinned {
        SkippedMovesNothing(s.owner, grants, declared, recognised, parser);
      } else {
        var again := PlaceAll(grants, declared + [s.owner] + recognised, parser);
        PlacingsAreSideBySide(grants, declared + recognised, declared + [s.owner] + recognised, parser);
        var moved := FindElsewhere(placed, again);
        if moved {
          out := out + [s];
        }
      }
    }
    assert asked[..|asked|] == asked;
  }
}

/** Placing a grant by its alternatives, and by the outermost of them (internal/ring). */
module Rings {
  import opened Strings
  import opened Sorting
  import opened StringSets
  import opened Terms
  import opened AdmittedSets
  import opened Grants
  import opened Owners
  import opened Starts
  import opened Subjects
  import opened Confinements
  import opened AwsTenants

  /** The five rings from the outermost, then the two lines beside them. */
  datatype Place = Anyone | Platform | Outsider | Yours | People | SAMLLine | ServiceLine {
    predicate IsRing() { !SAMLLine? && !ServiceLine? }

    function Rank(): (n: nat)
      ensures n < 5 <==> IsRing()
    {
      match this
      case Anyone => 0
      case Platform => 1
      case Outsider => 2
      case Yours => 3
      case People => 4
      case SAMLLine => 5
      case ServiceLine => 6
    }
  }

  datatype State = UnknownState | ExactState

  /** One alternative placed. */
  datatype Population = Population(term: nat, place: Place, state: State, basis: Basis, owners: seq<Owner>, starts: seq<string>, bounded: bool)

  function At(place: Place, state: State, basis: Basis): Population {
    Population(0, place, state, basis, [], [], false)
  }

  datatype IssuerKind = NotSurveyed | Shared | PerTenant

  datatype Membership = MembershipUnverified | Controlled | OpenToAnyone

  datatype IssuerTenant = IssuerTenant(value: string, kind: Kind, recyclable: Established, membership: Membership)

  /** Whom a statement lets in that names no issuer. */
  datatype IssuerlessPopulation = EveryIssuer | AWSServices | OwnSAMLProviders | AWSServicesAndOwnSAMLProviders

  /** The census facts a grant is placed by. */
  datatype Facts = Facts(
    issuerKind: IssuerKind,
    ns: string,
    anonymousTokens: Established,
    tenancy: Option<Tenancy>,
    tenant: IssuerTenant,
    issuerless: IssuerlessPopulation,
    principalModelled: bool)

  /** An owner the user declared as theirs. */
  datatype Declaration = Declaration(ns: string, scope: Scope, name: string, id: string, value: string)

  /** What the classifier asks of the parser's tables. */
  datatype Parser = Parser(
    mayName: (string, string, string) -> bool,
    asksNoParticularValue: Caveat -> bool,
    isIntermediary: string -> bool,
    normaliseIssuer: string -> string)

  const SERVICE_PREFIX := "aws:service:"
  const AWS_ISSUER := "aws:sts"
  const EXTERNAL_ID := "sts:externalid"

  predicate IsSAMLIssuer(issuer: string) {
    var fields := ArnFields(issuer);
    fields.Some? && fields.value[2] == "iam" && "saml-provider/" <= fields.value[5]
  }

  /** No dot stands before the key's colon, as in the keys of AWS's own request context. */
  predicate IsServiceKey(key: string) {
    Colon(key) < |key| && '.' !in key[..Colon(key)]
  }

  function LowerASCII(s: string): string {
    if s == "" then "" else [if 'A' <= s[0] <= 'Z' then (s[0] as int + 32) as char else s[0]] + LowerASCII(s[1..])
  }

  // ---- Declarations ----

  /** Declaration.covers, under the case rule and the issuer normalisation given. */
  predicate Names(d: Declaration, o: Owner, f: Facts, parser: Parser) {
    if o.ns == "" || d.ns != o.ns || d.scope != o.scope then false
    else if d.ns == "github" && o.kind.NameKind? then
      d.name != "" && (d.name == o.value || (f.tenancy.Some? && f.tenancy.value.namesIgnoreCase && LowerASCII(d.name) == LowerASCII(o.value)))
    else if d.ns == "github" then d.id != "" && d.id == o.value
    else if d.ns == "issuer" then d.value == parser.normaliseIssuer(o.issuer)
    else d.value == o.value
  }

  // ---- The classifier ----

  /** The constraints of one alternative: the pins, and whether one that could pin went unread. */
  datatype Reading = Reading(pins: seq<seq<Owner>>, unread: bool, doubt: Basis, starts: seq<string>, bounded: bool)

  const NO_READING := Reading([], false, IssuerNotSurveyed, [], false)

  /** One more constraint read. The first doubt stays, unless the later one is that the census records no tenancy. */
  function Added(r: Reading, c: Confinement): Reading {
    var r' := r.(bounded := r.bounded || c.bounded);
    if c.owners != [] then r'.(pins := r.pins + [c.owners])
    else if c.unread && (!r.unread || c.doubt == TenancyNotRecorded) then r'.(unread := true, doubt := c.doubt)
    else if c.starts != [] then r'.(starts := c.starts)
    else r'
  }

  function AddedAll(cs: seq<Confinement>): Reading {
    if cs == [] then NO_READING else Added(AddedAll(cs[..|cs| - 1]), cs[|cs| - 1])
  }

  /** The reading as the classifier keeps it: fields that add updates. */
  class Reader {
    var pins: seq<seq<Owner>>
    var unread: bool
    var doubt: Basis
    var starts: seq<string>
    var bounded: bool

    function Value(): Reading
      reads this
    {
      Reading(pins, unread, doubt, starts, bounded)
    }

    constructor ()
      ensures Value() == NO_READING
    {
      pins, unread, doubt, starts, bounded := [], false, IssuerNotSurveyed, [], false;
    }

    method Add(c: Confinement)
      modifies this
      ensures Value() == Added(old(Value()), c)
    {
      bounded := bounded || c.bounded;
      if c.owners != [] {
        pins := pins + [c.owners];
      } else if c.unread && (!unread || c.doubt == TenancyNotRecorded) {
        unread, doubt := true, c.doubt;
      } else if c.starts != [] {
        starts := c.starts;
      }
    }

    method AddAll(cs: seq<Confinement>)
      requires Value() == NO_READING
      modifies this
      ensures Value() == AddedAll(cs)
    {
      for i := 0 to |cs|
        invariant Value() == AddedAll(cs[..i])
      {
        assert cs[..i + 1][..i] == cs[..i];
        Add(cs[i]);
      }
      assert cs[..|cs|] == cs;
    }
  }

  function PinsOf(cs: seq<Confinement>): seq<seq<Owner>> {
    if cs == [] then []
    else PinsOf(cs[..|cs| - 1]) + if cs[|cs| - 1].owners != [] then [cs[|cs| - 1].owners] else []
  }

  /** What the readings say together: every pin, and a doubt where one could not be read, the census's first. */
  lemma AddedAllIs(cs: seq<Confinement>)
    ensures AddedAll(cs).pins == PinsOf(cs)
    ensures AddedAll(cs).unread <==> exists c | c in cs :: c.owners == [] && c.unread
    ensures AddedAll(cs).bounded <==> exists c | c in cs :: c.bounded
    ensures (exists c | c in cs :: c.owners == [] && c.unread && c.doubt == TenancyNotRecorded) ==> AddedAll(cs).doubt == TenancyNotRecorded
  {
    hide AddedAll, PinsOf;
    PinsAdded(cs);
    DoubtAdded(cs);
  }

  lemma {:induction false} PinsAdded(cs: seq<Confinement>)
    ensures AddedAll(cs).pins == PinsOf(cs)
    ensures AddedAll(cs).bounded <==> exists c | c in cs :: c.bounded
  {
    if cs != [] {
      var front, last := cs[..|cs| - 1], cs[|cs| - 1];
      PinsAdded(front);
      LastIsIn(cs);
      assert AddedAll(cs) == Added(AddedAll(front), last);
      hide AddedAll;
    }
  }

  lemma {:induction false} DoubtAdded(cs: seq<Confinement>)
    ensures AddedAll(cs).unread <==> exists c | c in cs :: c.owners == [] && c.unread
    ensures (exists c | c in cs :: c.owners == [] && c.unread && c.doubt == TenancyNotRecorded) ==> AddedAll(cs).doubt == TenancyNotRecorded
  {
    if cs != [] {
      var front, last := cs[..|cs| - 1], cs[|cs| - 1];
      DoubtAdded(front);
      LastIsIn(cs);
      assert AddedAll(cs) == Added(AddedAll(front), last);
      hide AddedAll;
    }
  }

  lemma LastIsIn(cs: seq<Confinement>)
    requires cs != []
    ensures forall c :: c in cs <==> c in cs[..|cs| - 1] || c == cs[|cs| - 1]
  {
    assert cs == cs[..|cs| - 1] + [cs[|cs| - 1]];
  }

  /** A tenancy claim's value taken for an owner, unless it is empty or the verified characters rule it out as a name. */
  function ClaimOwners(iss: Issuer, t: Tenancy, claim: TenancyClaim, v: string): seq<Owner> {
    if v == "" || (claim.scope.OwnerScope? && t.ownerCharacters != [] && t.OwnerRun(v) != v) then []
    else [Owner(iss.name, iss.ns, claim.scope, claim.kind, v, "", claim.recyclable != No, false)]
  }

  function ClaimValues(iss: Issuer, t: Tenancy, claim: TenancyClaim): ValueReader {
    v => Belonging(ClaimOwners(iss, t, claim, v))
  }

  /** A pattern on a claim pins nothing, and on a repository's name, which may lead with its owner's, is not read. */
  function ClaimPrefixes(claim: TenancyClaim): PrefixReader {
    if claim.scope.RepositoryScope? && claim.kind.NameKind? then None else Some(_ => [])
  }

  datatype Classifier = Classifier(grant: Grant, facts: Facts, declared: seq<Declaration>, parser: Parser) {
    /** Some declaration names o. */
    predicate Covered(o: Owner) {
      exists d | d in declared :: Names(d, o, facts, parser)
    }

    function Iss(): Issuer { Issuer(grant.issuer, facts.ns) }

    /** Some caveat is the grant's own, or may be about the claim. */
    predicate WidenedOn(claim: string) {
      exists cv | cv in grant.admits.caveats :: cv.claim == "" || parser.mayName(cv.claim, grant.issuer, claim)
    }

    /** Some caveat is on a request key, other than an external ID asked for no value in particular. */
    predicate RequestUnread() {
      exists cv | cv in grant.admits.caveats ::
        IsServiceKey(cv.claim) && !(cv.claim == EXTERNAL_ID && parser.asksNoParticularValue(cv))
    }

    function Flag(o: Owner): Owner { o.(declared := Covered(o)) }

    function FlagAll(pin: seq<Owner>): (flagged: seq<Owner>)
      ensures |flagged| == |pin| && forall i | 0 <= i < |pin| :: flagged[i] == Flag(pin[i])
    {
      if pin == [] then [] else [Flag(pin[0])] + FlagAll(pin[1..])
    }

    function FlagPins(pins: seq<seq<Owner>>): seq<Owner> {
      if pins == [] then [] else FlagAll(pins[0]) + FlagPins(pins[1..])
    }

    /** Some pin's owners are all declared. */
    predicate SomePinIsYours(pins: seq<seq<Owner>>) {
      exists pin | pin in pins :: forall o | o in pin :: Covered(o)
    }

    /** Where pins put an alternative: one pin of yours alone settles that it is yours. */
    function Pinned(pins: seq<seq<Owner>>, basis: Basis): Population {
      At(if SomePinIsYours(pins) then Yours else Outsider, ExactState, basis).(owners := Distinct(FlagPins(pins)))
    }

    function BoundedIn(r: Reading, pop: Population): Population {
      if r.bounded then pop.(state := UnknownState, bounded := true) else pop
    }

    function Decide(r: Reading): Population {
      if r.pins != [] then BoundedIn(r, Pinned(r.pins, Confinements.Pinned))
      else if r.unread then At(Platform, UnknownState, r.doubt)
      else if RequestUnread() then At(Platform, UnknownState, UnreadConstraint)
      else BoundedIn(r, At(Platform, ExactState, Unpinned).(starts := r.starts))
    }

    // ---- A shared issuer ----

    function ClaimReading(t: Tenancy, claim: TenancyClaim, term: Term): Confinement {
      Confine(term, claim.claim, ClaimValues(Iss(), t, claim), ClaimPrefixes(claim), WidenedOn(claim.claim))
    }

    predicate IsRead(t: Tenancy, claim: TenancyClaim) {
      !claim.scope.NoScope? && !NamesNoTenant(t, claim.claim)
    }

    /** The first n tenancy claims read. */
    function ClaimReadings(t: Tenancy, term: Term, n: nat): seq<Confinement>
      requires n <= |t.claims|
    {
      if n == 0 then []
      else ClaimReadings(t, term, n - 1) + if IsRead(t, t.claims[n - 1]) then [ClaimReading(t, t.claims[n - 1], term)] else []
    }

    function SubjectReading(t: Tenancy, term: Term): Confinement {
      Subject(Iss(), t, term, WidenedOn(SUBJECT))
    }

    function SharedReadings(t: Tenancy, term: Term): seq<Confinement> {
      ClaimReadings(t, term, |t.claims|) + [SubjectReading(t, term)]
    }

    function PlaceShared(term: Term): Population {
      if facts.tenancy.None? then At(Platform, UnknownState, TenancyNotRecorded)
      else Decide(AddedAll(SharedReadings(facts.tenancy.value, term)))
    }

    // ---- An AWS principal ----

    function TenantReading(term: Term, claim: string): Confinement {
      Confine(term, claim, TenantValues(grant.issuer, claim), TenantPrefixes(grant.issuer, claim), WidenedOn(claim))
    }

    function PrincipalReadings(term: Term): seq<Confinement> {
      [TenantReading(term, ACCOUNT_CLAIM), TenantReading(term, ARN_CLAIM), TenantReading(term, ORG_CLAIM)]
    }

    function PlacePrincipal(term: Term): Population {
      Decide(AddedAll(PrincipalReadings(term)))
    }

    // ---- Every other principal ----

    function TenantOwner(): Owner {
      var t := facts.tenant;
      Owner(grant.issuer, "issuer", TenantScope, t.kind, t.value, "", t.recyclable != No, false)
    }

    function PlaceTenant(): Population {
      var t := facts.tenant;
      if t.membership.OpenToAnyone? then At(Platform, ExactState, OpenTenant)
      else if t.membership != Controlled || t.value == "" then At(Platform, UnknownState, MembershipNotVerified)
      else Pinned([[TenantOwner()]], ControlledTenant)
    }

    function PlaceOIDC(term: Term): Population {
      if facts.issuerKind.NotSurveyed? then At(Anyone, UnknownState, IssuerNotSurveyed)
      else if facts.anonymousTokens.Yes? then At(Anyone, UnknownState, TokensWithoutAccount)
      else if !facts.anonymousTokens.No? then At(Anyone, UnknownState, AccountNotVerified)
      else if facts.issuerKind.PerTenant? then PlaceTenant()
      else PlaceShared(term)
    }

    function ProviderOwner(): Owner {
      Owner(grant.issuer, "saml", ProviderScope, NameKind, grant.issuer, "", true, false)
    }

    function PlaceProvider(): Population {
      At(if Covered(ProviderOwner()) then People else SAMLLine, UnknownState, SAMLProvider).(owners := [Flag(ProviderOwner())])
    }

    function PlaceService(): Population {
      var service := if SERVICE_PREFIX <= grant.issuer then grant.issuer[|SERVICE_PREFIX|..] else grant.issuer;
      At(ServiceLine, UnknownState, if parser.isIntermediary(service) then ServiceIntermediary else ServicePrincipal)
    }

    function PlaceIssuerless(): seq<Population> {
      match facts.issuerless
      case AWSServices => [At(ServiceLine, UnknownState, AnyService)]
      case OwnSAMLProviders => [At(SAMLLine, UnknownState, AccountSAMLProviders)]
      case AWSServicesAndOwnSAMLProviders =>
        [At(SAMLLine, UnknownState, AccountSAMLProviders), At(ServiceLine, UnknownState, AnyService)]
      case EveryIssuer => [At(Anyone, UnknownState, AnyIssuer)]
    }

    /** Every place one alternative lands, by the kind of its principal. */
    function PlaceTerm(term: Term): (pops: seq<Population>)
      ensures pops != []
    {
      var issuer := grant.issuer;
      if !facts.principalModelled then [At(Anyone, UnknownState, PrincipalNotModelled)]
      else if issuer == "" then PlaceIssuerless()
      else if IsSAMLIssuer(issuer) then [PlaceProvider()]
      else if SERVICE_PREFIX <= issuer then [PlaceService()]
      else if issuer == AWS_ISSUER then [PlacePrincipal(term)]
      else [PlaceOIDC(term)]
    }

    /** A population as Classify keeps it: with its alternative's index, and never exact where the effect is unread. */
    function Kept(pop: Population, i: nat): Population {
      pop.(term := i, state := if grant.effect.EffectUnread? then UnknownState else pop.state)
    }

    function KeptAll(pops: seq<Population>, i: nat): (kept: seq<Population>)
      ensures |kept| == |pops| && forall k | 0 <= k < |pops| :: kept[k] == Kept(pops[k], i)
    {
      if pops == [] then [] else [Kept(pops[0], i)] + KeptAll(pops[1..], i)
    }

    /** The populations of the first n alternatives. */
    function Populations(n: nat): seq<Population>
      requires n <= |grant.admits.terms|
    {
      if n == 0 then [] else Populations(n - 1) + KeptAll(PlaceTerm(grant.admits.terms[n - 1]), n - 1)
    }

    function Classify(): Placement {
      if grant.effect.Deny? then Refused
      else if grant.admits.IsEmpty() then Nobody
      else Outermost(Populations(|grant.admits.terms|))
    }
  }

  /** The census rules the claim out as a tenant's, by its name or by the beginning of it. */
  predicate NamesNoTenant(t: Tenancy, claim: string) {
    exists listed | listed in t.notTenancy ::
      listed == claim || (listed != "" && listed[|listed| - 1] == '*' && listed[..|listed| - 1] <= claim)
  }

  // ---- Where a grant lands ----

  datatype Placement = Refused | Nobody | Placed(places: seq<Place>, state: State, owners: seq<Owner>, populations: seq<Population>)

  /** The outermost ring a population reaches, if any reaches one. */
  function OutermostRing(pops: seq<Population>): Option<Place> {
    if pops == [] then None
    else
      var ring, p := OutermostRing(pops[..|pops| - 1]), pops[|pops| - 1].place;
      if p.IsRing() && (ring.None? || p.Rank() < ring.value.Rank()) then Some(p) else ring
  }

  predicate Reaches(pops: seq<Population>, place: Place) {
    exists pop | pop in pops :: pop.place == place
  }

  predicate ReachesExactly(pops: seq<Population>, place: Place) {
    exists pop | pop in pops :: pop.place == place && pop.state.ExactState?
  }

  function Named(pops: seq<Population>): seq<Place> {
    (if OutermostRing(pops).Some? then [OutermostRing(pops).value] else [])
    + (if Reaches(pops, SAMLLine) then [SAMLLine] else [])
    + (if Reaches(pops, ServiceLine) then [ServiceLine] else [])
  }

  function OwnersAt(pops: seq<Population>, places: seq<Place>): seq<Owner> {
    if pops == [] then []
    else OwnersAt(pops[..|pops| - 1], places) + if pops[|pops| - 1].place in places then pops[|pops| - 1].owners else []
  }

  function Outermost(pops: seq<Population>): Placement {
    var named := Named(pops);
    Placed(named, if forall p | p in named :: ReachesExactly(pops, p) then ExactState else UnknownState, Distinct(OwnersAt(pops, named)), pops)
  }

  method FindOutermost(pops: seq<Population>) returns (placement: Placement)
    ensures placement == Outermost(pops)
  {
    hide Distinct, Reaches, ReachesExactly, OwnersAt;
    var ring := None;
    for i := 0 to |pops|
      invariant ring == OutermostRing(pops[..i])
    {
      assert pops[..i + 1][..i] == pops[..i];
      if pops[i].place.IsRing() && (ring.None? || pops[i].place.Rank() < ring.value.Rank()) {
        ring := Some(pops[i].place);
      }
    }
    assert pops[..|pops|] == pops;
    var named := if ring.Some? then [ring.value] else [];
    var saml := AnyAt(pops, SAMLLine, false);
    if saml {
      named := named + [SAMLLine];
    }
    var service := AnyAt(pops, ServiceLine, false);
    if service {
      named := named + [ServiceLine];
    }
    assert named == Named(pops);
    var state := ExactState;
    for k := 0 to |named|
      invariant state.ExactState? <==> forall j | 0 <= j < k :: ReachesExactly(pops, named[j])
    {
      var shown := AnyAt(pops, named[k], true);
      if !shown {
        state := UnknownState;
      }
    }
    var owners := GatherOwners(pops, named);
    return Placed(named, state, owners, pops);
  }

  method GatherOwners(pops: seq<Population>, named: seq<Place>) returns (distinct: seq<Owner>)
    ensures distinct == Distinct(OwnersAt(pops, named))
  {
    hide Distinct;
    var owners := [];
    for i := 0 to |pops|
      invariant owners == OwnersAt(pops[..i], named)
    {
      assert pops[..i + 1][..i] == pops[..i];
      if pops[i].place in named {
        owners := owners + pops[i].owners;
      }
    }
    assert pops[..|pops|] == pops;
    var a := new Owner[|owners|](k requires 0 <= k < |owners| => owners[k]);
    assert a[..] == owners;
    var n := DistinctInPlace(a);
    return a[..n];
  }

  method AnyAt(pops: seq<Population>, place: Place, exactly: bool) returns (found: bool)
    ensures found == if exactly then ReachesExactly(pops, place) else Reaches(pops, place)
  {
    for i := 0 to |pops|
      invariant forall k | 0 <= k < i :: pops[k].place == place ==> exactly && pops[k].state.UnknownState?
    {
      if pops[i].place == place && (!exactly || pops[i].state.ExactState?) {
        return true;
      }
    }
    return false;
  }

  /** The ring a grant lands in is the outermost its populations reach: one does, and none reaches farther out. */
  lemma {:induction false} OutermostRingIs(pops: seq<Population>)
    ensures OutermostRing(pops).Some? <==> exists pop | pop in pops :: pop.place.IsRing()
    ensures OutermostRing(pops).Some? ==> OutermostRing(pops).value.IsRing() && Reaches(pops, OutermostRing(pops).value)
    ensures OutermostRing(pops).Some? ==> forall pop | pop in pops && pop.place.IsRing() :: OutermostRing(pops).value.Rank() <= pop.place.Rank()
  {
    if pops != [] {
      var front, last := pops[..|pops| - 1], pops[|pops| - 1];
      OutermostRingIs(front);
      assert pops == front + [last];
      assert forall pop :: pop in pops <==> pop in front || pop == last;
    }
  }

  /** A place is named for a grant exactly when a population reaches it and, of the rings, it is the farthest out. */
  lemma NamedIs(pops: seq<Population>, place: Place)
    ensures place in Named(pops) <==>
              && Reaches(pops, place)
              && (place.IsRing() ==> forall pop | pop in pops && pop.place.IsRing() :: place.Rank() <= pop.place.Rank())
  {
    OutermostRingIs(pops);
    hide OutermostRing;
    if place.IsRing() && Reaches(pops, place) {
      var pop :| pop in pops && pop.place == place;
      if forall other | other in pops && other.place.IsRing() :: place.Rank() <= other.place.Rank() {
        SameRank(place, OutermostRing(pops).value);
      }
    }
  }

  lemma SameRank(a: Place, b: Place)
    ensures a.Rank() == b.Rank() ==> a == b
  {
  }

  // ---- What a pin promises of every token ----

  /** A constraint that pins is on a claim every admitted token carries, and its owners hold of the claim's value. */
  lemma ConfineIsSound(term: Term, claim: string, value: ValueReader, prefix: PrefixReader, widened: bool,
                       belongs: (seq<Owner>, string) -> bool, token: Token)
    requires Widens(belongs) && ReadsValues(value, belongs) && ReadsPrefixes(prefix, belongs)
    requires Satisfies(term, token) && Confine(term, claim, value, prefix, widened).owners != []
    ensures claim in token && belongs(Confine(term, claim, value, prefix, widened).owners, token[claim])
  {
    hide Widens, ReadsValues, ReadsPrefixes;
    assert Meets(term[claim], claim, token);
    if claim in token {
      ConfineShapeIsSound(term[claim], value, prefix, belongs, token[claim]);
    }
  }

  /** A tenancy claim's value is the owner. */
  predicate ClaimBelongs(claim: TenancyClaim, owners: seq<Owner>, v: string) {
    exists o | o in owners :: o.value == v && o.scope == claim.scope && o.kind == claim.kind
  }

  /** A token of a shared issuer belongs to the owners by a tenancy claim that is read, or by its subject. */
  ghost predicate TokenBelongs(c: Classifier, t: Tenancy, owners: seq<Owner>, token: Token) {
    || (exists claim | claim in t.claims :: c.IsRead(t, claim) && claim.claim in token && ClaimBelongs(claim, owners, token[claim.claim]))
    || (SUBJECT in token && SubjectBelongs(c.Iss(), t, owners, token[SUBJECT]))
  }

  /** A token of an AWS principal belongs to the owners by the account or the organisation one of its claims names. */
  predicate PrincipalBelongs(c: Classifier, owners: seq<Owner>, token: Token) {
    exists claim | claim in TENANCY_CLAIMS :: claim in token && TenantBelongs(c.grant.issuer, claim, owners, token[claim])
  }

  lemma ClaimReadingIsSound(c: Classifier, t: Tenancy, claim: TenancyClaim, term: Term, token: Token)
    requires Satisfies(term, token) && claim in t.claims && c.IsRead(t, claim) && c.ClaimReading(t, claim, term).owners != []
    ensures TokenBelongs(c, t, c.ClaimReading(t, claim, term).owners, token)
  {
    hide ConfineShape, SubjectBelongs;
    var belongs := (owners: seq<Owner>, v: string) => ClaimBelongs(claim, owners, v);
    ConfineIsSound(term, claim.claim, ClaimValues(c.Iss(), t, claim), ClaimPrefixes(claim), c.WidenedOn(claim.claim), belongs, token);
  }

  lemma SubjectReadingIsSound(c: Classifier, t: Tenancy, term: Term, token: Token)
    requires Satisfies(term, token) && c.SubjectReading(t, term).owners != []
    ensures TokenBelongs(c, t, c.SubjectReading(t, term).owners, token)
  {
    hide ConfineShape, SubjectBelongs, OwnerStarts;
    SubjectBelongsToMore(c.Iss(), t);
    SubjectValuesAreSound(c.Iss(), t);
    var belongs := (owners: seq<Owner>, v: string) => SubjectBelongs(c.Iss(), t, owners, v);
    ConfineIsSound(term, SUBJECT, SubjectValues(c.Iss(), t), SubjectPrefixes(c.Iss(), t), c.WidenedOn(SUBJECT), belongs, token);
  }

  lemma TenantReadingIsSound(c: Classifier, term: Term, claim: string, token: Token)
    requires Satisfies(term, token) && c.TenantReading(term, claim).owners != []
    ensures claim in token && TenantBelongs(c.grant.issuer, claim, c.TenantReading(term, claim).owners, token[claim])
  {
    hide ConfineShape, TenantBelongs;
    TenantReadersAreSound(c.grant.issuer, claim);
    var belongs := (owners: seq<Owner>, v: string) => TenantBelongs(c.grant.issuer, claim, owners, v);
    ConfineIsSound(term, claim, TenantValues(c.grant.issuer, claim), TenantPrefixes(c.grant.issuer, claim), c.WidenedOn(claim), belongs, token);
  }

  lemma {:induction false} PinsComeFrom(cs: seq<Confinement>, pin: seq<Owner>)
    ensures pin in PinsOf(cs) <==> pin != [] && exists c | c in cs :: c.owners == pin
  {
    if cs != [] {
      var front, last := cs[..|cs| - 1], cs[|cs| - 1];
      PinsComeFrom(front, pin);
      assert cs == front + [last];
      assert forall c :: c in cs <==> c in front || c == last;
    }
  }

  lemma {:induction false} ClaimReadingsAre(c: Classifier, t: Tenancy, term: Term, n: nat, r: Confinement)
    requires n <= |t.claims| && r in c.ClaimReadings(t, term, n)
    ensures exists claim | claim in t.claims :: c.IsRead(t, claim) && r == c.ClaimReading(t, claim, term)
  {
    hide Classifier.ClaimReading, Classifier.IsRead;
    if r !in c.ClaimReadings(t, term, n - 1) {
      assert t.claims[n - 1] in t.claims;
    } else {
      ClaimReadingsAre(c, t, term, n - 1, r);
    }
  }

  /** Every pin of a shared issuer's alternative holds every token the alternative admits. */
  lemma SharedPinsHold(c: Classifier, t: Tenancy, term: Term, token: Token, pin: seq<Owner>)
    requires Satisfies(term, token) && pin in AddedAll(c.SharedReadings(t, term)).pins
    ensures TokenBelongs(c, t, pin, token)
  {
    hide TokenBelongs, Classifier.ClaimReading, Classifier.SubjectReading, Added, Classifier.ClaimReadings, PinsOf, AddedAll, Classifier.IsRead;
    var cs := c.SharedReadings(t, term);
    AddedAllIs(cs);
    PinsComeFrom(cs, pin);
    var r :| r in cs && r.owners == pin;
    if r in c.ClaimReadings(t, term, |t.claims|) {
      ClaimReadingsAre(c, t, term, |t.claims|, r);
      var claim :| claim in t.claims && c.IsRead(t, claim) && r == c.ClaimReading(t, claim, term);
      ClaimReadingIsSound(c, t, claim, term, token);
    } else {
      SubjectReadingIsSound(c, t, term, token);
    }
  }

  lemma PrincipalPinsHold(c: Classifier, term: Term, token: Token, pin: seq<Owner>)
    requires Satisfies(term, token) && pin in AddedAll(c.PrincipalReadings(term)).pins
    ensures PrincipalBelongs(c, pin, token)
  {
    hide Classifier.TenantReading, Added, PinsOf, AddedAll, TenantBelongs;
    var cs := c.PrincipalReadings(term);
    AddedAllIs(cs);
    PinsComeFrom(cs, pin);
    var r :| r in cs && r.owners == pin;
    var claim :| claim in TENANCY_CLAIMS && r == c.TenantReading(term, claim);
    TenantReadingIsSound(c, term, claim, token);
  }
}

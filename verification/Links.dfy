/** The fan-out between two grants, and what keeps it from being established (internal/join/link.go). */
module Links {
  import opened Strings
  import opened Sorting
  import opened StringSets
  import opened Lattice
  import opened Terms
  import opened AdmittedSets
  import opened Grants
  import Witnesses

  // ---- Names, issuers and evidence ----

  /** A character that prints as nothing: a control, or a space. */
  predicate PrintsAsNothing(c: char) {
    c as int < 0x21 || 0x7F <= c as int <= 0xA0 || c as int == 0x1680 || 0x2000 <= c as int <= 0x200A
    || c as int in {0x2028, 0x2029, 0x202F, 0x205F, 0x3000}
  }

  predicate Blank(name: string) {
    forall c | c in name :: PrintsAsNothing(c)
  }

  predicate MayShareIssuer(x: string, y: string) {
    Blank(x) || Blank(y) || x == y
  }

  function IssuerOf(a: Grant, b: Grant): string {
    if !Blank(a.issuer) then a.issuer else if !Blank(b.issuer) then b.issuer else ""
  }

  predicate Malformed(r: Record) {
    Blank(r.api) || Blank(r.status)
  }

  predicate Conclusive(r: Record) {
    r.status == "ok" || r.status == "not_configured"
  }

  predicate Doubtful(r: Record) {
    Malformed(r) || !Conclusive(r)
  }

  /** compareGrants is 0: nothing a link reads tells the two apart. */
  predicate SameGrant(x: Grant, y: Grant) {
    x.target == y.target && x.issuer == y.issuer && x.effect == y.effect && RenderAlike(x.admits, y.admits)
    && (forall r | r in x.provenance :: r in y.provenance) && forall r | r in y.provenance :: r in x.provenance
  }

  predicate RenderAlike(x: AdmittedSet, y: AdmittedSet) {
    x.caveats == y.caveats && |x.terms| == |y.terms|
    && forall i | 0 <= i < |x.terms| :: RenderTerm(x.terms[i]) == RenderTerm(y.terms[i])
  }

  // ---- Refusals and doubts ----

  /** Why a pair is not a fan-out. */
  datatype Refusal = NoTarget | SameTarget | DifferentIssuers | DenySide | NoEvidence | MalformedEvidence | Disjoint

  /** What keeps a pair from being established. */
  datatype Doubt =
    | IssuerNotNamed(target: TargetRef)
    | EffectNotRead(target: TargetRef)
    | UpperBound(target: TargetRef)
    | NotEvaluated(target: TargetRef, claim: string)
    | Evidence(target: TargetRef, record: Record)
    | MayDeny(target: TargetRef, denial: Grant)
    | OverlapWidened(caveat: Caveat)
    | NoExample

  datatype Confidence = Established | Indeterminate

  datatype Link = Link(issuer: string, overlap: AdmittedSet, example: Option<Token>, confidence: Confidence, doubts: seq<Doubt>)

  datatype Outcome = Linked(link: Link) | Refused(why: Refusal)

  predicate Evidenced(g: Grant) {
    exists r | r in g.provenance :: !Malformed(r)
  }

  function Pairable(a: Grant, b: Grant): Option<Refusal> {
    if Blank(a.target.id) || Blank(b.target.id) then Some(NoTarget)
    else if a.target == b.target then Some(SameTarget)
    else if !MayShareIssuer(a.issuer, b.issuer) then Some(DifferentIssuers)
    else if a.effect == Deny || b.effect == Deny then Some(DenySide)
    else if a.provenance == [] then Some(NoEvidence)
    else if !Evidenced(a) then Some(MalformedEvidence)
    else if b.provenance == [] then Some(NoEvidence)
    else if !Evidenced(b) then Some(MalformedEvidence)
    else None
  }

  method RecordDoubts(g: Grant) returns (doubts: seq<Doubt>)
    ensures doubts == [] <==> forall r | r in g.provenance :: !Doubtful(r)
  {
    doubts := [];
    for i := 0 to |g.provenance|
      invariant doubts == [] <==> forall j | 0 <= j < i :: !Doubtful(g.provenance[j])
    {
      if Doubtful(g.provenance[i]) {
        doubts := doubts + [Evidence(g.target, g.provenance[i])];
      }
    }
  }

  /** A claim left Unknown that no caveat declares. */
  predicate Undeclared(g: Grant, t: Term, k: string) {
    k in t && t[k].Unknown? && forall c | c in g.admits.caveats :: c.claim != k
  }

  predicate AllDeclared(g: Grant, t: Term) {
    forall k | k in t :: !Undeclared(g, t, k)
  }

  method UndeclaredIn(g: Grant, t: Term) returns (doubts: seq<Doubt>)
    ensures doubts == [] <==> AllDeclared(g, t)
  {
    hide SortedKeys, Undeclared, Ascending;
    doubts := [];
    var claims := SortedKeys(t.Keys);
    for n := 0 to |claims|
      invariant doubts == [] <==> forall m | 0 <= m < n :: !Undeclared(g, t, claims[m])
    {
      if Undeclared(g, t, claims[n]) {
        doubts := doubts + [NotEvaluated(g.target, claims[n])];
      }
    }
    assert forall k :: k in t <==> k in claims;
  }

  method UndeclaredUnknowns(g: Grant) returns (doubts: seq<Doubt>)
    ensures doubts == [] <==> forall t | t in g.admits.terms :: AllDeclared(g, t)
  {
    hide AllDeclared;
    doubts := [];
    for i := 0 to |g.admits.terms|
      invariant doubts == [] <==> forall j | 0 <= j < i :: AllDeclared(g, g.admits.terms[j])
    {
      var more := UndeclaredIn(g, g.admits.terms[i]);
      doubts := doubts + more;
    }
  }

  /** One side says nothing doubtful: it names its issuer, is an Allow, is exact and wholly read, on conclusive evidence. */
  ghost predicate Undoubted(g: Grant) {
    !Blank(g.issuer) && g.effect == Allow && g.admits.IsExact()
    && (forall t: Term, k | t in g.admits.terms && k in t :: !t[k].Unknown?)
    && forall r | r in g.provenance :: !Malformed(r) && Conclusive(r)
  }

  method DoubtsAbout(g: Grant) returns (doubts: seq<Doubt>)
    ensures doubts == [] <==> Undoubted(g)
  {
    doubts := [];
    if Blank(g.issuer) {
      doubts := doubts + [IssuerNotNamed(g.target)];
    }
    if g.effect != Allow {
      doubts := doubts + [EffectNotRead(g.target)];
    }
    if |g.admits.caveats| > 0 {
      doubts := doubts + [UpperBound(g.target)];
    }
    var unknowns := UndeclaredUnknowns(g);
    var records := RecordDoubts(g);
    doubts := doubts + unknowns + records;
    if g.admits.IsExact() {
      assert forall t: Term, k | t in g.admits.terms && k in t :: Undeclared(g, t, k) <==> t[k].Unknown?;
    }
  }

  // ---- Denials ----

  ghost predicate Readable(g: Grant) {
    g.admits.Canonical()
  }

  /** Another statement on the side's target that may deny, its issuer the pair's or not known. */
  predicate Counts(d: Grant, side: Grant, issuer: string) {
    d.effect != Allow && d.target == side.target && MayShareIssuer(d.issuer, issuer) && !SameGrant(d, side)
  }

  /** The statement names no token of the side whose identity the overlap admits. */
  ghost predicate Misses(d: Grant, side: Grant, overlap: AdmittedSet) {
    forall token: Token :: !(d.admits.Admits(token) && side.admits.Admits(token) && overlap.Admits(token))
  }

  /** The meet of the statement, the side and the overlap is provably empty. */
  ghost predicate ProvablyMisses(d: Grant, side: Grant, overlap: AdmittedSet) {
    Readable(d) && Readable(side) && overlap.Canonical()
    && var both := MeetSets(d.admits, side.admits); both.Canonical() && MeetSets(both, overlap).IsEmpty()
  }

  /** An empty meet means no token is in all three, where the meet of the first two loses nothing. */
  lemma ProvablyMissesIsSound(d: Grant, side: Grant, overlap: AdmittedSet)
    requires ProvablyMisses(d, side, overlap) && LosesNothing(Product(d.admits, side.admits))
    ensures Misses(d, side, overlap)
  {
    forall token: Token ensures !(d.admits.Admits(token) && side.admits.Admits(token) && overlap.Admits(token)) {
      MeetSetsIsExact(d.admits, side.admits, token);
      MeetSetsIsExact(MeetSets(d.admits, side.admits), overlap, token);
    }
  }

  /** A statement that may deny but cannot touch the overlap: read exactly, on conclusive evidence, and provably missing it. */
  ghost predicate Harmless(d: Grant, side: Grant, overlap: AdmittedSet) {
    d.admits.IsExact() && d.provenance != [] && (forall r | r in d.provenance :: !Doubtful(r))
    && ProvablyMisses(d, side, overlap)
  }

  ghost predicate NoneMayDeny(side: Grant, issuer: string, overlap: AdmittedSet, denials: seq<Grant>) {
    forall d | d in denials && Counts(d, side, issuer) :: Harmless(d, side, overlap)
  }

  method IsHarmless(d: Grant, side: Grant, overlap: AdmittedSet) returns (harmless: bool)
    requires Readable(d) && Readable(side) && overlap.Canonical()
    ensures harmless <==> Harmless(d, side, overlap)
  {
    var doubts := RecordDoubts(d);
    if |d.admits.caveats| > 0 || |d.provenance| == 0 || |doubts| > 0 {
      return false;
    }
    MeetSetsIsExact(d.admits, side.admits, map[]);
    var both := BuildMeet(d.admits, side.admits);
    var reach := BuildMeet(both, overlap);
    return reach.IsEmpty();
  }

  method DenialsAgainst(side: Grant, issuer: string, overlap: AdmittedSet, denials: seq<Grant>) returns (counted: seq<Doubt>)
    requires Readable(side) && overlap.Canonical() && forall d | d in denials :: Readable(d)
    ensures counted == [] <==> NoneMayDeny(side, issuer, overlap, denials)
  {
    hide Harmless, Counts, Readable;
    counted := [];
    for i := 0 to |denials|
      invariant counted == [] <==> forall j | 0 <= j < i && Counts(denials[j], side, issuer) :: Harmless(denials[j], side, overlap)
    {
      var d := denials[i];
      assert d in denials;
      if Counts(d, side, issuer) {
        var harmless := IsHarmless(d, side, overlap);
        if !harmless {
          counted := counted + [MayDeny(side.target, d)];
        }
      }
    }
  }

  // ---- The link ----

  method CaveatsBeyond(overlap: AdmittedSet, a: AdmittedSet, b: AdmittedSet) returns (doubts: seq<Doubt>)
    ensures doubts == [] <==> forall c | c in overlap.caveats :: c in a.caveats || c in b.caveats
  {
    doubts := [];
    for i := 0 to |overlap.caveats|
      invariant doubts == [] <==> forall j | 0 <= j < i :: overlap.caveats[j] in a.caveats || overlap.caveats[j] in b.caveats
    {
      var c := overlap.caveats[i];
      if c !in a.caveats && c !in b.caveats {
        doubts := doubts + [OverlapWidened(c)];
      }
    }
  }

  /** Everything NewLink asks of a pair before it calls the link established. */
  ghost predicate Proved(l: Link, a: Grant, b: Grant, denials: seq<Grant>) {
    && Undoubted(a) && Undoubted(b) && l.example.Some?
    && NoneMayDeny(a, l.issuer, l.overlap, denials) && NoneMayDeny(b, l.issuer, l.overlap, denials)
    && forall c | c in l.overlap.caveats :: c in a.admits.caveats || c in b.admits.caveats
  }

  /** The grant admits the token's identity, its audience set aside. */
  ghost predicate AdmitsIdentity(g: Grant, token: Token) {
    MeetsKept(g.admits, IsIdentity, token)
  }

  ghost predicate SharedIdentity(a: Grant, b: Grant, token: Token) {
    AdmitsIdentity(a, token) && AdmitsIdentity(b, token)
  }

  /** No statement that may deny takes a token of the side out of the overlap. */
  ghost predicate Undenied(side: Grant, issuer: string, overlap: AdmittedSet, denials: seq<Grant>) {
    forall d | d in denials && Counts(d, side, issuer) :: Misses(d, side, overlap)
  }

  /** What an established link claims. */
  ghost predicate IsReal(l: Link, a: Grant, b: Grant, denials: seq<Grant>) {
    && a.issuer == b.issuer == l.issuer
    && l.example.Some? && SharedIdentity(a, b, l.example.value)
    && l.overlap.IsExact() && (forall token: Token :: l.overlap.Admits(token) <==> SharedIdentity(a, b, token))
    && Undenied(a, l.issuer, l.overlap, denials) && Undenied(b, l.issuer, l.overlap, denials)
  }

  /** The identities of each side, and of both, are read without losing a term to another that renders alike. */
  ghost predicate IdentitiesLoseNothing(a: Grant, b: Grant)
    requires Readable(a) && Readable(b)
  {
    IdentitiesAreCanonical(a);
    IdentitiesAreCanonical(b);
    && LosesNothing(KeptTerms(a.admits.terms, IsIdentity)) && LosesNothing(KeptTerms(b.admits.terms, IsIdentity))
    && LosesNothing(Product(WithoutAudience(a), WithoutAudience(b)))
  }

  /** So is what each statement counted against the side shares with it. */
  ghost predicate DenialsLoseNothing(side: Grant, issuer: string, denials: seq<Grant>) {
    forall d | d in denials && Counts(d, side, issuer) ::
      d.admits.Canonical() && side.admits.Canonical() && LosesNothing(Product(d.admits, side.admits))
  }

  /** A link is established exactly when everything asked is proved; its example is always an identity both admit. */
  method NewLink(a: Grant, b: Grant, denials: seq<Grant>) returns (outcome: Outcome)
    requires Readable(a) && Readable(b) && forall d | d in denials :: Readable(d)
    ensures Pairable(a, b).Some? ==> outcome == Refused(Pairable(a, b).value)
    ensures Pairable(a, b).None? ==> Overlap(a, b).Canonical() && (outcome.Linked? <==> !Overlap(a, b).IsEmpty())
    ensures Pairable(a, b).None? && outcome.Refused? ==> outcome.why == Disjoint
    ensures outcome.Linked? ==>
      var l := outcome.link;
      l.issuer == IssuerOf(a, b) && l.overlap == Overlap(a, b)
      && (l.example.Some? ==> SharedIdentity(a, b, l.example.value) && l.overlap.Admits(l.example.value))
      && (l.confidence == Established <==> l.doubts == []) && (l.confidence == Established <==> Proved(l, a, b, denials))
  {
    var why := Pairable(a, b);
    if why.Some? {
      return Refused(why.value);
    }
    var issuer := IssuerOf(a, b);
    IdentitiesAreCanonical(a);
    IdentitiesAreCanonical(b);
    hide Harmless, Counts, Undoubted, Readable, Project, AdmittedSet.Admits, AdmittedSet.Canonical, MeetSets, SharedIdentity, NoneMayDeny;
    OverlapIsFor(a, b, map[]);
    var identitiesA := ProjectInPlace(a.admits, IsIdentity);
    var identitiesB := ProjectInPlace(b.admits, IsIdentity);
    var overlap := BuildMeet(identitiesA, identitiesB);
    if overlap.IsEmpty() {
      return Refused(Disjoint);
    }
    var example := Witnesses.WitnessOf(overlap, identitiesA, identitiesB);
    if example.Some? {
      OverlapIsFor(a, b, example.value);
    }
    var aboutA := DoubtsAbout(a);
    var deniedA := DenialsAgainst(a, issuer, overlap, denials);
    var aboutB := DoubtsAbout(b);
    var deniedB := DenialsAgainst(b, issuer, overlap, denials);
    var widened := CaveatsBeyond(overlap, a.admits, b.admits);
    var unexampled := if example.None? then [NoExample] else [];
    var doubts := aboutA + deniedA + aboutB + deniedB + widened + unexampled;
    NothingDoubted(aboutA, deniedA, aboutB, deniedB, widened, unexampled);
    return Linked(Link(issuer, overlap, example, if doubts == [] then Established else Indeterminate, doubts));
  }

  function Overlap(a: Grant, b: Grant): AdmittedSet
    requires Readable(a) && Readable(b)
  {
    IdentitiesAreCanonical(a);
    IdentitiesAreCanonical(b);
    MeetSets(WithoutAudience(a), WithoutAudience(b))
  }

  lemma IdentitiesAreCanonical(g: Grant)
    requires Readable(g)
    ensures WithoutAudience(g).Canonical()
  {
    ProjectIsExact(g.admits, IsIdentity, map[]);
  }

  lemma NothingDoubted(p: seq<Doubt>, q: seq<Doubt>, r: seq<Doubt>, s: seq<Doubt>, t: seq<Doubt>, u: seq<Doubt>)
    ensures p + q + r + s + t + u == [] <==> p == [] && q == [] && r == [] && s == [] && t == [] && u == []
  {
    assert |p + q + r + s + t + u| == |p| + |q| + |r| + |s| + |t| + |u|;
  }

  /** The overlap holds no identity but what both admit unless it says that it was widened, and each of those where nothing is lost. */
  lemma OverlapIs(a: Grant, b: Grant)
    requires Readable(a) && Readable(b)
    ensures Overlap(a, b).Canonical()
    ensures Overlap(a, b).IsExact() ==> forall token: Token :: Overlap(a, b).Admits(token) ==> SharedIdentity(a, b, token)
    ensures IdentitiesLoseNothing(a, b) ==> forall token: Token :: SharedIdentity(a, b, token) ==> Overlap(a, b).Admits(token)
  {
    hide LosesNothing, Product, Overflows, AdmittedSet.Admits, MeetsKept, Project, AdmittedSet.Canonical, AdmitsIdentity, MeetSets,
      IdentitiesLoseNothing, KeptTerms;
    OverlapIsFor(a, b, map[]);
    forall token: Token
      ensures Overlap(a, b).IsExact() && Overlap(a, b).Admits(token) ==> SharedIdentity(a, b, token)
      ensures IdentitiesLoseNothing(a, b) && SharedIdentity(a, b, token) ==> Overlap(a, b).Admits(token)
    {
      OverlapIsFor(a, b, token);
    }
  }

  /** The same of one token; and the example of a pair is an identity both admit. */
  lemma OverlapIsFor(a: Grant, b: Grant, token: Token)
    requires Readable(a) && Readable(b)
    ensures Overlap(a, b).Canonical()
    ensures Overlap(a, b).IsExact() && Overlap(a, b).Admits(token) ==> SharedIdentity(a, b, token)
    ensures IdentitiesLoseNothing(a, b) && SharedIdentity(a, b, token) ==> Overlap(a, b).Admits(token)
    ensures WithoutAudience(a).Admits(token) && WithoutAudience(b).Admits(token) ==> SharedIdentity(a, b, token)
  {
    var x, y := WithoutAudience(a), WithoutAudience(b);
    IdentitiesAreCanonical(a);
    IdentitiesAreCanonical(b);
    hide LosesNothing, Product, Overflows, AdmittedSet.Admits, MeetsKept, WithoutAudience, AdmittedSet.Canonical, MeetSets, KeptTerms, Project;
    MeetSetsIsExact(x, y, token);
    IdentitiesAre(a, token);
    IdentitiesAre(b, token);
    assert Overflows(Product(x, y)) ==> Overflow("Meet") in MeetSets(x, y).caveats;
  }

  lemma IdentitiesAre(g: Grant, token: Token)
    requires Readable(g)
    ensures WithoutAudience(g).Admits(token) ==> AdmitsIdentity(g, token)
    ensures LosesNothing(KeptTerms(g.admits.terms, IsIdentity)) && AdmitsIdentity(g, token) ==> WithoutAudience(g).Admits(token)
    ensures WithoutAudience(g).IsEmpty() ==> !AdmitsIdentity(g, token)
  {
    hide LosesNothing, KeptTerms, Project, MeetsKept, AdmittedSet.Admits;
    ProjectIsExact(g.admits, IsIdentity, token);
  }

  /** A pair refused as disjoint has no identity both admit, where each side's identities lose nothing. */
  lemma DisjointIsDisjoint(a: Grant, b: Grant, token: Token)
    requires Readable(a) && Readable(b) && Overlap(a, b).IsEmpty()
    requires LosesNothing(KeptTerms(a.admits.terms, IsIdentity)) && LosesNothing(KeptTerms(b.admits.terms, IsIdentity))
    ensures !SharedIdentity(a, b, token)
  {
    hide LosesNothing, Product, Overflows, AdmittedSet.Admits, MeetsKept, Project, AdmittedSet.Canonical, KeptTerms;
    IdentitiesAreCanonical(a);
    IdentitiesAreCanonical(b);
    MeetSetsIsExact(WithoutAudience(a), WithoutAudience(b), token);
    IdentitiesAre(a, token);
    IdentitiesAre(b, token);
  }

  /** An established link is real. */
  lemma EstablishedIsReal(l: Link, a: Grant, b: Grant, denials: seq<Grant>)
    requires Readable(a) && Readable(b) && Pairable(a, b).None? && forall d | d in denials :: Readable(d)
    requires Proved(l, a, b, denials) && l.issuer == IssuerOf(a, b) && l.overlap == Overlap(a, b)
    requires SharedIdentity(a, b, l.example.value)
    requires IdentitiesLoseNothing(a, b) && DenialsLoseNothing(a, l.issuer, denials) && DenialsLoseNothing(b, l.issuer, denials)
    ensures IsReal(l, a, b, denials)
  {
    hide LosesNothing, MeetSets, Overlap, SharedIdentity, IdentitiesLoseNothing;
    OverlapIs(a, b);
    NoneBeyond(l.overlap.caveats, a.admits.caveats, b.admits.caveats);
    forall side, d | side in {a, b} && d in denials && Counts(d, side, l.issuer) ensures Misses(d, side, l.overlap) {
      ProvablyMissesIsSound(d, side, l.overlap);
    }
  }

  /** With plain claim names nothing is ever lost. */
  lemma PlainGrantsLoseNothing(a: Grant, b: Grant)
    requires Readable(a) && Readable(b)
    requires forall t | t in a.admits.terms + b.admits.terms :: PlainClaims(t)
    ensures IdentitiesLoseNothing(a, b)
  {
    PlainIdentities(a);
    PlainIdentities(b);
    PlainProduct(WithoutAudience(a), WithoutAudience(b));
  }

  lemma PlainIdentities(g: Grant)
    requires Readable(g) && forall t | t in g.admits.terms :: PlainClaims(t)
    ensures LosesNothing(KeptTerms(g.admits.terms, IsIdentity)) && WithoutAudience(g).Canonical()
    ensures forall t | t in WithoutAudience(g).terms :: PlainClaims(t)
  {
    IdentitiesAreCanonical(g);
    CanonicalIsLive(g.admits);
    KeptTermsAre(g.admits.terms, IsIdentity);
    var kept := KeptTerms(g.admits.terms, IsIdentity);
    hide LosesNothing, Live, FirstOfEach, SortUnique;
    forall t | t in kept ensures PlainClaims(t) {
    }
    PlainLosesNothing(kept);
    PlainNormal(kept, [], "NewAdmittedSet");
    AddCaveatsIs(NewAdmittedSet(kept), g.admits.caveats);
  }

  lemma NoneBeyond(cs: seq<Caveat>, ds: seq<Caveat>, es: seq<Caveat>)
    requires forall c | c in cs :: c in ds || c in es
    ensures ds == [] && es == [] ==> cs == []
  {
    if |cs| > 0 {
      assert cs[0] in cs;
    }
  }
}

/**
 * Turning a census fact to unverified is meant never to move a grant inward (internal/ring/property_test.go). Of
 * the owner characters that is false: an owner's name the characters exclude names nobody, and forgetting them
 * makes it name someone.
 */
module Forgetting {
  import opened Strings
  import opened StringSets
  import opened Terms
  import opened AdmittedSets
  import opened Grants
  import opened Owners
  import opened Subjects
  import opened Confinements
  import opened Rings
  import opened Placements

  /** The classifier with the owner characters of its census turned to unverified. */
  function Forget(c: Classifier): Classifier
    requires c.facts.tenancy.Some?
  {
    c.(facts := c.facts.(tenancy := Some(ForgetIn(c.facts.tenancy.value))))
  }

  function ForgetIn(t: Tenancy): Tenancy {
    t.(ownerCharacters := [])
  }

  /** The shape is written in exact values alone, each of which is ok. */
  predicate Spells(s: StringSet, ok: string -> bool) {
    match s
    case Exact(v) => ok(v)
    case Union(members) => members != [] && forall m | m in members :: Spells(m, ok)
    case _ => false
  }

  /** A name the verified characters let an owner have. */
  predicate CanBeName(t: Tenancy, v: string) {
    v != "" && (t.ownerCharacters == [] || t.OwnerRun(v) == v)
  }

  function ANameOf(t: Tenancy): string -> bool {
    v => CanBeName(t, v)
  }

  function SomeText(): string -> bool {
    v => v != ""
  }

  /** A value that names an owner, read through the claim. */
  function NamesSome(iss: Issuer, t: Tenancy, claim: TenancyClaim): string -> bool {
    v => ClaimOwners(iss, t, claim, v) != []
  }

  /** The claim names an owner by its values, one of which the characters exclude. */
  predicate NamesNobody(t: Tenancy, claim: TenancyClaim, term: Term) {
    && claim.scope.OwnerScope? && claim.claim in term
    && Spells(term[claim.claim], SomeText()) && !Spells(term[claim.claim], ANameOf(t))
  }

  // ---- When a tenancy claim pins ----

  lemma {:induction false} ClaimPins(iss: Issuer, t: Tenancy, claim: TenancyClaim, s: StringSet)
    ensures var c := ConfineShape(s, ClaimValues(iss, t, claim), ClaimPrefixes(claim));
            !c.bounded && (c.owners != [] <==> Spells(s, NamesSome(iss, t, claim)))
    decreases s, 0
  {
    var value, prefix := ClaimValues(iss, t, claim), ClaimPrefixes(claim);
    match s
    case Union(members) =>
      UnionPins(iss, t, claim, members, NOTHING_READ);
    case Inter(patterns) =>
      InterPinsNothing(patterns, prefix, NOTHING_READ);
    case _ =>
  }

  lemma {:induction false} UnionPins(iss: Issuer, t: Tenancy, claim: TenancyClaim, members: seq<StringSet>, read: Confinement)
    requires !read.bounded
    ensures var c := ConfineUnion(members, ClaimValues(iss, t, claim), ClaimPrefixes(claim), read, None);
            !c.bounded && (c.owners != [] <==>
              (read.owners != [] || members != []) && forall m | m in members :: Spells(m, NamesSome(iss, t, claim)))
    decreases members, 1
  {
    hide ClaimOwners;
    if members != [] {
      ClaimPins(iss, t, claim, members[0]);
      var m := ConfineShape(members[0], ClaimValues(iss, t, claim), ClaimPrefixes(claim));
      assert forall x :: x in members <==> x == members[0] || x in members[1..];
      if m.owners != [] {
        UnionPins(iss, t, claim, members[1..], read.(owners := read.owners + m.owners, bounded := read.bounded || m.bounded));
      }
    }
  }

  lemma {:induction false} InterPinsNothing(patterns: seq<string>, prefix: PrefixReader, unread: Confinement)
    requires (prefix.None? || forall p :: prefix.value(p) == []) && unread.owners == [] && !unread.bounded
    ensures ConfineInter(patterns, prefix, [], unread).owners == [] && !ConfineInter(patterns, prefix, [], unread).bounded
  {
    if patterns != [] {
      var m := ConfinePattern(patterns[0], prefix);
      assert [] + m.owners == [];
      InterPinsNothing(patterns[1..], prefix, if m.unread then m else unread);
    }
  }

  /** Where a claim's values pin under the verified characters, they pin the same owners under none. */
  lemma {:induction false} PinsAlike(iss: Issuer, t: Tenancy, claim: TenancyClaim, s: StringSet)
    requires ConfineShape(s, ClaimValues(iss, t, claim), ClaimPrefixes(claim)).owners != []
    ensures ConfineShape(s, ClaimValues(iss, ForgetIn(t), claim), ClaimPrefixes(claim)).owners
            == ConfineShape(s, ClaimValues(iss, t, claim), ClaimPrefixes(claim)).owners
    decreases s, 0
  {
    match s
    case Union(members) =>
      UnionPinsAlike(iss, t, claim, members, NOTHING_READ);
    case Inter(patterns) =>
    case _ =>
  }

  lemma {:induction false} UnionPinsAlike(iss: Issuer, t: Tenancy, claim: TenancyClaim, members: seq<StringSet>, read: Confinement)
    requires ConfineUnion(members, ClaimValues(iss, t, claim), ClaimPrefixes(claim), read, None).owners != []
    ensures ConfineUnion(members, ClaimValues(iss, ForgetIn(t), claim), ClaimPrefixes(claim), read, None).owners
            == ConfineUnion(members, ClaimValues(iss, t, claim), ClaimPrefixes(claim), read, None).owners
    decreases members, 1
  {
    hide ClaimOwners;
    if members != [] {
      var value, prefix := ClaimValues(iss, t, claim), ClaimPrefixes(claim);
      UnionHoldsEach(members, value, prefix, read, None, 0);
      PinsAlike(iss, t, claim, members[0]);
      ClaimPins(iss, t, claim, members[0]);
      ClaimPins(iss, ForgetIn(t), claim, members[0]);
      var m := ConfineShape(members[0], value, prefix);
      UnionPinsAlike(iss, t, claim, members[1..], read.(owners := read.owners + m.owners, bounded := read.bounded || m.bounded));
    }
  }

  lemma {:induction false} SpellsAlike(s: StringSet, ok: string -> bool, ok': string -> bool)
    requires forall v :: ok(v) == ok'(v)
    ensures Spells(s, ok) == Spells(s, ok')
  {
    if s.Union? {
      forall m | m in s.members ensures Spells(m, ok) == Spells(m, ok') {
        SpellsAlike(m, ok, ok');
      }
    }
  }

  /** Forgetting the characters makes a claim pin that pinned nothing exactly where it names nobody. */
  lemma ClaimStartsToPin(c: Classifier, t: Tenancy, claim: TenancyClaim, term: Term)
    ensures var before, after := c.ClaimReading(t, claim, term).owners, c.ClaimReading(ForgetIn(t), claim, term).owners;
            (before != [] ==> after == before) && (before == [] && after != [] <==> NamesNobody(t, claim, term))
  {
    hide ConfineShape;
    if claim.claim in term {
      var s, t' := term[claim.claim], ForgetIn(t);
      ClaimPins(c.Iss(), t, claim, s);
      ClaimPins(c.Iss(), t', claim, s);
      if c.ClaimReading(t, claim, term).owners != [] {
        PinsAlike(c.Iss(), t, claim, s);
      }
      if claim.scope.OwnerScope? {
        SpellsAlike(s, NamesSome(c.Iss(), t, claim), ANameOf(t));
        SpellsAlike(s, NamesSome(c.Iss(), t', claim), SomeText());
      } else {
        SpellsAlike(s, NamesSome(c.Iss(), t, claim), NamesSome(c.Iss(), t', claim));
      }
    }
  }

  // ---- When forgetting moves an alternative inward ----

  lemma {:induction false} ClaimReadingsHold(c: Classifier, t: Tenancy, term: Term, n: nat, claim: TenancyClaim)
    requires n <= |t.claims| && claim in t.claims[..n] && c.IsRead(t, claim)
    ensures c.ClaimReading(t, claim, term) in c.ClaimReadings(t, term, n)
  {
    hide Classifier.ClaimReading, Classifier.IsRead;
    assert t.claims[..n] == t.claims[..n - 1] + [t.claims[n - 1]];
    if claim in t.claims[..n - 1] {
      ClaimReadingsHold(c, t, term, n - 1, claim);
    }
  }

  /** A pin of a shared issuer's alternative is the subject's or that of a claim that is read. */
  lemma SharedPinsAre(c: Classifier, t: Tenancy, term: Term, pin: seq<Owner>)
    ensures pin in AddedAll(c.SharedReadings(t, term)).pins <==>
              pin != [] && (pin == c.SubjectReading(t, term).owners
                            || exists claim | claim in t.claims :: c.IsRead(t, claim) && pin == c.ClaimReading(t, claim, term).owners)
  {
    hide Classifier.ClaimReading, Classifier.IsRead, Classifier.SubjectReading, Classifier.ClaimReadings, AddedAll, PinsOf;
    var cs := c.SharedReadings(t, term);
    AddedAllIs(cs);
    PinsComeFrom(cs, pin);
    var claims := c.ClaimReadings(t, term, |t.claims|);
    assert forall r :: r in cs <==> r in claims || r == c.SubjectReading(t, term);
    forall r | r in claims
      ensures exists claim | claim in t.claims :: c.IsRead(t, claim) && r == c.ClaimReading(t, claim, term)
    {
      ClaimReadingsAre(c, t, term, |t.claims|, r);
    }
    forall claim | claim in t.claims && c.IsRead(t, claim) ensures c.ClaimReading(t, claim, term) in claims {
      assert t.claims[..|t.claims|] == t.claims;
      ClaimReadingsHold(c, t, term, |t.claims|, claim);
    }
  }

  lemma ForgottenSubjectPinsNothing(c: Classifier, t: Tenancy, term: Term)
    requires t.ownerCharacters == []
    ensures c.SubjectReading(t, term).owners == []
  {
    hide OwnerStarts;
  }

  lemma ForgettingCovers(c: Classifier)
    requires c.facts.tenancy.Some?
    ensures SameCover(c, Forget(c))
  {
  }

  lemma SameClaimReading(c: Classifier, t: Tenancy, claim: TenancyClaim, term: Term)
    requires c.facts.tenancy.Some?
    ensures Forget(c).ClaimReading(t, claim, term) == c.ClaimReading(t, claim, term)
    ensures Forget(c).IsRead(ForgetIn(t), claim) == c.IsRead(t, claim)
  {
    hide Confine;
  }

  /** The owners a claim that names nobody names once the characters are forgotten. */
  function NewOwners(c: Classifier, claim: TenancyClaim, term: Term): seq<Owner>
    requires c.facts.tenancy.Some?
  {
    c.ClaimReading(ForgetIn(c.facts.tenancy.value), claim, term).owners
  }

  /** Some claim that is read starts to pin, to owners that are yours where the alternative is with an outsider already. */
  ghost predicate StartsToPin(c: Classifier, term: Term)
    requires c.facts.tenancy.Some?
  {
    var t, place := c.facts.tenancy.value, c.PlaceShared(term).place;
    exists claim | claim in t.claims ::
      && c.IsRead(t, claim) && NamesNobody(t, claim, term)
      && (place.Platform? || (place.Outsider? && forall o | o in NewOwners(c, claim, term) :: c.Covered(o)))
  }

  /**
   * Forgetting the owner characters moves an alternative of a shared issuer inward exactly where a claim spells an
   * owner's name the characters exclude, and the alternative is pinned by nothing, or by outsiders alone where every
   * name so spelled is declared. Everywhere else it moves nothing nearer.
   */
  lemma ForgettingMovesInwardExactlyWhen(c: Classifier, term: Term)
    requires c.facts.tenancy.Some?
    ensures Forget(c).PlaceShared(term).place.Rank() > c.PlaceShared(term).place.Rank() <==> StartsToPin(c, term)
  {
    hide Classifier.ClaimReading, Classifier.IsRead, Classifier.SubjectReading, Classifier.SharedReadings, AddedAll, NamesNobody,
      Classifier.Covered, Classifier.Decide;
    var t, c' := c.facts.tenancy.value, Forget(c);
    var r, r' := AddedAll(c.SharedReadings(t, term)), AddedAll(c'.SharedReadings(ForgetIn(t), term));
    PlatformHasNoPins(c, r);
    PlatformHasNoPins(c', r');
    assert c.PlaceShared(term) == c.Decide(r) && c'.PlaceShared(term) == c'.Decide(r');
    if StartsToPin(c, term) {
      StartingMovesInward(c, term, r, r');
    }
    if c'.Decide(r').place.Rank() > c.Decide(r).place.Rank() {
      MovingInwardStarts(c, term, r, r');
    }
  }

  lemma StartingMovesInward(c: Classifier, term: Term, r: Reading, r': Reading)
    requires c.facts.tenancy.Some? && StartsToPin(c, term)
    requires r == AddedAll(c.SharedReadings(c.facts.tenancy.value, term))
    requires r' == AddedAll(Forget(c).SharedReadings(ForgetIn(c.facts.tenancy.value), term))
    ensures Forget(c).Decide(r').place.Rank() > c.Decide(r).place.Rank()
  {
    hide Classifier.ClaimReading, Classifier.IsRead, Classifier.SubjectReading, Classifier.SharedReadings, AddedAll, NamesNobody,
      Classifier.Covered, Classifier.Decide;
    var t, c' := c.facts.tenancy.value, Forget(c);
    var claim :| claim in t.claims && c.IsRead(t, claim) && NamesNobody(t, claim, term)
      && (c.PlaceShared(term).place.Platform?
          || (c.PlaceShared(term).place.Outsider? && forall o | o in NewOwners(c, claim, term) :: c.Covered(o)));
    ClaimStartsToPin(c, t, claim, term);
    SameClaimReading(c, t, claim, term);
    SameClaimReading(c, ForgetIn(t), claim, term);
    var pin := NewOwners(c, claim, term);
    SharedPinsAre(c', ForgetIn(t), term, pin);
    PlatformHasNoPins(c, r);
    PlatformHasNoPins(c', r');
    ForgettingCovers(c);
    assert pin in r'.pins;
    if c.PlaceShared(term).place.Outsider? {
      YoursByOnePin(c', r'.pins, pin);
    }
  }

  lemma YoursByOnePin(c: Classifier, pins: seq<seq<Owner>>, pin: seq<Owner>)
    requires pin in pins && forall o | o in pin :: c.Covered(o)
    ensures c.SomePinIsYours(pins)
  {
    hide Classifier.Covered;
  }

  /** A pin read without the characters is one read with them, or that of a claim that names nobody. */
  lemma ForgottenPin(c: Classifier, term: Term, pin: seq<Owner>) returns (claim: TenancyClaim)
    requires c.facts.tenancy.Some?
    requires pin in AddedAll(Forget(c).SharedReadings(ForgetIn(c.facts.tenancy.value), term)).pins
    requires pin !in AddedAll(c.SharedReadings(c.facts.tenancy.value, term)).pins
    ensures var t := c.facts.tenancy.value;
            claim in t.claims && c.IsRead(t, claim) && NamesNobody(t, claim, term) && pin == NewOwners(c, claim, term)
  {
    hide Classifier.ClaimReading, Classifier.IsRead, Classifier.SubjectReading, Classifier.SharedReadings, AddedAll, NamesNobody;
    var t, c' := c.facts.tenancy.value, Forget(c);
    SharedPinsAre(c', ForgetIn(t), term, pin);
    SharedPinsAre(c, t, term, pin);
    ForgottenSubjectPinsNothing(c', ForgetIn(t), term);
    claim :| claim in t.claims && c'.IsRead(ForgetIn(t), claim) && pin == c'.ClaimReading(ForgetIn(t), claim, term).owners;
    SameClaimReading(c, t, claim, term);
    SameClaimReading(c, ForgetIn(t), claim, term);
    ClaimStartsToPin(c, t, claim, term);
  }

  lemma MovingInwardStarts(c: Classifier, term: Term, r: Reading, r': Reading)
    requires c.facts.tenancy.Some?
    requires r == AddedAll(c.SharedReadings(c.facts.tenancy.value, term))
    requires r' == AddedAll(Forget(c).SharedReadings(ForgetIn(c.facts.tenancy.value), term))
    requires Forget(c).Decide(r').place.Rank() > c.Decide(r).place.Rank()
    ensures StartsToPin(c, term)
  {
    hide Classifier.ClaimReading, Classifier.IsRead, Classifier.SubjectReading, Classifier.SharedReadings, AddedAll, NamesNobody,
      Classifier.Covered, Classifier.Decide;
    var c' := Forget(c);
    PlatformHasNoPins(c, r);
    PlatformHasNoPins(c', r');
    ForgettingCovers(c);
    assert c.PlaceShared(term) == c.Decide(r);
    if r.pins == [] {
      assert r'.pins[0] in r'.pins;
      var claim := ForgottenPin(c, term, r'.pins[0]);
    } else {
      var pin :| pin in r'.pins && forall o | o in pin :: c'.Covered(o);
      if pin in r.pins {
        YoursByOnePin(c, r.pins, pin);
      }
      var claim := ForgottenPin(c, term, pin);
    }
  }

  // ---- Where an alternative lands by its tenancy claims alone ----

  /** The value is one the shape is written in. */
  predicate Lists(s: StringSet, v: string) {
    match s
    case Exact(x) => x == v
    case Union(members) => exists m | m in members :: Lists(m, v)
    case _ => false
  }

  /** The owner a claim's value is, whatever it is written in. */
  function ValueOwner(iss: Issuer, claim: TenancyClaim, v: string): Owner {
    Owner(iss.name, iss.ns, claim.scope, claim.kind, v, "", claim.recyclable != No, false)
  }

  /** The claim is constrained to values that are listed, none of them empty. */
  predicate WritesOwners(claim: TenancyClaim, term: Term) {
    claim.claim in term && Spells(term[claim.claim], SomeText())
  }

  /** Each of those values is an owner declared as yours. */
  ghost predicate WritesYours(c: Classifier, claim: TenancyClaim, term: Term)
    requires claim.claim in term
  {
    forall v | Lists(term[claim.claim], v) :: c.Covered(ValueOwner(c.Iss(), claim, v))
  }

  /** The place the tenancy claims that are read give an alternative, its subject left aside and any name taken for one. */
  ghost function ByClaims(c: Classifier, term: Term): Place
    requires c.facts.tenancy.Some?
  {
    var t := c.facts.tenancy.value;
    if forall claim | claim in t.claims && c.IsRead(t, claim) :: !WritesOwners(claim, term) then Platform
    else if exists claim | claim in t.claims && c.IsRead(t, claim) && WritesOwners(claim, term) :: WritesYours(c, claim, term) then Yours
    else Outsider
  }

  lemma {:induction false} ListedOwners(iss: Issuer, t: Tenancy, claim: TenancyClaim, s: StringSet, o: Owner)
    requires t.ownerCharacters == [] && Spells(s, SomeText())
    ensures o in ConfineShape(s, ClaimValues(iss, t, claim), ClaimPrefixes(claim)).owners <==>
              exists v | Lists(s, v) :: o == ValueOwner(iss, claim, v)
    decreases s, 0
  {
    match s
    case Exact(x) =>
      assert Lists(s, x) && forall v | Lists(s, v) :: v == x;
    case Union(members) =>
      UnionListedOwners(iss, t, claim, members, NOTHING_READ, o);
      assert forall v :: Lists(s, v) <==> exists m | m in members :: Lists(m, v);
  }

  lemma {:induction false} UnionListedOwners(iss: Issuer, t: Tenancy, claim: TenancyClaim, members: seq<StringSet>, read: Confinement, o: Owner)
    requires t.ownerCharacters == [] && forall m | m in members :: Spells(m, SomeText())
    ensures o in ConfineUnion(members, ClaimValues(iss, t, claim), ClaimPrefixes(claim), read, None).owners <==>
              o in read.owners || exists m, v | m in members && Lists(m, v) :: o == ValueOwner(iss, claim, v)
    decreases members, 1
  {
    hide ClaimOwners, ConfineShape, Lists, ValueOwner, Spells;
    if members != [] {
      var value, prefix := ClaimValues(iss, t, claim), ClaimPrefixes(claim);
      var m := ConfineShape(members[0], value, prefix);
      WrittenPins(iss, t, claim, members[0]);
      ListedOwners(iss, t, claim, members[0], o);
      assert m.owners != [];
      var read' := read.(owners := read.owners + m.owners, bounded := read.bounded || m.bounded);
      UnionListedOwners(iss, t, claim, members[1..], read', o);
      assert forall x :: x in members <==> x == members[0] || x in members[1..];
    }
  }

  /** Where no characters are verified, a claim pins exactly where it writes owners. */
  lemma WrittenPins(iss: Issuer, t: Tenancy, claim: TenancyClaim, s: StringSet)
    requires t.ownerCharacters == []
    ensures ConfineShape(s, ClaimValues(iss, t, claim), ClaimPrefixes(claim)).owners != [] <==> Spells(s, SomeText())
  {
    hide ConfineShape;
    ClaimPins(iss, t, claim, s);
    SpellsAlike(s, NamesSome(iss, t, claim), SomeText());
  }

  lemma ForgottenClaim(c: Classifier, claim: TenancyClaim, term: Term)
    requires c.facts.tenancy.Some?
    ensures var owners := NewOwners(c, claim, term);
            && (owners != [] <==> WritesOwners(claim, term))
            && (owners != [] ==> ((forall o | o in owners :: c.Covered(o)) <==> WritesYours(c, claim, term)))
  {
    hide ConfineShape, Spells, Lists, Classifier.Covered, ValueOwner;
    if claim.claim in term {
      var t', s := ForgetIn(c.facts.tenancy.value), term[claim.claim];
      WrittenPins(c.Iss(), t', claim, s);
      if Spells(s, SomeText()) {
        forall o ensures o in NewOwners(c, claim, term) <==> exists v | Lists(s, v) :: o == ValueOwner(c.Iss(), claim, v) {
          ListedOwners(c.Iss(), t', claim, s, o);
        }
      }
    }
  }

  /** With the characters forgotten, an alternative lands where its tenancy claims alone put it. */
  lemma ForgottenPlace(c: Classifier, term: Term)
    requires c.facts.tenancy.Some?
    ensures Forget(c).PlaceShared(term).place == ByClaims(c, term)
  {
    hide Classifier.ClaimReading, Classifier.IsRead, Classifier.SharedReadings, AddedAll, Classifier.Decide, WritesOwners, WritesYours,
      NewOwners, Classifier.SubjectReading, Classifier.SomePinIsYours;
    var t, c' := c.facts.tenancy.value, Forget(c);
    var pins := AddedAll(c'.SharedReadings(ForgetIn(t), term)).pins;
    PlatformHasNoPins(c', AddedAll(c'.SharedReadings(ForgetIn(t), term)));
    forall pin ensures pin in pins <==> exists claim | claim in t.claims :: c.IsRead(t, claim) && WritesOwners(claim, term) && pin == NewOwners(c, claim, term) {
      ForgottenPinIs(c, term, pin);
    }
    if pins != [] {
      assert pins[0] in pins;
    }
    if claim :| claim in t.claims && c.IsRead(t, claim) && WritesOwners(claim, term) {
      assert NewOwners(c, claim, term) in pins;
    }
    ForgottenYours(c, term);
  }

  lemma ForgottenYours(c: Classifier, term: Term)
    requires c.facts.tenancy.Some?
    ensures var t := c.facts.tenancy.value;
            Forget(c).SomePinIsYours(AddedAll(Forget(c).SharedReadings(ForgetIn(t), term)).pins) <==>
              exists claim | claim in t.claims && c.IsRead(t, claim) && WritesOwners(claim, term) :: WritesYours(c, claim, term)
  {
    hide Classifier.ClaimReading, Classifier.IsRead, Classifier.SharedReadings, AddedAll, Classifier.Covered, WritesOwners, WritesYours,
      NewOwners, Classifier.SubjectReading;
    var t, c' := c.facts.tenancy.value, Forget(c);
    var pins := AddedAll(c'.SharedReadings(ForgetIn(t), term)).pins;
    ForgettingCovers(c);
    forall pin ensures pin in pins <==> exists claim | claim in t.claims :: c.IsRead(t, claim) && WritesOwners(claim, term) && pin == NewOwners(c, claim, term) {
      ForgottenPinIs(c, term, pin);
    }
    forall claim | WritesOwners(claim, term)
      ensures claim.claim in term && ((forall o | o in NewOwners(c, claim, term) :: c'.Covered(o)) <==> WritesYours(c, claim, term))
    {
      ForgottenClaim(c, claim, term);
      WrittenIsThere(claim, term);
    }
    if c'.SomePinIsYours(pins) {
      var pin :| pin in pins && forall o | o in pin :: c'.Covered(o);
      var claim :| claim in t.claims && c.IsRead(t, claim) && WritesOwners(claim, term) && pin == NewOwners(c, claim, term);
      assert WritesYours(c, claim, term);
    }
    if claim :| claim in t.claims && c.IsRead(t, claim) && WritesOwners(claim, term) && WritesYours(c, claim, term) {
      assert NewOwners(c, claim, term) in pins;
    }
  }

  lemma WrittenIsThere(claim: TenancyClaim, term: Term)
    requires WritesOwners(claim, term)
    ensures claim.claim in term
  {
  }

  lemma ForgottenPinIs(c: Classifier, term: Term, pin: seq<Owner>)
    requires c.facts.tenancy.Some?
    ensures var t := c.facts.tenancy.value;
            pin in AddedAll(Forget(c).SharedReadings(ForgetIn(t), term)).pins <==>
              exists claim | claim in t.claims :: c.IsRead(t, claim) && WritesOwners(claim, term) && pin == NewOwners(c, claim, term)
  {
    hide Classifier.ClaimReading, Classifier.IsRead, Classifier.SharedReadings, AddedAll, WritesOwners, Classifier.SubjectReading;
    var t, c' := c.facts.tenancy.value, Forget(c);
    SharedPinsAre(c', ForgetIn(t), term, pin);
    ForgottenSubjectPinsNothing(c', ForgetIn(t), term);
    forall claim
      ensures c'.IsRead(ForgetIn(t), claim) == c.IsRead(t, claim)
      ensures c'.ClaimReading(ForgetIn(t), claim, term).owners == NewOwners(c, claim, term)
      ensures NewOwners(c, claim, term) != [] <==> WritesOwners(claim, term)
    {
      SameClaimReading(c, t, claim, term);
      SameClaimReading(c, ForgetIn(t), claim, term);
      ForgottenClaim(c, claim, term);
    }
  }

  // ---- When forgetting makes an alternative certain ----

  /** A pin read as a bound alone leaves a place unknown. */
  lemma PinnedIsUnknownWhenBounded(c: Classifier, term: Term)
    requires c.facts.tenancy.Some? && c.PlaceShared(term).place.Rank() >= 2
    ensures c.PlaceShared(term).state.UnknownState? <==> c.SubjectReading(c.facts.tenancy.value, term).bounded
  {
    hide Classifier.ClaimReadings, Classifier.SubjectReading, AddedAll, PinsOf, Classifier.Pinned, Classifier.RequestUnread;
    var t := c.facts.tenancy.value;
    var cs := c.SharedReadings(t, term);
    AddedAllIs(cs);
    PinnedIsExact(c, AddedAll(cs).pins);
    var claims := c.ClaimReadings(t, term, |t.claims|);
    assert forall r :: r in cs <==> r in claims || r == c.SubjectReading(t, term);
    forall r | r in claims ensures !r.bounded {
      ClaimsAreNoBounds(c, t, term, r);
    }
  }

  lemma PinnedIsExact(c: Classifier, pins: seq<seq<Owner>>)
    ensures c.Pinned(pins, Confinements.Pinned).state.ExactState? && c.Pinned(pins, Confinements.Pinned).place.Rank() >= 2
  {
  }

  lemma ClaimsAreNoBounds(c: Classifier, t: Tenancy, term: Term, r: Confinement)
    requires r in c.ClaimReadings(t, term, |t.claims|)
    ensures !r.bounded
  {
    hide Classifier.ClaimReading, Classifier.IsRead;
    ClaimReadingsAre(c, t, term, |t.claims|, r);
    var claim :| claim in t.claims && r == c.ClaimReading(t, claim, term);
    ClaimIsNoBound(c, t, claim, term);
  }

  lemma ClaimIsNoBound(c: Classifier, t: Tenancy, claim: TenancyClaim, term: Term)
    ensures !c.ClaimReading(t, claim, term).bounded
  {
    hide ConfineShape;
    if claim.claim in term {
      ClaimPins(c.Iss(), t, claim, term[claim.claim]);
    }
  }

  /** With the characters forgotten no subject is a bound. */
  lemma ForgottenIsNoBound(c: Classifier, t: Tenancy, term: Term)
    requires t.ownerCharacters == []
    ensures !c.SubjectReading(t, term).bounded
  {
    hide OwnerStarts;
  }

  /** Forgetting the characters leaves an unread claim unread. */
  lemma {:induction false} UnreadStays(iss: Issuer, t: Tenancy, claim: TenancyClaim, s: StringSet)
    requires ConfineShape(s, ClaimValues(iss, t, claim), ClaimPrefixes(claim)).unread
    ensures var c := ConfineShape(s, ClaimValues(iss, ForgetIn(t), claim), ClaimPrefixes(claim)); c.unread && c.owners == []
    decreases s, 0
  {
    match s
    case Union(members) =>
      UnionUnreadStays(iss, t, claim, members, NOTHING_READ, NOTHING_READ);
    case Inter(patterns) =>
      InterPinsNothing(patterns, ClaimPrefixes(claim), NOTHING_READ);
    case _ =>
  }

  lemma {:induction false} UnionUnreadStays(iss: Issuer, t: Tenancy, claim: TenancyClaim, members: seq<StringSet>, read: Confinement, read': Confinement)
    requires ConfineUnion(members, ClaimValues(iss, t, claim), ClaimPrefixes(claim), read, None).unread && !read.unread
    ensures var c := ConfineUnion(members, ClaimValues(iss, ForgetIn(t), claim), ClaimPrefixes(claim), read', None); c.unread && c.owners == []
    decreases members, 1
  {
    hide ClaimOwners, ConfineShape;
    var value, value', prefix := ClaimValues(iss, t, claim), ClaimValues(iss, ForgetIn(t), claim), ClaimPrefixes(claim);
    if members != [] {
      var m, m' := ConfineShape(members[0], value, prefix), ConfineShape(members[0], value', prefix);
      ClaimPins(iss, t, claim, members[0]);
      ClaimPins(iss, ForgetIn(t), claim, members[0]);
      if m.owners == [] {
        UnreadStays(iss, t, claim, members[0]);
      } else {
        PinsAlike(iss, t, claim, members[0]);
        UnionUnreadStays(iss, t, claim, members[1..], read.(owners := read.owners + m.owners, bounded := read.bounded || m.bounded),
                         read'.(owners := read'.owners + m'.owners, bounded := read'.bounded || m'.bounded));
      }
    }
  }

  /** A reading that pins nothing either way is read without the characters only where it is with them. */
  lemma ClaimUnreadStays(c: Classifier, claim: TenancyClaim, term: Term)
    requires c.facts.tenancy.Some?
    requires c.ClaimReading(c.facts.tenancy.value, claim, term).owners == [] && c.ClaimReading(c.facts.tenancy.value, claim, term).unread
    requires NewOwners(c, claim, term) == []
    ensures c.ClaimReading(ForgetIn(c.facts.tenancy.value), claim, term).unread
  {
    hide ConfineShape;
    var t := c.facts.tenancy.value;
    if claim.claim in term && ConfineShape(term[claim.claim], ClaimValues(c.Iss(), t, claim), ClaimPrefixes(claim)).unread {
      UnreadStays(c.Iss(), t, claim, term[claim.claim]);
    }
  }

  /** An alternative on the platform exactly without the characters is there exactly with them. */
  lemma PlatformStaysDoubted(c: Classifier, term: Term)
    requires c.facts.tenancy.Some? && Forget(c).PlaceShared(term).place.Platform? && Forget(c).PlaceShared(term).state.ExactState?
    ensures c.PlaceShared(term).place.Platform? && c.PlaceShared(term).state.ExactState?
  {
    hide Classifier.ClaimReading, Classifier.IsRead, Classifier.SubjectReading, Classifier.ClaimReadings, AddedAll, PinsOf, Classifier.RequestUnread,
      Classifier.Pinned;
    var t, c' := c.facts.tenancy.value, Forget(c);
    var t' := ForgetIn(t);
    var cs, cs' := c.SharedReadings(t, term), c'.SharedReadings(t', term);
    PinnedIsExact(c', AddedAll(cs').pins);
    ExactMeansRead(c', cs');
    assert c'.SubjectReading(t', term) in cs';
    UnconstrainedSubject(c, term);
    assert c'.RequestUnread() == c.RequestUnread() by { hide *; SameCaveats(c); }
    forall r | r in cs ensures r.owners == [] && !r.unread && !r.bounded {
      if r != c.SubjectReading(t, term) {
        assert r in c.ClaimReadings(t, term, |t.claims|);
        ReadWithTheCharacters(c, term, r);
      }
    }
    AddedAllIs(cs);
    NothingPins(cs);
  }

  lemma {:induction false} NothingPins(cs: seq<Confinement>)
    requires forall r | r in cs :: r.owners == []
    ensures PinsOf(cs) == []
  {
    if cs != [] {
      NothingPins(cs[..|cs| - 1]);
    }
  }

  lemma SameCaveats(c: Classifier)
    requires c.facts.tenancy.Some?
    ensures Forget(c).RequestUnread() == c.RequestUnread()
  {
  }

  /** A subject is read without the characters only where it is not constrained; it says nothing then. */
  lemma UnconstrainedSubject(c: Classifier, term: Term)
    requires c.facts.tenancy.Some?
    ensures var r, r' := c.SubjectReading(c.facts.tenancy.value, term), Forget(c).SubjectReading(ForgetIn(c.facts.tenancy.value), term);
            !r'.unread ==> r.owners == [] && !r.unread && !r.bounded
  {
    hide OwnerStarts, ConfineShape;
  }

  lemma ReadWithTheCharacters(c: Classifier, term: Term, r: Confinement)
    requires c.facts.tenancy.Some? && r in c.ClaimReadings(c.facts.tenancy.value, term, |c.facts.tenancy.value.claims|)
    requires forall r' | r' in Forget(c).SharedReadings(ForgetIn(c.facts.tenancy.value), term) :: r'.owners == [] && !r'.unread
    ensures r.owners == [] && !r.unread && !r.bounded
  {
    hide Classifier.ClaimReading, Classifier.IsRead, Classifier.SubjectReading, Classifier.ClaimReadings;
    var t, c' := c.facts.tenancy.value, Forget(c);
    var t' := ForgetIn(t);
    ClaimReadingsAre(c, t, term, |t.claims|, r);
    var claim :| claim in t.claims && c.IsRead(t, claim) && r == c.ClaimReading(t, claim, term);
    ClaimIsNoBound(c, t, claim, term);
    SameClaimReading(c, t, claim, term);
    SameClaimReading(c, t', claim, term);
    assert t'.claims[..|t'.claims|] == t'.claims;
    ClaimReadingsHold(c', t', term, |t'.claims|, claim);
    var r' := c'.ClaimReading(t', claim, term);
    assert r' in c'.SharedReadings(t', term);
    ClaimStartsToPin(c, t, claim, term);
    if r.unread {
      ClaimUnreadStays(c, claim, term);
    }
  }

  /** Without the characters a pinned place is exact. */
  lemma ForgottenPinIsExact(c: Classifier, term: Term)
    requires c.facts.tenancy.Some? && Forget(c).PlaceShared(term).place.Rank() >= 2
    ensures Forget(c).PlaceShared(term).state.ExactState?
  {
    hide Classifier.SubjectReading, Classifier.PlaceShared;
    PinnedIsUnknownWhenBounded(Forget(c), term);
    ForgottenIsNoBound(Forget(c), ForgetIn(c.facts.tenancy.value), term);
  }

  /**
   * Forgetting the owner characters leaves an alternative where it was and makes an unknown place exact exactly where
   * the subject is read as a bound, and the tenancy claims alone pin the alternative where it was.
   */
  lemma ForgettingMakesCertainExactlyWhen(c: Classifier, term: Term)
    requires c.facts.tenancy.Some?
    ensures var pop, pop' := c.PlaceShared(term), Forget(c).PlaceShared(term);
            pop'.place == pop.place && pop.state.UnknownState? && pop'.state.ExactState? <==>
              c.SubjectReading(c.facts.tenancy.value, term).bounded && pop.place.Rank() >= 2 && ByClaims(c, term) == pop.place
  {
    hide Classifier.SubjectReading, Classifier.PlaceShared, ByClaims;
    var pop, pop' := c.PlaceShared(term), Forget(c).PlaceShared(term);
    ForgottenPlace(c, term);
    SharedReachesThePlatform(c, term);
    if pop.place.Rank() >= 2 {
      PinnedIsUnknownWhenBounded(c, term);
      if pop'.place == pop.place {
        ForgottenPinIsExact(c, term);
      }
    } else if pop'.place.Platform? && pop'.state.ExactState? {
      PlatformStaysDoubted(c, term);
    }
  }

  lemma SharedReachesThePlatform(c: Classifier, term: Term)
    ensures 1 <= c.PlaceShared(term).place.Rank() <= 3
  {
    hide AddedAll, Classifier.SharedReadings, Classifier.Decide;
    if c.facts.tenancy.Some? {
      PlatformHasNoPins(c, AddedAll(c.SharedReadings(c.facts.tenancy.value, term)));
    }
  }

  // ---- One such input ----

  const NAME_CLAIM := TenancyClaim("repository_owner", OwnerScope, NameKind, No)

  const CENSUS := Tenancy([NAME_CLAIM], [], [], [], [CharRange('a', 'z')], false)

  const SPACED := map["repository_owner" := Exact("a b")]

  /** A classifier of grants to the owner "a b", under a census whose names run over a to z. */
  function Spaced(parser: Parser): Classifier {
    Classifier(
      Grant(TargetRef("role", "r"), "https://ci.example.com", AdmittedSet([SPACED], []), Allow, []),
      Facts(Shared, "", No, Some(CENSUS), IssuerTenant("", NameKind, Unverified, MembershipUnverified), EveryIssuer, true),
      [],
      parser)
  }

  lemma SpacedRun()
    ensures CENSUS.OwnerRun("a b") == "a"
  {
    assert CENSUS.Allows('a') by {
      assert CENSUS.ownerCharacters[0] in CENSUS.ownerCharacters;
    }
    assert "a b"[1..] == " b" && !CENSUS.Allows(' ');
  }

  lemma SpacedReadsNothing(parser: Parser)
    ensures Spaced(parser).SharedReadings(CENSUS, SPACED) == [NOTHING_READ, NOTHING_READ]
  {
    hide Confine, Classifier.IsRead, Classifier.ClaimReading, Classifier.SubjectReading;
    SpacedClaim(parser);
    SpacedSubject(parser);
    var c := Spaced(parser);
    assert c.ClaimReadings(CENSUS, SPACED, 0) == [];
    assert c.ClaimReadings(CENSUS, SPACED, 1) == [NOTHING_READ];
  }

  lemma SpacedClaim(parser: Parser)
    ensures Spaced(parser).ClaimReading(CENSUS, CENSUS.claims[0], SPACED) == NOTHING_READ
    ensures Spaced(parser).IsRead(CENSUS, CENSUS.claims[0])
  {
    hide Tenancy.OwnerRun;
    SpacedRun();
    assert ClaimOwners(Spaced(parser).Iss(), CENSUS, CENSUS.claims[0], "a b") == [];
  }

  lemma SpacedSubject(parser: Parser)
    ensures Spaced(parser).SubjectReading(CENSUS, SPACED) == NOTHING_READ
  {
    hide ConfineShape, OwnerStarts;
  }

  lemma NothingAdded()
    ensures AddedAll([NOTHING_READ, NOTHING_READ]) == NO_READING
  {
    assert [NOTHING_READ, NOTHING_READ][..1] == [NOTHING_READ];
    assert AddedAll([NOTHING_READ]) == NO_READING;
  }

  /** A grant to a name the characters exclude is the platform's, exactly; with the characters forgotten, one outsider's. */
  lemma ForgettingCanMoveInward(parser: Parser)
    ensures Spaced(parser).PlaceShared(SPACED).place == Platform && Spaced(parser).PlaceShared(SPACED).state == ExactState
    ensures Forget(Spaced(parser)).PlaceShared(SPACED).place.Rank() > Platform.Rank()
  {
    hide Distinct, Classifier.FlagPins, Classifier.SharedReadings, AddedAll, Tenancy.OwnerRun;
    var c := Spaced(parser);
    SpacedReadsNothing(parser);
    NothingAdded();
    assert c.PlaceShared(SPACED).place == Platform;
    SpacedStarts(parser);
    ForgettingMovesInwardExactlyWhen(c, SPACED);
  }

  lemma SpacedStarts(parser: Parser)
    requires Spaced(parser).PlaceShared(SPACED).place.Platform?
    ensures StartsToPin(Spaced(parser), SPACED)
  {
    hide Tenancy.OwnerRun, Classifier.PlaceShared;
    SpacedRun();
    var claim := CENSUS.claims[0];
    assert claim in CENSUS.claims && NamesNobody(CENSUS, claim, SPACED) && Spaced(parser).IsRead(CENSUS, claim);
  }
}

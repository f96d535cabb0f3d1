/** What is read of a token depends on neither its issuer's namespace nor the case rule: the owners alone carry the namespace. */
module Renamings {
  import opened Strings
  import opened Globs
  import opened StringSets
  import opened Terms
  import opened AdmittedSets
  import opened Grants
  import opened Owners
  import opened Subjects
  import opened Confinements
  import opened Rings
  import opened Placements

  /** The owners as another namespace holds them. */
  function InNamespace(owners: seq<Owner>, ns: string): (moved: seq<Owner>)
    ensures |moved| == |owners| && forall i | 0 <= i < |owners| :: moved[i] == owners[i].(ns := ns)
  {
    if owners == [] then [] else [owners[0].(ns := ns)] + InNamespace(owners[1..], ns)
  }

  /** The same census but for its case rule. */
  predicate SameCensus(t: Tenancy, t': Tenancy) {
    t' == t.(namesIgnoreCase := t'.namesIgnoreCase)
  }

  // ---- Forms ----

  lemma SameAllows(t: Tenancy, t': Tenancy)
    requires SameCensus(t, t')
    ensures forall c :: t'.Allows(c) == t.Allows(c)
    ensures forall f :: t'.Readable(f) == t.Readable(f)
  {
  }

  lemma {:induction false} SameRun(t: Tenancy, t': Tenancy, s: string)
    requires SameCensus(t, t')
    ensures t'.OwnerRun(s) == t.OwnerRun(s)
  {
    hide Tenancy.Allows;
    SameAllows(t, t');
    if s != "" {
      SameRun(t, t', s[1..]);
    }
  }

  lemma {:induction false} SameClaimsOf(t: Tenancy, t': Tenancy, scope: Scope, kind: Kind, n: nat)
    requires SameCensus(t, t') && n <= |t.claims|
    ensures t'.ClaimsOf(scope, kind, n) == t.ClaimsOf(scope, kind, n)
  {
    if n > 0 {
      SameClaimsOf(t, t', scope, kind, n - 1);
    }
  }

  function OwnerIn(owner: Option<Owner>, ns: string): Option<Owner> {
    if owner.None? then None else Some(owner.value.(ns := ns))
  }

  lemma SamePart(iss: Issuer, iss': Issuer, t: Tenancy, t': Tenancy, f: SubjectForm, part: Part, run: string, name: string)
    requires SameCensus(t, t') && iss'.name == iss.name
    ensures PartOwner(iss', t', f, part, run, name) == PartOwner(iss, t, f, part, run, name).(ns := iss'.ns)
  {
    SameClaimsOf(t, t', f.scope, part.kind, |t.claims|);
  }

  lemma {:induction false} PartsRenamed(iss: Issuer, iss': Issuer, t: Tenancy, t': Tenancy, f: SubjectForm, k: nat, rest: string, name: string,
                                        owner: Option<Owner>, complete: bool)
    requires SameCensus(t, t') && iss'.name == iss.name && k <= |f.parts|
    ensures var r := ReadParts(iss, t, f, k, rest, name, owner, complete);
            ReadParts(iss', t', f, k, rest, name, OwnerIn(owner, iss'.ns), complete) == r.(owner := OwnerIn(r.owner, iss'.ns))
    decreases |f.parts| - k
  {
    hide Tenancy.OwnerRun, PartOwner;
    if k < |f.parts| {
      SameRun(t, t', rest);
      var part, run := f.parts[k], t.OwnerRun(rest);
      var after := rest[|run|..];
      SamePart(iss, iss', t, t', f, part, run, name);
      if part.delimiter <= after {
        var o := PartOwner(iss, t, f, part, run, name);
        PartsRenamed(iss, iss', t, t', f, k + 1, after[|part.delimiter|..], if part.kind.IDKind? then name else run, Some(o), complete);
      }
    }
  }

  lemma FormRenamed(iss: Issuer, iss': Issuer, t: Tenancy, t': Tenancy, f: SubjectForm, text: string, complete: bool)
    requires SameCensus(t, t') && iss'.name == iss.name
    ensures var r := ReadForm(iss, t, f, text, complete);
            ReadForm(iss', t', f, text, complete) == r.(owner := OwnerIn(r.owner, iss'.ns))
  {
    hide ReadParts, Tenancy.Readable;
    SameAllows(t, t');
    if |f.lead| <= |text| {
      PartsRenamed(iss, iss', t, t', f, 0, text[|f.lead|..], "", None, complete);
    }
  }

  lemma {:induction false} FormOwnersRenamed(iss: Issuer, iss': Issuer, t: Tenancy, t': Tenancy, text: string, complete: bool, n: nat)
    requires SameCensus(t, t') && iss'.name == iss.name && n <= |t.forms|
    ensures var owners := FormOwners(iss, t, text, complete, n);
            FormOwners(iss', t', text, complete, n) == if owners.None? then None else Some(InNamespace(owners.value, iss'.ns))
  {
    hide ReadForm;
    if n > 0 {
      FormOwnersRenamed(iss, iss', t, t', text, complete, n - 1);
      FormRenamed(iss, iss', t, t', t.forms[n - 1], text, complete);
      var owners := FormOwners(iss, t, text, complete, n - 1);
      var r := ReadForm(iss, t, t.forms[n - 1], text, complete);
      if owners.Some? && r.owner.Some? {
        assert InNamespace(owners.value + [r.owner.value], iss'.ns) == InNamespace(owners.value, iss'.ns) + [r.owner.value.(ns := iss'.ns)];
      }
    }
  }

  lemma SubjectOwnersRenamed(iss: Issuer, iss': Issuer, t: Tenancy, t': Tenancy, text: string, complete: bool)
    requires SameCensus(t, t') && iss'.name == iss.name
    ensures SubjectOwners(iss', t', text, complete) == InNamespace(SubjectOwners(iss, t, text, complete), iss'.ns)
  {
    hide FormOwners;
    FormOwnersRenamed(iss, iss', t, t', text, complete, |t.forms|);
  }

  // ---- Confinements ----

  /** The same reading, its owners in another namespace; what is written of a start is left out. */
  ghost predicate Renamed(c: Confinement, c': Confinement, ns: string) {
    c'.owners == InNamespace(c.owners, ns) && c'.unread == c.unread && c'.bounded == c.bounded
  }

  lemma SubjectValueRenamed(iss: Issuer, iss': Issuer, t: Tenancy, t': Tenancy, v: string)
    requires SameCensus(t, t') && iss'.name == iss.name
    ensures Renamed(SubjectValue(iss, t, v), SubjectValue(iss', t', v), iss'.ns)
  {
    hide SubjectOwners, LiteralPrefix, ReadForm;
    SubjectOwnersRenamed(iss, iss', t, t', v, true);
    SubjectOwnersRenamed(iss, iss', t, t', LiteralPrefix(v), false);
    forall f | f in t.forms ensures ReadForm(iss', t', f, v, true).fits == ReadForm(iss, t, f, v, true).fits {
      FormRenamed(iss, iss', t, t', f, v, true);
    }
  }

  ghost predicate ValuesRenamed(value: ValueReader, value': ValueReader, ns: string) {
    forall v :: Renamed(value(v), value'(v), ns)
  }

  ghost predicate PrefixesRenamed(prefix: PrefixReader, prefix': PrefixReader, ns: string) {
    && (prefix.Some? <==> prefix'.Some?)
    && (prefix.Some? ==> forall p :: prefix'.value(p) == InNamespace(prefix.value(p), ns))
  }

  lemma JoinedRenamed(a: seq<Owner>, b: seq<Owner>, ns: string)
    ensures InNamespace(a + b, ns) == InNamespace(a, ns) + InNamespace(b, ns)
  {
  }

  lemma PatternRenamed(pattern: string, prefix: PrefixReader, prefix': PrefixReader, ns: string)
    requires PrefixesRenamed(prefix, prefix', ns)
    ensures Renamed(ConfinePattern(pattern, prefix), ConfinePattern(pattern, prefix'), ns)
  {
    hide LiteralPrefix;
  }

  /** A shape read by readers that agree but for the namespace is read alike but for the namespace. */
  lemma {:induction false} ShapeRenamed(s: StringSet, value: ValueReader, value': ValueReader, prefix: PrefixReader, prefix': PrefixReader, ns: string)
    requires ValuesRenamed(value, value', ns) && PrefixesRenamed(prefix, prefix', ns)
    ensures Renamed(ConfineShape(s, value, prefix), ConfineShape(s, value', prefix'), ns)
    decreases s, 0
  {
    hide PrefixesRenamed;
    match s
    case Exact(v) =>
    case Glob(pattern) =>
      PatternRenamed(pattern, prefix, prefix', ns);
    case Union(members) =>
      UnionRenamed(members, value, value', prefix, prefix', NOTHING_READ, NOTHING_READ, None, None, ns);
    case Inter(patterns) =>
      InterRenamed(patterns, prefix, prefix', [], NOTHING_READ, NOTHING_READ, ns);
    case _ =>
  }

  lemma {:induction false} UnionRenamed(members: seq<StringSet>, value: ValueReader, value': ValueReader, prefix: PrefixReader, prefix': PrefixReader,
                                        read: Confinement, read': Confinement, bound: Option<Confinement>, bound': Option<Confinement>, ns: string)
    requires ValuesRenamed(value, value', ns) && PrefixesRenamed(prefix, prefix', ns)
    requires Renamed(read, read', ns) && (bound.Some? <==> bound'.Some?) && (bound.Some? ==> Renamed(bound.value, bound'.value, ns))
    ensures Renamed(ConfineUnion(members, value, prefix, read, bound), ConfineUnion(members, value', prefix', read', bound'), ns)
    decreases members, 1
  {
    hide PrefixesRenamed, ValuesRenamed, InNamespace, ConfineShape;
    if members != [] {
      ShapeRenamed(members[0], value, value', prefix, prefix', ns);
      var m, m' := ConfineShape(members[0], value, prefix), ConfineShape(members[0], value', prefix');
      JoinedRenamed(read.owners, m.owners, ns);
      UnionRenamed(members[1..], value, value', prefix, prefix',
                   read.(owners := read.owners + m.owners, bounded := read.bounded || m.bounded),
                   read'.(owners := read'.owners + m'.owners, bounded := read'.bounded || m'.bounded),
                   if m.owners == [] && bound.None? then Some(m) else bound,
                   if m'.owners == [] && bound'.None? then Some(m') else bound', ns);
    }
  }

  lemma {:induction false} InterRenamed(patterns: seq<string>, prefix: PrefixReader, prefix': PrefixReader, owners: seq<Owner>,
                                        unread: Confinement, unread': Confinement, ns: string)
    requires PrefixesRenamed(prefix, prefix', ns) && Renamed(unread, unread', ns)
    ensures Renamed(ConfineInter(patterns, prefix, owners, unread), ConfineInter(patterns, prefix', InNamespace(owners, ns), unread'), ns)
  {
    hide PrefixesRenamed, ConfinePattern;
    if patterns != [] {
      PatternRenamed(patterns[0], prefix, prefix', ns);
      var m, m' := ConfinePattern(patterns[0], prefix), ConfinePattern(patterns[0], prefix');
      JoinedRenamed(owners, m.owners, ns);
      InterRenamed(patterns[1..], prefix, prefix', owners + m.owners, if m.unread then m else unread, if m'.unread then m' else unread', ns);
    }
  }

  lemma ConfineRenamed(term: Term, claim: string, value: ValueReader, value': ValueReader, prefix: PrefixReader, prefix': PrefixReader, w: bool, ns: string)
    requires ValuesRenamed(value, value', ns) && PrefixesRenamed(prefix, prefix', ns)
    ensures Renamed(Confine(term, claim, value, prefix, w), Confine(term, claim, value', prefix', w), ns)
  {
    hide ConfineShape, ValuesRenamed, PrefixesRenamed;
    if claim in term {
      ShapeRenamed(term[claim], value, value', prefix, prefix', ns);
    }
  }

  // ---- The classifier ----

  /** The classifier under another namespace, or another case rule. */
  ghost predicate OnlyNamesDiffer(c: Classifier, c': Classifier) {
    && c.facts.tenancy.Some? && c'.facts.tenancy.Some? && SameCensus(c.facts.tenancy.value, c'.facts.tenancy.value)
    && c'.grant == c.grant && c'.parser == c.parser
  }

  lemma ClaimRenamed(c: Classifier, c': Classifier, claim: TenancyClaim, term: Term)
    requires OnlyNamesDiffer(c, c')
    ensures Renamed(c.ClaimReading(c.facts.tenancy.value, claim, term), c'.ClaimReading(c'.facts.tenancy.value, claim, term), c'.facts.ns)
    ensures c'.IsRead(c'.facts.tenancy.value, claim) == c.IsRead(c.facts.tenancy.value, claim)
  {
    hide Confine, Tenancy.OwnerRun;
    var t, t' := c.facts.tenancy.value, c'.facts.tenancy.value;
    forall v ensures Renamed(ClaimValues(c.Iss(), t, claim)(v), ClaimValues(c'.Iss(), t', claim)(v), c'.facts.ns) {
      SameRun(t, t', v);
    }
    ConfineRenamed(term, claim.claim, ClaimValues(c.Iss(), t, claim), ClaimValues(c'.Iss(), t', claim), ClaimPrefixes(claim), ClaimPrefixes(claim),
                   c.WidenedOn(claim.claim), c'.facts.ns);
  }

  lemma SubjectRenamed(c: Classifier, c': Classifier, term: Term)
    requires OnlyNamesDiffer(c, c')
    ensures Renamed(c.SubjectReading(c.facts.tenancy.value, term), c'.SubjectReading(c'.facts.tenancy.value, term), c'.facts.ns)
  {
    hide Confine, OwnerStarts, SubjectOwners, SubjectValue;
    var t, t' := c.facts.tenancy.value, c'.facts.tenancy.value;
    forall v ensures Renamed(SubjectValues(c.Iss(), t)(v), SubjectValues(c'.Iss(), t')(v), c'.facts.ns) {
      SubjectValueRenamed(c.Iss(), c'.Iss(), t, t', v);
    }
    forall p ensures SubjectOwners(c'.Iss(), t', p, false) == InNamespace(SubjectOwners(c.Iss(), t, p, false), c'.facts.ns) {
      SubjectOwnersRenamed(c.Iss(), c'.Iss(), t, t', p, false);
    }
    ConfineRenamed(term, SUBJECT, SubjectValues(c.Iss(), t), SubjectValues(c'.Iss(), t'), SubjectPrefixes(c.Iss(), t), SubjectPrefixes(c'.Iss(), t'),
                   c.WidenedOn(SUBJECT), c'.facts.ns);
  }

  ghost predicate AllRenamed(cs: seq<Confinement>, cs': seq<Confinement>, ns: string) {
    |cs'| == |cs| && forall i | 0 <= i < |cs| :: Renamed(cs[i], cs'[i], ns)
  }

  lemma {:induction false} ClaimsRenamed(c: Classifier, c': Classifier, term: Term, n: nat)
    requires OnlyNamesDiffer(c, c') && n <= |c.facts.tenancy.value.claims|
    ensures AllRenamed(c.ClaimReadings(c.facts.tenancy.value, term, n), c'.ClaimReadings(c'.facts.tenancy.value, term, n), c'.facts.ns)
  {
    hide Classifier.ClaimReading, Classifier.IsRead, Renamed;
    if n > 0 {
      ClaimsRenamed(c, c', term, n - 1);
      ClaimRenamed(c, c', c.facts.tenancy.value.claims[n - 1], term);
    }
  }

  lemma {:induction false} PinsRenamed(cs: seq<Confinement>, cs': seq<Confinement>, ns: string)
    requires AllRenamed(cs, cs', ns)
    ensures |PinsOf(cs')| == |PinsOf(cs)| && forall i | 0 <= i < |PinsOf(cs)| :: PinsOf(cs')[i] == InNamespace(PinsOf(cs)[i], ns)
  {
    hide InNamespace;
    if cs != [] {
      PinsRenamed(cs[..|cs| - 1], cs'[..|cs| - 1], ns);
      assert Renamed(cs[|cs| - 1], cs'[|cs| - 1], ns);
    }
  }

  lemma DoubtsRenamed(cs: seq<Confinement>, cs': seq<Confinement>, ns: string)
    requires AllRenamed(cs, cs', ns)
    ensures AddedAll(cs').unread == AddedAll(cs).unread && AddedAll(cs').bounded == AddedAll(cs).bounded
  {
    hide AddedAll, PinsOf, InNamespace;
    AddedAllIs(cs);
    AddedAllIs(cs');
    forall i | 0 <= i < |cs|
      ensures cs[i] in cs && cs'[i] in cs' && cs'[i].bounded == cs[i].bounded && cs'[i].unread == cs[i].unread
      ensures cs'[i].owners == [] <==> cs[i].owners == []
    {
      assert Renamed(cs[i], cs'[i], ns);
    }
  }

  /** An alternative of a shared issuer is pinned by as many pins, and is as certain; only whose the owners are can differ. */
  lemma SharedRenamed(c: Classifier, c': Classifier, term: Term)
    requires OnlyNamesDiffer(c, c')
    ensures var pins, pins' := AddedAll(c.SharedReadings(c.facts.tenancy.value, term)).pins, AddedAll(c'.SharedReadings(c'.facts.tenancy.value, term)).pins;
            |pins'| == |pins| && (forall i | 0 <= i < |pins| :: pins'[i] == InNamespace(pins[i], c'.facts.ns))
    ensures c'.PlaceShared(term).state == c.PlaceShared(term).state
    ensures c'.PlaceShared(term).place.Platform? <==> c.PlaceShared(term).place.Platform?
  {
    hide AddedAll, Classifier.ClaimReadings, Classifier.SubjectReading, InNamespace, Classifier.RequestUnread, Classifier.Pinned, PinsOf;
    var t, t' := c.facts.tenancy.value, c'.facts.tenancy.value;
    var cs, cs' := c.SharedReadings(t, term), c'.SharedReadings(t', term);
    ClaimsRenamed(c, c', term, |t.claims|);
    SubjectRenamed(c, c', term);
    assert AllRenamed(cs, cs', c'.facts.ns);
    AddedAllIs(cs);
    AddedAllIs(cs');
    PinsRenamed(cs, cs', c'.facts.ns);
    DoubtsRenamed(cs, cs', c'.facts.ns);
    SameRequest(c, c');
    PinnedIsExact(c, AddedAll(cs).pins);
    PinnedIsExact(c', AddedAll(cs').pins);
  }

  lemma PinnedIsExact(c: Classifier, pins: seq<seq<Owner>>)
    ensures c.Pinned(pins, Confinements.Pinned).state.ExactState?
    ensures c.Pinned(pins, Confinements.Pinned).place == if c.SomePinIsYours(pins) then Yours else Outsider
  {
  }

  lemma SameRequest(c: Classifier, c': Classifier)
    requires c'.grant == c.grant && c'.parser == c.parser
    ensures c'.RequestUnread() == c.RequestUnread()
  {
  }
}

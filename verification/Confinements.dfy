/** Reading one claim's constraint for the owners of its values (internal/ring/classify.go). */
module Confinements {
  import opened Strings
  import opened Globs
  import opened StringSets
  import opened Terms
  import opened Owners
  import opened Starts
  import opened Subjects

  /** What decided a population's place. */
  datatype Basis =
    | IssuerNotSurveyed | TokensWithoutAccount | AccountNotVerified | AnyIssuer | PrincipalNotModelled
    | Unpinned | UnreadConstraint | TenancyNotRecorded | OpenTenant | MembershipNotVerified | Pinned | ControlledTenant
    | SAMLProvider | AccountSAMLProviders | ServicePrincipal | AnyService | ServiceIntermediary

  /** The owners every value a constraint admits belongs to, [] where it names none, and why it names none. */
  datatype Confinement = Confinement(owners: seq<Owner>, unread: bool, doubt: Basis, starts: seq<string>, bounded: bool)

  const NOTHING_READ := Confinement([], false, IssuerNotSurveyed, [], false)

  function Belonging(owners: seq<Owner>): Confinement {
    NOTHING_READ.(owners := owners)
  }

  function NotRead(doubt: Basis): Confinement {
    NOTHING_READ.(unread := true, doubt := doubt)
  }

  // ---- confineShape ----

  /** Reads one exact value. */
  type ValueReader = string -> Confinement

  /** Reads what every value beginning with a text belongs to; None where patterns tell of no owner. */
  type PrefixReader = Option<string -> seq<Owner>>

  function ConfineShape(s: StringSet, value: ValueReader, prefix: PrefixReader): Confinement
    decreases s, 0
  {
    match s
    case Exact(v) => value(v)
    case Glob(pattern) => ConfinePattern(pattern, prefix)
    case Union(members) => ConfineUnion(members, value, prefix, NOTHING_READ, None)
    case Inter(patterns) => ConfineInter(patterns, prefix, [], NOTHING_READ)
    case Unknown(_) => NotRead(UnreadConstraint)
    case _ => NOTHING_READ
  }

  function ConfinePattern(pattern: string, prefix: PrefixReader): Confinement {
    if prefix.None? then NotRead(UnreadConstraint) else Belonging(prefix.value(LiteralPrefix(pattern)))
  }

  /** The members of a union, left to right; read and bound hold what the earlier ones said, and one that pins nothing settles it. */
  function ConfineUnion(members: seq<StringSet>, value: ValueReader, prefix: PrefixReader, read: Confinement, bound: Option<Confinement>): Confinement
    decreases members, 1
  {
    if members == [] then if bound.Some? then bound.value else read
    else
      var m := ConfineShape(members[0], value, prefix);
      if m.owners == [] && !m.bounded then m
      else
        ConfineUnion(members[1..], value, prefix,
                     read.(owners := read.owners + m.owners, bounded := read.bounded || m.bounded),
                     if m.owners == [] && bound.None? then Some(m) else bound)
  }

  /** The patterns of an intersection, whose owners add up: one that pins is enough. */
  function ConfineInter(patterns: seq<string>, prefix: PrefixReader, owners: seq<Owner>, unread: Confinement): Confinement {
    if patterns == [] then if owners == [] then unread else Belonging(owners)
    else
      var m := ConfinePattern(patterns[0], prefix);
      ConfineInter(patterns[1..], prefix, owners + m.owners, if m.unread then m else unread)
  }

  method ReadShape(s: StringSet, value: ValueReader, prefix: PrefixReader) returns (read: Confinement)
    ensures read == ConfineShape(s, value, prefix)
    decreases s
  {
    match s
    case Exact(v) => return value(v);
    case Glob(pattern) => return ConfinePattern(pattern, prefix);
    case Union(members) =>
      read := NOTHING_READ;
      var bound := None;
      for i := 0 to |members|
        invariant ConfineShape(s, value, prefix) == ConfineUnion(members[i..], value, prefix, read, bound)
      {
        assert members[i..][0] == members[i] && members[i..][1..] == members[i + 1..];
        var member := ReadShape(members[i], value, prefix);
        if member.owners == [] && !member.bounded {
          return member;
        }
        if member.owners == [] && bound.None? {
          bound := Some(member);
        }
        read := read.(owners := read.owners + member.owners, bounded := read.bounded || member.bounded);
      }
      return if bound.Some? then bound.value else read;
    case Inter(patterns) =>
      var owners, unread := [], NOTHING_READ;
      for i := 0 to |patterns|
        invariant ConfineShape(s, value, prefix) == ConfineInter(patterns[i..], prefix, owners, unread)
      {
        assert patterns[i..][0] == patterns[i] && patterns[i..][1..] == patterns[i + 1..];
        var member := ConfinePattern(patterns[i], prefix);
        owners := owners + member.owners;
        if member.unread {
          unread := member;
        }
      }
      return if owners == [] then unread else Belonging(owners);
    case Unknown(_) => return NotRead(UnreadConstraint);
    case Full => return NOTHING_READ;
    case Empty => return NOTHING_READ;
  }

  // ---- A pin holds for every value ----

  /** What owners say of a value: it still holds of more owners. */
  ghost predicate Widens(belongs: (seq<Owner>, string) -> bool) {
    forall a, b, v | belongs(a, v) && (forall o | o in a :: o in b) :: belongs(b, v)
  }

  ghost predicate ReadsValues(value: ValueReader, belongs: (seq<Owner>, string) -> bool) {
    forall v | value(v).owners != [] :: belongs(value(v).owners, v)
  }

  ghost predicate ReadsPrefixes(prefix: PrefixReader, belongs: (seq<Owner>, string) -> bool) {
    prefix.Some? ==> forall p, v | p <= v && prefix.value(p) != [] :: belongs(prefix.value(p), v)
  }

  /**
   * Whatever the owners of one value, and of all values that begin with a text, are known to say of each value,
   * the owners a whole shape is confined to say of every value it admits.
   */
  lemma {:induction false} ConfineShapeIsSound(s: StringSet, value: ValueReader, prefix: PrefixReader,
                                             belongs: (seq<Owner>, string) -> bool, v: string)
    requires Widens(belongs) && ReadsValues(value, belongs) && ReadsPrefixes(prefix, belongs)
    requires s.Contains(v) && ConfineShape(s, value, prefix).owners != []
    ensures belongs(ConfineShape(s, value, prefix).owners, v)
    decreases s
  {
    match s
    case Glob(pattern) =>
      MatchesBeginWithPrefix(pattern, v);
    case Union(members) =>
      var m :| m in members && m.Contains(v);
      var i :| 0 <= i < |members| && members[i] == m;
      UnionHoldsEach(members, value, prefix, NOTHING_READ, None, i);
      ConfineShapeIsSound(m, value, prefix, belongs, v);
    case Inter(patterns) =>
      var i := InterHoldsOne(patterns, prefix, [], NOTHING_READ);
      MatchesBeginWithPrefix(patterns[i], v);
      assert belongs(prefix.value(LiteralPrefix(patterns[i])), v);
    case _ =>
  }

  lemma {:induction false} UnionHoldsEach(members: seq<StringSet>, value: ValueReader, prefix: PrefixReader, read: Confinement,
                                        bound: Option<Confinement>, i: nat)
    requires i < |members| && ConfineUnion(members, value, prefix, read, bound).owners != []
    requires bound.Some? ==> bound.value.owners == []
    ensures ConfineShape(members[i], value, prefix).owners != []
    ensures forall o | o in ConfineShape(members[i], value, prefix).owners :: o in ConfineUnion(members, value, prefix, read, bound).owners
    decreases |members|
  {
    hide ConfineShape;
    var m := ConfineShape(members[0], value, prefix);
    var read' := read.(owners := read.owners + m.owners, bounded := read.bounded || m.bounded);
    var bound' := if m.owners == [] && bound.None? then Some(m) else bound;
    UnionKeeps(members[1..], value, prefix, read', bound');
    if i > 0 {
      UnionHoldsEach(members[1..], value, prefix, read', bound', i - 1);
    }
  }

  lemma {:induction false} UnionKeeps(members: seq<StringSet>, value: ValueReader, prefix: PrefixReader, read: Confinement,
                                    bound: Option<Confinement>)
    requires ConfineUnion(members, value, prefix, read, bound).owners != []
    requires bound.Some? ==> bound.value.owners == []
    ensures bound.None? && forall o | o in read.owners :: o in ConfineUnion(members, value, prefix, read, bound).owners
    decreases |members|
  {
    hide ConfineShape;
    if members != [] {
      var m := ConfineShape(members[0], value, prefix);
      var read' := read.(owners := read.owners + m.owners, bounded := read.bounded || m.bounded);
      UnionKeeps(members[1..], value, prefix, read', if m.owners == [] && bound.None? then Some(m) else bound);
    }
  }

  lemma {:induction false} InterHoldsOne(patterns: seq<string>, prefix: PrefixReader, owners: seq<Owner>, unread: Confinement) returns (i: nat)
    requires ConfineInter(patterns, prefix, owners, unread).owners != [] && owners == [] && unread.owners == []
    ensures i < |patterns| && prefix.Some? && prefix.value(LiteralPrefix(patterns[i])) != []
    ensures forall o | o in prefix.value(LiteralPrefix(patterns[i])) :: o in ConfineInter(patterns, prefix, owners, unread).owners
  {
    hide LiteralPrefix;
    var m := ConfinePattern(patterns[0], prefix);
    if m.owners == [] {
      i := InterHoldsOne(patterns[1..], prefix, owners + m.owners, if m.unread then m else unread);
      i := i + 1;
    } else {
      i := 0;
      InterKeeps(patterns[1..], prefix, owners + m.owners, if m.unread then m else unread);
    }
  }

  lemma {:induction false} InterKeeps(patterns: seq<string>, prefix: PrefixReader, owners: seq<Owner>, unread: Confinement)
    requires owners != []
    ensures forall o | o in owners :: o in ConfineInter(patterns, prefix, owners, unread).owners
  {
    if patterns != [] {
      var m := ConfinePattern(patterns[0], prefix);
      InterKeeps(patterns[1..], prefix, owners + m.owners, if m.unread then m else unread);
    }
  }

  // ---- confine ----

  /** What a constraint on a claim says; a claim a caveat may be on is unread where it is not pinned. */
  function Confine(term: Term, claim: string, value: ValueReader, prefix: PrefixReader, widened: bool): Confinement {
    var read := if claim in term then ConfineShape(term[claim], value, prefix) else NOTHING_READ;
    if read.owners == [] && !read.unread && widened then NotRead(UnreadConstraint) else read
  }

  // ---- The subject ----

  const SUBJECT := "sub"

  /** A value that looks like a pattern. */
  predicate Starred(v: string) {
    '*' in v || '?' in v
  }

  predicate SomeFormReads(iss: Issuer, t: Tenancy, v: string) {
    exists f | f in t.forms :: ReadForm(iss, t, f, v, true).fits
  }

  function SubjectValue(iss: Issuer, t: Tenancy, v: string): Confinement {
    if !Starred(v) then Belonging(SubjectOwners(iss, t, v, true))
    else if SomeFormReads(iss, t, v) then Belonging(SubjectOwners(iss, t, v, true)).(bounded := true)
    else Belonging(SubjectOwners(iss, t, LiteralPrefix(v), false)).(bounded := true)
  }

  function SubjectValues(iss: Issuer, t: Tenancy): ValueReader {
    v => SubjectValue(iss, t, v)
  }

  function SubjectPrefixes(iss: Issuer, t: Tenancy): PrefixReader {
    Some(p => SubjectOwners(iss, t, p, false))
  }

  function ConfineSubject(iss: Issuer, t: Tenancy, s: StringSet): Confinement {
    ConfineShape(s, SubjectValues(iss, t), SubjectPrefixes(iss, t))
  }

  /** What the constraint on the subject says, read by the forms. */
  function Subject(iss: Issuer, t: Tenancy, term: Term, widened: bool): Confinement {
    if SUBJECT in term && t.ownerCharacters == [] then NotRead(TenancyNotRecorded)
    else
      var read := Confine(term, SUBJECT, SubjectValues(iss, t), SubjectPrefixes(iss, t), widened);
      if SUBJECT in term && read.owners == [] && !read.unread then read.(starts := OwnerStarts(iss, t, term[SUBJECT])) else read
  }

  /**
   * Pin soundness: where a shape on the subject is confined to owners, no value it admits begins with a never-pin
   * literal, and each form that reads the value whole closes one of those owners on the way.
   */
  lemma PinIsSound(iss: Issuer, t: Tenancy, s: StringSet, v: string)
    requires s.Contains(v) && ConfineSubject(iss, t, s).owners != []
    ensures SubjectBelongs(iss, t, ConfineSubject(iss, t, s).owners, v)
  {
    hide SubjectBelongs;
    var belongs := (owners: seq<Owner>, v: string) => SubjectBelongs(iss, t, owners, v);
    SubjectBelongsToMore(iss, t);
    SubjectValuesAreSound(iss, t);
    ConfineShapeIsSound(s, SubjectValues(iss, t), SubjectPrefixes(iss, t), belongs, v);
  }

  lemma SubjectBelongsToMore(iss: Issuer, t: Tenancy)
    ensures Widens((owners: seq<Owner>, v: string) => SubjectBelongs(iss, t, owners, v))
  {
    hide ReadForm, Closed;
  }

  lemma SubjectValuesAreSound(iss: Issuer, t: Tenancy)
    ensures ReadsValues(SubjectValues(iss, t), (owners: seq<Owner>, v: string) => SubjectBelongs(iss, t, owners, v))
    ensures ReadsPrefixes(SubjectPrefixes(iss, t), (owners: seq<Owner>, v: string) => SubjectBelongs(iss, t, owners, v))
  {
    hide SubjectBelongs, SubjectOwners;
    forall v | SubjectValue(iss, t, v).owners != [] ensures SubjectBelongs(iss, t, SubjectValue(iss, t, v).owners, v) {
      if !Starred(v) || SomeFormReads(iss, t, v) {
        SubjectOwnersAreSound(iss, t, v, true, v);
      } else {
        SubjectOwnersAreSound(iss, t, LiteralPrefix(v), false, v);
      }
    }
    forall p, v | p <= v && SubjectOwners(iss, t, p, false) != [] ensures SubjectBelongs(iss, t, SubjectOwners(iss, t, p, false), v) {
      SubjectOwnersAreSound(iss, t, p, false, v);
    }
  }

  // ---- ownerStarts ----

  function OwnerStarts(iss: Issuer, t: Tenancy, s: StringSet): seq<string>
    decreases s, 0
  {
    match s
    case Glob(pattern) => PatternStarts(iss, t, pattern)
    case Union(members) => UnionStarts(iss, t, members, [])
    case Inter(patterns) => InterStarts(iss, t, patterns, [])
    case _ => []
  }

  function PatternStarts(iss: Issuer, t: Tenancy, pattern: string): seq<string> {
    var start := WrittenStart(iss, t, LiteralPrefix(pattern));
    if start == "" then [] else [start]
  }

  /** The starts of the members that pin no owner, together; one of those without a start leaves none. */
  function UnionStarts(iss: Issuer, t: Tenancy, members: seq<StringSet>, starts: seq<string>): seq<string>
    decreases members, 1
  {
    if members == [] then Shortest(starts)
    else if ConfineSubject(iss, t, members[0]).owners != [] then UnionStarts(iss, t, members[1..], starts)
    else
      var ms := OwnerStarts(iss, t, members[0]);
      if ms == [] then [] else UnionStarts(iss, t, members[1..], starts + ms)
  }

  /** The starts every pattern that writes any agrees with. */
  function InterStarts(iss: Issuer, t: Tenancy, patterns: seq<string>, starts: seq<string>): seq<string> {
    if patterns == [] then Shortest(starts)
    else
      var ms := PatternStarts(iss, t, patterns[0]);
      if ms == [] then InterStarts(iss, t, patterns[1..], starts)
      else
        var both := if starts == [] then ms else LongerOf(starts, ms);
        if both == [] then [] else InterStarts(iss, t, patterns[1..], both)
  }

  method FindOwnerStarts(iss: Issuer, t: Tenancy, s: StringSet) returns (starts: seq<string>)
    ensures starts == OwnerStarts(iss, t, s)
    decreases s
  {
    hide ConfineSubject, WrittenStart, LongerOf, Shortest, LiteralPrefix;
    match s
    case Glob(pattern) =>
      var start := FindWrittenStart(iss, t, LiteralPrefix(pattern));
      return if start == "" then [] else [start];
    case Union(members) =>
      starts := [];
      for i := 0 to |members|
        invariant OwnerStarts(iss, t, s) == UnionStarts(iss, t, members[i..], starts)
      {
        assert members[i..][0] == members[i] && members[i..][1..] == members[i + 1..];
        if ConfineSubject(iss, t, members[i]).owners == [] {
          var ms := FindOwnerStarts(iss, t, members[i]);
          if ms == [] {
            return [];
          }
          starts := starts + ms;
        }
      }
      starts := BuildShortest(starts);
    case Inter(patterns) =>
      starts := [];
      for i := 0 to |patterns|
        invariant OwnerStarts(iss, t, s) == InterStarts(iss, t, patterns[i..], starts)
      {
        assert patterns[i..][0] == patterns[i] && patterns[i..][1..] == patterns[i + 1..];
        var start := FindWrittenStart(iss, t, LiteralPrefix(patterns[i]));
        var ms := if start == "" then [] else [start];
        if ms != [] {
          if starts == [] {
            starts := ms;
          } else {
            starts := BuildLongerOf(starts, ms);
          }
          if starts == [] {
            return [];
          }
        }
      }
      starts := BuildShortest(starts);
    case Exact(_) => return [];
    case Unknown(_) => return [];
    case Full => return [];
    case Empty => return [];
  }

  /** The shape admits the subject, and not only through a member of a union that pins an owner. */
  ghost predicate Open(iss: Issuer, t: Tenancy, s: StringSet, subject: string) {
    match s
    case Union(members) => exists m | m in members :: ConfineSubject(iss, t, m).owners == [] && Open(iss, t, m, subject)
    case _ => s.Contains(subject)
  }

  /** Whichever form reads a subject the shape admits, outside what pins an owner, its owner's name begins with one of the starts. */
  lemma {:induction false} OwnerStartsAreSound(iss: Issuer, t: Tenancy, s: StringSet, subject: string)
    requires OwnerStarts(iss, t, s) != [] && Open(iss, t, s, subject)
    ensures SubjectStarts(iss, t, OwnerStarts(iss, t, s), subject)
    decreases s, 0
  {
    hide SubjectStarts, ConfineSubject, WrittenStart, LiteralPrefix;
    match s
    case Glob(pattern) =>
      PatternStartsAreSound(iss, t, pattern, subject);
    case Union(members) =>
      var m :| m in members && ConfineSubject(iss, t, m).owners == [] && Open(iss, t, m, subject);
      var i :| 0 <= i < |members| && members[i] == m;
      var ms := UnionHolds(iss, t, members, [], i, subject);
      OwnerStartsAreSound(iss, t, m, subject);
      StartsFromMore(iss, t, ms, OwnerStarts(iss, t, s), subject);
    case Inter(patterns) =>
      InterStartsAreSound(iss, t, patterns, [], subject);
    case _ =>
  }

  lemma PatternStartsAreSound(iss: Issuer, t: Tenancy, pattern: string, subject: string)
    requires PatternStarts(iss, t, pattern) != [] && Matches(pattern, subject)
    ensures SubjectStarts(iss, t, PatternStarts(iss, t, pattern), subject)
  {
    hide SubjectStarts, WrittenStart, LiteralPrefix;
    MatchesBeginWithPrefix(pattern, subject);
    WrittenStartIsSound(iss, t, LiteralPrefix(pattern), subject);
  }

  /** What begins with one of some starts begins with one of others. */
  ghost predicate Extends(ms: seq<string>, starts: seq<string>) {
    forall text | BeginsWithOne(ms, text) :: BeginsWithOne(starts, text)
  }

  lemma StartsFromMore(iss: Issuer, t: Tenancy, ms: seq<string>, starts: seq<string>, subject: string)
    requires SubjectStarts(iss, t, ms, subject) && Extends(ms, starts)
    ensures SubjectStarts(iss, t, starts, subject)
  {
    hide ReadForm, BeginsWithOne;
  }

  /** The starts of a union's open member are among those its own begin. */
  lemma {:induction false} UnionHolds(iss: Issuer, t: Tenancy, members: seq<StringSet>, starts: seq<string>, i: nat, subject: string)
    returns (ms: seq<string>)
    requires UnionStarts(iss, t, members, starts) != [] && i < |members| && ConfineSubject(iss, t, members[i]).owners == []
    ensures ms == OwnerStarts(iss, t, members[i]) && ms != [] && Extends(ms, UnionStarts(iss, t, members, starts))
    decreases |members|
  {
    hide ConfineSubject, Shortest;
    ms := OwnerStarts(iss, t, members[i]);
    if i == 0 {
      UnionStartsKeep(iss, t, members[1..], starts + ms);
      assert forall s | s in ms :: s in starts + ms;
    } else if ConfineSubject(iss, t, members[0]).owners != [] {
      ms := UnionHolds(iss, t, members[1..], starts, i - 1, subject);
    } else {
      ms := UnionHolds(iss, t, members[1..], starts + OwnerStarts(iss, t, members[0]), i - 1, subject);
    }
  }

  lemma {:induction false} UnionStartsKeep(iss: Issuer, t: Tenancy, members: seq<StringSet>, starts: seq<string>)
    requires UnionStarts(iss, t, members, starts) != []
    ensures Extends(starts, UnionStarts(iss, t, members, starts))
    decreases |members|
  {
    hide ConfineSubject, Shortest;
    if members == [] {
      ShortestIs(starts);
    } else if ConfineSubject(iss, t, members[0]).owners != [] {
      UnionStartsKeep(iss, t, members[1..], starts);
    } else {
      var ms := OwnerStarts(iss, t, members[0]);
      UnionStartsKeep(iss, t, members[1..], starts + ms);
      assert forall s | s in starts :: s in starts + ms;
    }
  }

  lemma {:induction false} InterStartsAreSound(iss: Issuer, t: Tenancy, patterns: seq<string>, starts: seq<string>, subject: string)
    requires InterStarts(iss, t, patterns, starts) != [] && forall p | p in patterns :: Matches(p, subject)
    requires starts != [] ==> SubjectStarts(iss, t, starts, subject)
    ensures SubjectStarts(iss, t, InterStarts(iss, t, patterns, starts), subject)
  {
    hide SubjectStarts, WrittenStart, LiteralPrefix, LongerOf, Shortest;
    if patterns == [] {
      ShortestIs(starts);
      StartsFromMore(iss, t, starts, Shortest(starts), subject);
    } else {
      var ms := PatternStarts(iss, t, patterns[0]);
      if ms == [] {
        InterStartsAreSound(iss, t, patterns[1..], starts, subject);
      } else {
        PatternStartsAreSound(iss, t, patterns[0], subject);
        if starts != [] {
          BothStart(iss, t, starts, ms, subject);
        }
        InterStartsAreSound(iss, t, patterns[1..], if starts == [] then ms else LongerOf(starts, ms), subject);
      }
    }
  }

  lemma BothStart(iss: Issuer, t: Tenancy, a: seq<string>, b: seq<string>, subject: string)
    requires SubjectStarts(iss, t, a, subject) && SubjectStarts(iss, t, b, subject)
    ensures SubjectStarts(iss, t, LongerOf(a, b), subject)
  {
    hide ReadForm, BeginsWithOne, LongerOf;
    forall f | f in t.forms && ReadForm(iss, t, f, subject, true).fits
      ensures f.lead <= subject && BeginsWithOne(LongerOf(a, b), subject[|f.lead|..])
    {
      LongerOfIsExact(a, b, subject[|f.lead|..]);
    }
  }
}

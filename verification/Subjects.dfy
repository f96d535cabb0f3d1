/** Reading a subject through the forms that lead with a tenant (internal/ring/classify.go, facts.go). */
module Subjects {
  import opened Strings
  import opened Owners
  import opened Starts

  datatype Established = Unverified | Yes | No

  /** A claim that tells a token's tenant. */
  datatype TenancyClaim = TenancyClaim(claim: string, scope: Scope, kind: Kind, recyclable: Established)

  datatype Part = Part(kind: Kind, delimiter: string)

  /** A shape of subjects: lead, then each part followed by its delimiter, the tenant's names among them. */
  datatype SubjectForm = SubjectForm(lead: string, scope: Scope, parts: seq<Part>)

  datatype CharRange = CharRange(first: char, last: char)

  /** The census's record of an issuer that many tenants share. */
  datatype Tenancy = Tenancy(
    claims: seq<TenancyClaim>,
    notTenancy: seq<string>,
    forms: seq<SubjectForm>,
    neverPin: seq<string>,
    ownerCharacters: seq<CharRange>,
    namesIgnoreCase: bool)
  {
    predicate Allows(c: char) {
      exists r | r in ownerCharacters :: r.first <= c <= r.last
    }

    /** s as far as its characters are all allowed. */
    function OwnerRun(s: string): (run: string)
      ensures run <= s && (forall c | c in run :: Allows(c)) && (|run| < |s| ==> !Allows(s[|run|]))
    {
      if s == "" || !Allows(s[0]) then "" else [s[0]] + OwnerRun(s[1..])
    }

    /** The form has a scope, and no delimiter of it can stand in a name. */
    predicate Readable(f: SubjectForm) {
      !f.scope.NoScope? && forall p | p in f.parts :: |p.delimiter| == 1 && !Allows(p.delimiter[0])
    }

    function ClaimsOf(scope: Scope, kind: Kind, n: nat): seq<TenancyClaim>
      requires n <= |claims|
    {
      if n == 0 then []
      else ClaimsOf(scope, kind, n - 1) + if claims[n - 1].scope == scope && claims[n - 1].kind == kind then [claims[n - 1]] else []
    }

    /** The owner in such a part counts as recyclable unless exactly one claim is like it, and that one is not. */
    predicate PartRecyclable(scope: Scope, kind: Kind) {
      var these := ClaimsOf(scope, kind, |claims|);
      |these| != 1 || these[0].recyclable != No
    }
  }

  /** The issuer a subject is read for, and where its owners are declared. */
  datatype Issuer = Issuer(name: string, ns: string)

  /** One form against one text: fits, the owner if one is complete, and otherwise the unfinished name at its end. */
  datatype FormReading = FormReading(owner: Option<Owner>, open: string, fits: bool)

  const NO_FIT := FormReading(None, "", false)

  /** text has lead in front, or is itself the front of lead where more may follow. */
  predicate Leads(text: string, lead: string, complete: bool) {
    lead <= text || (!complete && text <= lead)
  }

  function PartOwner(iss: Issuer, t: Tenancy, f: SubjectForm, part: Part, run: string, name: string): Owner {
    Owner(iss.name, iss.ns, f.scope, part.kind, run, if part.kind.IDKind? then name else "", t.PartRecyclable(f.scope, part.kind), false)
  }

  /** The reading of the parts from part k on, with name and owner what the parts before it wrote and closed. */
  function ReadParts(iss: Issuer, t: Tenancy, f: SubjectForm, k: nat, rest: string, name: string, owner: Option<Owner>, complete: bool): FormReading
    requires k <= |f.parts|
    decreases |f.parts| - k
  {
    if k == |f.parts| then FormReading(owner, "", true)
    else
      var part, run := f.parts[k], t.OwnerRun(rest);
      var after := rest[|run|..];
      if after == "" && !complete && owner.None? then FormReading(None, run, true)
      else if after == "" && !complete then FormReading(owner, "", true)
      else if after != "" && !(part.delimiter <= after) then NO_FIT
      else if run == "" then FormReading(owner, "", true)
      else
        var o := PartOwner(iss, t, f, part, run, name);
        if after == "" then FormReading(Some(o), "", true)
        else ReadParts(iss, t, f, k + 1, after[|part.delimiter|..], if part.kind.IDKind? then name else run, Some(o), complete)
  }

  /** readForm: text read by one form, as a whole subject or as the beginning of one. */
  function ReadForm(iss: Issuer, t: Tenancy, f: SubjectForm, text: string, complete: bool): FormReading {
    if !Leads(text, f.lead, complete) then NO_FIT
    else if |text| < |f.lead| || !t.Readable(f) then FormReading(None, "", true)
    else ReadParts(iss, t, f, 0, text[|f.lead|..], "", None, complete)
  }

  /** readForm's loop over a form's parts. */
  method ReadFormParts(iss: Issuer, t: Tenancy, f: SubjectForm, text: string, complete: bool) returns (reading: FormReading)
    ensures reading == ReadForm(iss, t, f, text, complete)
  {
    if !Leads(text, f.lead, complete) {
      return NO_FIT;
    }
    if |text| < |f.lead| || !t.Readable(f) {
      return FormReading(None, "", true);
    }
    var rest, name, owner := text[|f.lead|..], "", None;
    for k := 0 to |f.parts|
      invariant ReadForm(iss, t, f, text, complete) == ReadParts(iss, t, f, k, rest, name, owner, complete)
    {
      var part := f.parts[k];
      var run := t.OwnerRun(rest);
      var after := rest[|run|..];
      if after == "" && !complete && owner.None? {
        return FormReading(None, run, true);
      } else if after == "" && !complete {
        return FormReading(owner, "", true);
      } else if after != "" && !(part.delimiter <= after) {
        return NO_FIT;
      } else if run == "" {
        return FormReading(owner, "", true);
      }
      var o := PartOwner(iss, t, f, part, run, name);
      if part.kind.NameKind? {
        name := run;
      }
      owner := Some(o);
      if after == "" {
        return FormReading(owner, "", true);
      }
      rest := after[|part.delimiter|..];
    }
    return FormReading(owner, "", true);
  }

  // ---- The owners a text closes ----

  /** Every owner the parts from part k on close, shallowest first; the last is the reading's owner. */
  function ClosedParts(iss: Issuer, t: Tenancy, f: SubjectForm, k: nat, rest: string, name: string, complete: bool): seq<Owner>
    requires k <= |f.parts|
    decreases |f.parts| - k
  {
    if k == |f.parts| then []
    else
      var part, run := f.parts[k], t.OwnerRun(rest);
      var after := rest[|run|..];
      if run == "" || (after == "" && !complete) || (after != "" && !(part.delimiter <= after)) then []
      else
        var o := PartOwner(iss, t, f, part, run, name);
        [o] + if after == "" then []
              else ClosedParts(iss, t, f, k + 1, after[|part.delimiter|..], if part.kind.IDKind? then name else run, complete)
  }

  /** The owners a whole subject closes as a form reads it: a repository's owner, then its owner by id, and so on. */
  function Closed(iss: Issuer, t: Tenancy, f: SubjectForm, text: string, complete: bool): seq<Owner> {
    if f.lead <= text && t.Readable(f) then ClosedParts(iss, t, f, 0, text[|f.lead|..], "", complete) else []
  }

  /** A form's owner is the deepest its text closes. */
  lemma {:induction false} OwnerIsDeepestPart(iss: Issuer, t: Tenancy, f: SubjectForm, k: nat, rest: string, name: string,
                                            owner: Option<Owner>, complete: bool)
    requires k <= |f.parts| && ReadParts(iss, t, f, k, rest, name, owner, complete).fits
    ensures var closed := ClosedParts(iss, t, f, k, rest, name, complete);
            ReadParts(iss, t, f, k, rest, name, owner, complete).owner == if closed == [] then owner else Some(closed[|closed| - 1])
    decreases |f.parts| - k
  {
    hide Tenancy.OwnerRun, PartOwner;
    if k < |f.parts| {
      var part, run := f.parts[k], t.OwnerRun(rest);
      var after := rest[|run|..];
      if after != "" && part.delimiter <= after && run != "" {
        var name' := if part.kind.IDKind? then name else run;
        OwnerIsDeepestPart(iss, t, f, k + 1, after[|part.delimiter|..], name', Some(PartOwner(iss, t, f, part, run, name)), complete);
      }
    }
  }

  lemma OwnerIsDeepest(iss: Issuer, t: Tenancy, f: SubjectForm, text: string, complete: bool)
    requires ReadForm(iss, t, f, text, complete).fits
    ensures var closed := Closed(iss, t, f, text, complete);
            ReadForm(iss, t, f, text, complete).owner == if closed == [] then None else Some(closed[|closed| - 1])
  {
    hide ReadParts, ClosedParts, Tenancy.Readable;
    if |text| >= |f.lead| && t.Readable(f) {
      OwnerIsDeepestPart(iss, t, f, 0, text[|f.lead|..], "", None, complete);
    }
  }

  // ---- A longer text ----

  /** The run at the head of a longer text is the same run where a character the name cannot hold ends it. */
  lemma {:induction false} RunExtends(t: Tenancy, short: string, long: string)
    requires short <= long
    ensures t.OwnerRun(short) <= t.OwnerRun(long)
    ensures |t.OwnerRun(short)| < |short| ==> t.OwnerRun(long) == t.OwnerRun(short)
  {
    if short != "" && t.Allows(short[0]) {
      RunExtends(t, short[1..], long[1..]);
    }
  }

  /** Text left behind a run: of a longer text it is longer, begins alike, and so begins with a part's delimiter alike. */
  lemma AfterExtends(t: Tenancy, f: SubjectForm, k: nat, short: string, long: string)
    requires k < |f.parts| && t.Readable(f) && short <= long && t.OwnerRun(short) != short
    ensures var after, longAfter := short[|t.OwnerRun(short)|..], long[|t.OwnerRun(long)|..];
            && t.OwnerRun(long) == t.OwnerRun(short) && after != "" && after <= longAfter && |f.parts[k].delimiter| == 1
            && (f.parts[k].delimiter <= after <==> f.parts[k].delimiter <= longAfter)
            && after[1..] <= longAfter[1..]
  {
    hide Tenancy.Allows;
    RunExtends(t, short, long);
    hide Tenancy.OwnerRun;
    assert f.parts[k] in f.parts;
    var run := t.OwnerRun(short);
    assert run == short[..|run|] && short[..|short|] == short;
    var after, longAfter := short[|run|..], long[|run|..];
    assert after == longAfter[..|after|];
    assert after[1..] == longAfter[1..][..|after[1..]|];
  }

  /** One part read: what the reading and the owners closed are, by what stands behind the part's run. */
  lemma PartRead(iss: Issuer, t: Tenancy, f: SubjectForm, k: nat, rest: string, name: string, owner: Option<Owner>, complete: bool)
    requires k < |f.parts|
    ensures var part, run := f.parts[k], t.OwnerRun(rest);
            var after := rest[|run|..];
            var reading, closed := ReadParts(iss, t, f, k, rest, name, owner, complete), ClosedParts(iss, t, f, k, rest, name, complete);
            && (after == "" && !complete ==> reading.fits && closed == [])
            && (after != "" && !(part.delimiter <= after) ==> !reading.fits)
            && (after != "" && part.delimiter <= after && run == "" ==> reading.fits && closed == [])
            && (after != "" && part.delimiter <= after && run != "" ==>
                  var o, name' := PartOwner(iss, t, f, part, run, name), if part.kind.IDKind? then name else run;
                  && reading == ReadParts(iss, t, f, k + 1, after[|part.delimiter|..], name', Some(o), complete)
                  && closed == [o] + ClosedParts(iss, t, f, k + 1, after[|part.delimiter|..], name', complete))
  {
    hide Tenancy.OwnerRun, PartOwner;
  }

  lemma ConsBegins(o: Owner, xs: seq<Owner>, ys: seq<Owner>)
    requires xs <= ys
    ensures [o] + xs <= [o] + ys
  {
  }

  /** Extending a text: a form that reads the longer one reads the shorter, and closes in the longer all it closed. */
  lemma {:induction false} PartsExtend(iss: Issuer, t: Tenancy, f: SubjectForm, k: nat, short: string, long: string, name: string,
                                       owner: Option<Owner>, complete: bool)
    requires k <= |f.parts| && short <= long && t.Readable(f)
    requires ReadParts(iss, t, f, k, long, name, owner, complete).fits
    ensures ReadParts(iss, t, f, k, short, name, owner, false).fits
    ensures ClosedParts(iss, t, f, k, short, name, false) <= ClosedParts(iss, t, f, k, long, name, complete)
    decreases |f.parts| - k
  {
    if k == |f.parts| {
    } else {
      hide Tenancy.OwnerRun, PartOwner, Tenancy.Allows, Tenancy.Readable, ReadParts, ClosedParts;
      PartRead(iss, t, f, k, short, name, owner, false);
      PartRead(iss, t, f, k, long, name, owner, complete);
      var part, run := f.parts[k], t.OwnerRun(short);
      if run != short {
        AfterExtends(t, f, k, short, long);
        var after, longAfter := short[|run|..], long[|run|..];
        if run != "" {
          var name' := if part.kind.IDKind? then name else run;
          var o := PartOwner(iss, t, f, part, run, name);
          PartsExtend(iss, t, f, k + 1, after[1..], longAfter[1..], name', Some(o), complete);
          ConsBegins(o, ClosedParts(iss, t, f, k + 1, after[1..], name', false), ClosedParts(iss, t, f, k + 1, longAfter[1..], name', complete));
        }
      }
    }
  }

  /** readForm is monotone: whatever reads a subject reads each of its beginnings, closing there only what it closes in the whole. */
  lemma ReadFormExtends(iss: Issuer, t: Tenancy, f: SubjectForm, short: string, long: string, complete: bool)
    requires short <= long && ReadForm(iss, t, f, long, complete).fits
    ensures ReadForm(iss, t, f, short, false).fits
    ensures Closed(iss, t, f, short, false) <= Closed(iss, t, f, long, complete)
  {
    if f.lead <= short && t.Readable(f) {
      PartsExtend(iss, t, f, 0, short[|f.lead|..], long[|f.lead|..], "", None, complete);
    }
  }

  /** A name a text leaves open is all of the text behind the form's lead. */
  lemma OpenIsTheRest(iss: Issuer, t: Tenancy, f: SubjectForm, text: string)
    requires ReadForm(iss, t, f, text, false).open != ""
    ensures text == f.lead + ReadForm(iss, t, f, text, false).open && ReadForm(iss, t, f, text, false).owner.None?
  {
    hide ReadParts, Tenancy.Readable;
    NoOwnerLeavesOpen(iss, t, f, 0, text[|f.lead|..], "", None);
    var rest := text[|f.lead|..];
    assert text == f.lead + rest;
  }

  lemma {:induction false} NoOwnerLeavesOpen(iss: Issuer, t: Tenancy, f: SubjectForm, k: nat, rest: string, name: string, owner: Option<Owner>)
    requires k <= |f.parts|
    ensures var r := ReadParts(iss, t, f, k, rest, name, owner, false);
            r.open != "" ==> owner.None? && r.owner.None? && r.open == rest
    decreases |f.parts| - k
  {
    if k < |f.parts| {
      var part, run := f.parts[k], t.OwnerRun(rest);
      var after := rest[|run|..];
      if after != "" && part.delimiter <= after && run != "" {
        var name' := if part.kind.IDKind? then name else run;
        NoOwnerLeavesOpen(iss, t, f, k + 1, after[|part.delimiter|..], name', Some(PartOwner(iss, t, f, part, run, name)));
      }
      assert after == "" ==> rest == run;
    }
  }

  // ---- subjectOwners ----

  predicate NeverPins(t: Tenancy, text: string, complete: bool) {
    exists lead | lead in t.neverPin :: Leads(text, lead, complete)
  }

  /** The owners of the first n forms that read text, or None where one reads it without reaching an owner. */
  function FormOwners(iss: Issuer, t: Tenancy, text: string, complete: bool, n: nat): Option<seq<Owner>>
    requires n <= |t.forms|
  {
    if n == 0 then Some([])
    else
      var r := ReadForm(iss, t, t.forms[n - 1], text, complete);
      match FormOwners(iss, t, text, complete, n - 1)
      case None => None
      case Some(owners) => if !r.fits then Some(owners) else if r.owner.None? then None else Some(owners + [r.owner.value])
  }

  /** The owners of the subject text, or of all its extensions where it is not complete; [] where it tells of none. */
  function SubjectOwners(iss: Issuer, t: Tenancy, text: string, complete: bool): seq<Owner> {
    if NeverPins(t, text, complete) then []
    else match FormOwners(iss, t, text, complete, |t.forms|)
         case None => []
         case Some(owners) => owners
  }

  method FindSubjectOwners(iss: Issuer, t: Tenancy, text: string, complete: bool) returns (owners: seq<Owner>)
    ensures owners == SubjectOwners(iss, t, text, complete)
  {
    hide ReadForm, Leads;
    for i := 0 to |t.neverPin|
      invariant forall k | 0 <= k < i :: !Leads(text, t.neverPin[k], complete)
    {
      if Leads(text, t.neverPin[i], complete) {
        return [];
      }
    }
    owners := [];
    for n := 0 to |t.forms|
      invariant FormOwners(iss, t, text, complete, n) == Some(owners)
    {
      var r := ReadFormParts(iss, t, t.forms[n], text, complete);
      if r.fits && r.owner.None? {
        NoneStays(iss, t, text, complete, n + 1, |t.forms|);
        return [];
      }
      if r.fits {
        owners := owners + [r.owner.value];
      }
    }
  }

  lemma {:induction false} NoneStays(iss: Issuer, t: Tenancy, text: string, complete: bool, m: nat, n: nat)
    requires m <= n <= |t.forms| && FormOwners(iss, t, text, complete, m).None?
    ensures FormOwners(iss, t, text, complete, n).None?
    decreases n
  {
    hide ReadForm;
    if m < n {
      NoneStays(iss, t, text, complete, m, n - 1);
    }
  }

  lemma {:induction false} FormOwnersHoldEach(iss: Issuer, t: Tenancy, text: string, complete: bool, n: nat)
    requires n <= |t.forms| && FormOwners(iss, t, text, complete, n).Some?
    ensures forall i | 0 <= i < n ::
              var r := ReadForm(iss, t, t.forms[i], text, complete);
              r.fits ==> r.owner.Some? && r.owner.value in FormOwners(iss, t, text, complete, n).value
  {
    hide ReadForm;
    if n > 0 {
      FormOwnersHoldEach(iss, t, text, complete, n - 1);
    }
  }

  /** What a subject pin promises of one subject: no never-pin literal leads it, and each form that reads it closes one of the owners. */
  ghost predicate SubjectBelongs(iss: Issuer, t: Tenancy, owners: seq<Owner>, subject: string) {
    && (forall lead | lead in t.neverPin :: !(lead <= subject))
    && (forall f | f in t.forms && ReadForm(iss, t, f, subject, true).fits ::
          exists o | o in owners :: o in Closed(iss, t, f, subject, true))
  }

  /** The owners read from a text hold for every subject that begins with it, and, read whole, for the text itself. */
  lemma SubjectOwnersAreSound(iss: Issuer, t: Tenancy, text: string, complete: bool, subject: string)
    requires SubjectOwners(iss, t, text, complete) != []
    requires if complete then subject == text else text <= subject
    ensures SubjectBelongs(iss, t, SubjectOwners(iss, t, text, complete), subject)
  {
    hide ReadForm, Closed;
    var owners := SubjectOwners(iss, t, text, complete);
    forall lead | lead in t.neverPin ensures !(lead <= subject) {
      assert !Leads(text, lead, complete);
      BeginningsCompare(lead, text, subject);
    }
    FormOwnersHoldEach(iss, t, text, complete, |t.forms|);
    forall f | f in t.forms && ReadForm(iss, t, f, subject, true).fits
      ensures exists o | o in owners :: o in Closed(iss, t, f, subject, true)
    {
      var i :| 0 <= i < |t.forms| && t.forms[i] == f;
      if !complete {
        ReadFormExtends(iss, t, f, text, subject, true);
      }
      OwnerIsDeepest(iss, t, f, text, complete);
      var closed := Closed(iss, t, f, text, complete);
      var o := closed[|closed| - 1];
      assert o in owners && closed <= Closed(iss, t, f, subject, true);
      assert Closed(iss, t, f, subject, true)[|closed| - 1] == o;
    }
  }

  // ---- The start of a name a text leaves open ----

  /** The unfinished name the first n forms agree text ends in, "" so far as none reads it, None where they do not agree. */
  function StartOver(iss: Issuer, t: Tenancy, text: string, n: nat): Option<string>
    requires n <= |t.forms|
  {
    if n == 0 then Some("")
    else match StartOver(iss, t, text, n - 1)
         case None => None
         case Some(start) =>
           var r := ReadForm(iss, t, t.forms[n - 1], text, false);
           if !r.fits then Some(start)
           else if r.owner.Some? || r.open == "" || (start != "" && r.open != start) then None
           else Some(r.open)
  }

  function WrittenStart(iss: Issuer, t: Tenancy, text: string): string {
    if NeverPins(t, text, false) then ""
    else match StartOver(iss, t, text, |t.forms|)
         case None => ""
         case Some(start) => start
  }

  method FindWrittenStart(iss: Issuer, t: Tenancy, text: string) returns (start: string)
    ensures start == WrittenStart(iss, t, text)
  {
    hide ReadForm, Leads;
    for i := 0 to |t.neverPin|
      invariant forall k | 0 <= k < i :: !Leads(text, t.neverPin[k], false)
    {
      if Leads(text, t.neverPin[i], false) {
        return "";
      }
    }
    start := "";
    for n := 0 to |t.forms|
      invariant StartOver(iss, t, text, n) == Some(start)
    {
      var r := ReadFormParts(iss, t, t.forms[n], text, false);
      if r.fits {
        if r.owner.Some? || r.open == "" || (start != "" && r.open != start) {
          NoStartStays(iss, t, text, n + 1, |t.forms|);
          return "";
        }
        start := r.open;
      }
    }
  }

  lemma {:induction false} NoStartStays(iss: Issuer, t: Tenancy, text: string, m: nat, n: nat)
    requires m <= n <= |t.forms| && StartOver(iss, t, text, m).None?
    ensures StartOver(iss, t, text, n).None?
    decreases n
  {
    hide ReadForm;
    if m < n {
      NoStartStays(iss, t, text, m, n - 1);
    }
  }

  lemma {:induction false} StartOfEachForm(iss: Issuer, t: Tenancy, text: string, n: nat)
    requires n <= |t.forms| && StartOver(iss, t, text, n).Some?
    ensures forall i | 0 <= i < n ::
              var r := ReadForm(iss, t, t.forms[i], text, false);
              r.fits ==> r.open != "" && StartOver(iss, t, text, n) == Some(r.open)
  {
    hide ReadForm;
    if n > 0 {
      StartOfEachForm(iss, t, text, n - 1);
    }
  }

  /** Whichever form reads the subject, the owner's name it spells begins with one of the starts. */
  ghost predicate SubjectStarts(iss: Issuer, t: Tenancy, starts: seq<string>, subject: string) {
    && (forall lead | lead in t.neverPin :: !(lead <= subject))
    && (forall f | f in t.forms && ReadForm(iss, t, f, subject, true).fits ::
          f.lead <= subject && BeginsWithOne(starts, subject[|f.lead|..]))
  }

  lemma WrittenStartIsSound(iss: Issuer, t: Tenancy, text: string, subject: string)
    requires WrittenStart(iss, t, text) != "" && text <= subject
    ensures SubjectStarts(iss, t, [WrittenStart(iss, t, text)], subject)
  {
    hide ReadForm;
    var start := WrittenStart(iss, t, text);
    forall lead | lead in t.neverPin ensures !(lead <= subject) {
      assert !Leads(text, lead, false);
      BeginningsCompare(lead, text, subject);
    }
    StartOfEachForm(iss, t, text, |t.forms|);
    forall f | f in t.forms && ReadForm(iss, t, f, subject, true).fits
      ensures f.lead <= subject && BeginsWithOne([start], subject[|f.lead|..])
    {
      var i :| 0 <= i < |t.forms| && t.forms[i] == f;
      ReadFormExtends(iss, t, f, text, subject, true);
      OpenIsTheRest(iss, t, f, text);
      BehindLead(f.lead, start, subject);
      assert start in [start];
    }
  }

  lemma BehindLead(lead: string, start: string, subject: string)
    requires lead + start <= subject
    ensures lead <= subject && start <= subject[|lead|..]
  {
    assert (lead + start)[|lead|..] == start && (lead + start)[..|lead|] == lead;
  }
}

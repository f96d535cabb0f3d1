/** Denies that cover a way in, token for token (internal/report/finding.go). */
module Refusals {
  import opened Strings
  import opened StringSets
  import opened Renderings
  import opened Lattice
  import opened Terms
  import opened AdmittedSets
  import opened Grants

  /** One claim proves nothing against the other: it is not constrained, unread, or its set is not inside the Deny's. */
  predicate ClaimWithin(term: Term, claim: string, d: StringSet)
    requires CanonicalClaims(term) && d.Canonical()
  {
    claim in term && !term[claim].Unknown? && !d.Unknown? && Render(Meet(term[claim], d)) == Render(term[claim])
  }

  predicate Within(term: Term, deny: Term)
    requires CanonicalClaims(term) && CanonicalClaims(deny)
  {
    forall k | k in deny :: ClaimWithin(term, k, deny[k])
  }

  method CheckWithin(term: Term, deny: Term) returns (within: bool)
    requires CanonicalClaims(term) && CanonicalClaims(deny)
    ensures within == Within(term, deny)
  {
    var keys := deny.Keys;
    while keys != {}
      invariant keys <= deny.Keys
      invariant forall k | k in deny && k !in keys :: ClaimWithin(term, k, deny[k])
      decreases |keys|
    {
      var k :| k in keys;
      if k !in term || term[k].Unknown? || deny[k].Unknown? {
        return false;
      }
      if Render(Meet(term[k], deny[k])) != Render(term[k]) {
        return false;
      }
      keys := keys - {k};
    }
    return true;
  }

  /** Equal renderings are equal sets, so a claim whose meet renders as itself lies inside the Deny's. */
  lemma WithinIsInclusion(term: Term, deny: Term, token: Token)
    requires LiveTerm(term) && LiveTerm(deny) && Within(term, deny)
    requires Satisfies(term, token)
    ensures Satisfies(deny, token)
  {
    forall k | k in deny ensures Meets(deny[k], k, token) {
      assert ClaimWithin(term, k, deny[k]);
      MeetIsExact(term[k], deny[k]);
      RenderingIsInjective(Meet(term[k], deny[k]), term[k], "", "");
      assert Meets(term[k], k, token);
    }
  }

  /** For values and patterns the test is exact: a term holding one value is inside whatever set holds it. */
  lemma ValueWithinWhatHoldsIt(term: Term, deny: Term)
    requires LiveTerm(term) && LiveTerm(deny) && deny.Keys <= term.Keys
    requires forall k | k in deny :: term[k].Exact? && !deny[k].Unknown?
    ensures Within(term, deny) <==> forall k | k in deny :: deny[k].Contains(term[k].value)
  {
    forall k | k in deny ensures ClaimWithin(term, k, deny[k]) <==> deny[k].Contains(term[k].value) {
      MeetIsExact(term[k], deny[k]);
      if deny[k].Contains(term[k].value) {
        MeetOfValue(term[k], deny[k]);
      }
      if ClaimWithin(term, k, deny[k]) {
        RenderingIsInjective(Meet(term[k], deny[k]), term[k], "", "");
        assert term[k].Contains(term[k].value);
      }
    }
  }

  /** The meet of a value with a set that holds it is the value. */
  lemma MeetOfValue(e: StringSet, s: StringSet)
    requires e.Exact? && s.Canonical() && s.Contains(e.value)
    ensures Meet(e, s) == e
  {
    MeetIsExact(e, s);
    var m := Meet(e, s);
    assert m.Contains(e.value) && forall v :: m.Contains(v) ==> v == e.value;
    if !s.IsTop() {
      RowOfValue(Empty, e, TermsOf(s));
      TermsContain(s, e.value);
      assert TermsOf(e) == [e] && [e][1..] == [];
      assert MeetRows(Empty, [e], TermsOf(s)) == MeetRows(MeetRow(Empty, e, TermsOf(s)), [], TermsOf(s));
    }
  }

  lemma {:induction false} RowOfValue(out: StringSet, e: StringSet, ts: seq<StringSet>)
    requires e.Exact? && (out == Empty || out == e) && CanonicalTerms(ts)
    ensures MeetRow(out, e, ts) == if out == e || exists t :: t in ts && t.Contains(e.value) then e else Empty
    decreases |ts|
  {
    if ts != [] {
      assert CanonicalTerm(ts[0]);
      JoinIdempotent(e);
      RowOfValue(Lattice.Join(out, MeetTerms(e, ts[0])), e, ts[1..]);
      assert forall t :: t in ts <==> t == ts[0] || t in ts[1..];
    }
  }

  /** The Denies of a policy that were read exactly. */
  function DeniesOf(grants: seq<Grant>): seq<Grant> {
    if grants == [] then []
    else (if grants[0].effect == Deny && grants[0].admits.IsExact() then [grants[0]] else []) + DeniesOf(grants[1..])
  }

  method FindDenies(grants: seq<Grant>) returns (out: seq<Grant>)
    ensures out == DeniesOf(grants)
  {
    out := [];
    for i := 0 to |grants|
      invariant out == DeniesOf(grants[..i])
    {
      assert grants[..i + 1] == grants[..i] + [grants[i]];
      DeniesAppend(grants[..i], grants[i]);
      if grants[i].effect == Deny && grants[i].admits.IsExact() {
        out := out + [grants[i]];
      }
    }
    assert grants[..|grants|] == grants;
  }

  lemma {:induction false} DeniesAppend(grants: seq<Grant>, g: Grant)
    ensures DeniesOf(grants + [g]) == DeniesOf(grants) + (if g.effect == Deny && g.admits.IsExact() then [g] else [])
  {
    if grants == [] {
      assert grants + [g] == [g] && [g][1..] == [];
    } else {
      assert (grants + [g])[1..] == grants[1..] + [g];
      DeniesAppend(grants[1..], g);
    }
  }

  lemma {:induction false} DeniesAre(grants: seq<Grant>)
    ensures forall d :: d in DeniesOf(grants) <==> d in grants && d.effect == Deny && d.admits.IsExact()
  {
    if grants != [] {
      DeniesAre(grants[1..]);
      assert forall d :: d in grants <==> d == grants[0] || d in grants[1..];
    }
  }

  ghost predicate Readable(g: Grant) {
    g.admits.Canonical()
  }

  /** The Deny's term holds every token of the way in's. */
  ghost predicate TermRefuses(t: Term, deny: Term) {
    LiveTerm(deny) && LiveTerm(t) && Within(t, deny)
  }

  /** A Deny of the same issuer holds, in one of its terms, every token of the way in's term t. */
  ghost predicate RefusedBy(issuer: string, t: Term, d: Grant) {
    d.issuer == issuer && exists deny :: deny in d.admits.terms && TermRefuses(t, deny)
  }

  ghost predicate IsRefused(grant: Grant, term: int, refusals: seq<Grant>) {
    0 <= term < |grant.admits.terms|
    && exists d :: d in refusals && RefusedBy(grant.issuer, grant.admits.terms[term], d)
  }

  lemma LiveIsCanonical(t: Term)
    ensures LiveTerm(t) ==> CanonicalClaims(t)
  {
  }

  lemma DenyTermIsLive(d: Grant, n: nat)
    requires Readable(d) && n < |d.admits.terms|
    ensures LiveTerm(d.admits.terms[n])
  {
    hide LiveTerm;
    assert d.admits.terms[n] in d.admits.terms;
  }

  method CheckDeny(issuer: string, t: Term, d: Grant) returns (refused: bool)
    requires LiveTerm(t) && Readable(d)
    ensures refused <==> RefusedBy(issuer, t, d)
  {
    hide Within, LiveTerm, Readable, CanonicalClaims;
    if d.issuer != issuer {
      return false;
    }
    for n := 0 to |d.admits.terms|
      invariant forall m | 0 <= m < n :: !TermRefuses(t, d.admits.terms[m])
    {
      DenyTermIsLive(d, n);
      LiveIsCanonical(t);
      LiveIsCanonical(d.admits.terms[n]);
      var within := CheckWithin(t, d.admits.terms[n]);
      if within {
        assert TermRefuses(t, d.admits.terms[n]) && d.admits.terms[n] in d.admits.terms;
        return true;
      }
    }
    return false;
  }

  method Refused(grant: Grant, term: int, refusals: seq<Grant>) returns (refused: bool)
    requires Readable(grant) && forall d | d in refusals :: Readable(d)
    ensures refused <==> IsRefused(grant, term, refusals)
  {
    if term < 0 || term >= |grant.admits.terms| {
      return false;
    }
    var t := grant.admits.terms[term];
    assert t in grant.admits.terms && LiveTerm(t);
    hide RefusedBy, Readable, LiveTerm;
    for i := 0 to |refusals|
      invariant forall j | 0 <= j < i :: !RefusedBy(grant.issuer, t, refusals[j])
    {
      assert refusals[i] in refusals;
      var found := CheckDeny(grant.issuer, t, refusals[i]);
      if found {
        return true;
      }
    }
    return false;
  }

  /** A way in is refused only where every token its term admits is admitted by an exact Deny of its issuer. */
  lemma RefusedIsSound(grants: seq<Grant>, grant: Grant, term: int, token: Token)
    requires Readable(grant) && forall d | d in grants :: Readable(d)
    requires IsRefused(grant, term, DeniesOf(grants)) && Satisfies(grant.admits.terms[term], token)
    ensures exists d :: d in grants && d.effect == Deny && d.admits.IsExact() && d.issuer == grant.issuer && d.admits.Admits(token)
  {
    var t := grant.admits.terms[term];
    var d :| d in DeniesOf(grants) && RefusedBy(grant.issuer, t, d);
    var deny :| deny in d.admits.terms && LiveTerm(deny) && LiveTerm(t) && Within(t, deny);
    DeniesAre(grants);
    WithinIsInclusion(t, deny, token);
    assert d.admits.Admits(token);
  }
}

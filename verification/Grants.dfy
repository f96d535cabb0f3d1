/** Grants of trust, and the part of one that means the same in every cloud (internal/trust/grant.go). */
module Grants {
  import opened Strings
  import opened Sorting
  import opened StringSets
  import opened Lattice
  import opened Terms
  import opened AdmittedSets

  /** What a matching token gets; EffectUnread may stand for either. */
  datatype Effect = Allow | Deny | EffectUnread

  datatype TargetRef = TargetRef(kind: string, id: string)

  /** One API call: its name, its status, and everything else the record holds. */
  datatype Record = Record(api: string, status: string, rest: string)

  datatype Grant = Grant(target: TargetRef, issuer: string, admits: AdmittedSet, effect: Effect, provenance: seq<Record>)

  const AUD := "aud"

  function KeptClaims(t: Term, keep: string -> bool): Term {
    map k | k in t && keep(k) :: t[k]
  }

  function KeptTerms(terms: seq<Term>, keep: string -> bool): seq<Term> {
    if terms == [] then [] else [KeptClaims(terms[0], keep)] + KeptTerms(terms[1..], keep)
  }

  function Project(s: AdmittedSet, keep: string -> bool): AdmittedSet {
    AddCaveats(NewAdmittedSet(KeptTerms(s.terms, keep)), s.caveats)
  }

  predicate IsIdentity(claim: string) { claim != AUD }

  /** The grant's set with the audience unconstrained. */
  function WithoutAudience(g: Grant): AdmittedSet {
    Project(g.admits, IsIdentity)
  }

  /** Deletes from a term each claim not kept. */
  method DropClaims(t: Term, keep: string -> bool) returns (kept: Term)
    ensures kept == KeptClaims(t, keep)
  {
    kept := t;
    var keys := t.Keys;
    while keys != {}
      invariant keys <= t.Keys
      invariant kept == map k | k in t && (k in keys || keep(k)) :: t[k]
      decreases |keys|
    {
      var k :| k in keys;
      if !keep(k) {
        kept := kept - {k};
      }
      keys := keys - {k};
    }
  }

  method ProjectInPlace(s: AdmittedSet, keep: string -> bool) returns (out: AdmittedSet)
    ensures out == Project(s, keep)
  {
    hide NewAdmittedSet, NormaliseCaveats;
    var terms := s.terms;
    for i := 0 to |terms|
      invariant |terms| == |s.terms|
      invariant terms[..i] == KeptTerms(s.terms[..i], keep) && terms[i..] == s.terms[i..]
    {
      assert terms[i] == s.terms[i] by {
        assert terms[i..][0] == s.terms[i..][0];
      }
      var kept := DropClaims(terms[i], keep);
      KeptTermsAppend(s.terms[..i], s.terms[i], keep);
      assert s.terms[..i + 1] == s.terms[..i] + [s.terms[i]];
      terms := terms[..i] + [kept] + terms[i + 1..];
    }
    assert terms[..|terms|] == terms && s.terms[..|terms|] == s.terms;
    out := NewAdmittedSet(terms);
    ghost var whole := AddCaveats(out, s.caveats);
    for n := 0 to |s.caveats|
      invariant whole == AddCaveats(out, s.caveats[n..])
    {
      assert s.caveats[n..][0] == s.caveats[n] && s.caveats[n..][1..] == s.caveats[n + 1..];
      out := out.WithCaveat(s.caveats[n]);
    }
  }

  lemma {:induction false} KeptTermsAppend(terms: seq<Term>, t: Term, keep: string -> bool)
    ensures KeptTerms(terms + [t], keep) == KeptTerms(terms, keep) + [KeptClaims(t, keep)]
  {
    if terms == [] {
      assert terms + [t] == [t] && [t][1..] == [];
    } else {
      assert (terms + [t])[1..] == terms[1..] + [t];
      KeptTermsAppend(terms[1..], t, keep);
    }
  }

  lemma {:induction false} KeptTermsAre(terms: seq<Term>, keep: string -> bool)
    requires Formed(terms)
    ensures |KeptTerms(terms, keep)| == |terms| && Formed(KeptTerms(terms, keep))
    ensures forall t :: t in KeptTerms(terms, keep) <==> exists u :: u in terms && t == KeptClaims(u, keep)
  {
    if terms != [] {
      hide KeptClaims;
      KeptTermsAre(terms[1..], keep);
      KeptClaimsAre(terms[0], keep);
      assert forall u :: u in terms <==> u == terms[0] || u in terms[1..];
    }
  }

  lemma KeptClaimsAre(t: Term, keep: string -> bool)
    requires CanonicalClaims(t)
    ensures CanonicalClaims(KeptClaims(t, keep))
  {
  }

  lemma {:induction false} NoMoreLive(terms: seq<Term>)
    ensures |Live(terms)| <= |terms|
  {
    if terms != [] {
      NoMoreLive(terms[1..]);
    }
  }

  lemma {:induction false} NoMoreKept(terms: seq<Term>, seen: set<string>)
    ensures |FirstOfEach(terms, seen)| <= |terms|
  {
    if terms != [] {
      hide RenderTerm;
      var text := RenderTerm(terms[0]);
      NoMoreKept(terms[1..], seen);
      NoMoreKept(terms[1..], seen + {text});
    }
  }

  lemma FewNeverOverflow(terms: seq<Term>)
    requires |terms| <= TERM_CAP
    ensures !Overflows(terms)
  {
    NoMoreLive(terms);
    NoMoreKept(Live(terms), {});
  }

  /** Some term's kept claims are met by the token. */
  predicate MeetsKept(s: AdmittedSet, keep: string -> bool, token: Token) {
    exists t | t in s.terms :: Satisfies(KeptClaims(t, keep), token)
  }

  /**
   * A projection is canonical, keeps every caveat, never overflows, and admits no token that does not meet the kept
   * claims of some term; it admits each that does where nothing is lost, and is empty only where none does.
   */
  lemma ProjectIsExact(s: AdmittedSet, keep: string -> bool, token: Token)
    requires s.Canonical()
    ensures var p := Project(s, keep); p.Canonical() && p.caveats == s.caveats
    ensures Project(s, keep).Admits(token) ==> MeetsKept(s, keep, token)
    ensures LosesNothing(KeptTerms(s.terms, keep)) && MeetsKept(s, keep, token) ==> Project(s, keep).Admits(token)
    ensures Project(s, keep).IsEmpty() ==> !MeetsKept(s, keep, token)
  {
    hide LosesNothing, KeptClaims, Satisfies, Normalise, Live, Overflows;
    CanonicalIsLive(s);
    KeptTermsAre(s.terms, keep);
    var kept := KeptTerms(s.terms, keep);
    FewNeverOverflow(kept);
    NormaliseIsExact(kept, [], "NewAdmittedSet", token);
    AddCaveatsIs(NewAdmittedSet(kept), s.caveats);
    CaveatsNormalise(s.caveats, s.caveats);
    NoneListed(NewAdmittedSet(kept).caveats);
    assert [] + s.caveats == s.caveats;
    assert Project(s, keep) == AdmittedSet(NewAdmittedSet(kept).terms, s.caveats);
    assert MeetsKept(s, keep, token) <==> exists t :: t in kept && Satisfies(t, token) by {
      if u :| u in s.terms && Satisfies(KeptClaims(u, keep), token) {
        assert KeptClaims(u, keep) in kept;
      }
    }
  }

  lemma NoneListed(cs: seq<Caveat>)
    ensures (forall c :: c !in cs) ==> cs == []
  {
    if |cs| > 0 {
      assert cs[0] in cs;
    }
  }

  /** Projecting only widens, where nothing is lost: a token that differs from an admitted one outside the kept claims is admitted. */
  lemma ProjectWidens(s: AdmittedSet, keep: string -> bool, token: Token, other: Token)
    requires s.Canonical() && s.Admits(token) && LosesNothing(KeptTerms(s.terms, keep))
    requires forall k | keep(k) :: (k in token <==> k in other) && (k in token ==> token[k] == other[k])
    ensures Project(s, keep).Admits(other)
  {
    hide LosesNothing;
    var t :| t in s.terms && Satisfies(t, token);
    forall k | k in KeptClaims(t, keep) ensures Meets(t[k], k, other) {
      assert Meets(t[k], k, token);
    }
    assert Satisfies(KeptClaims(t, keep), other);
    ProjectIsExact(s, keep, other);
  }
}

/** Which account or organisation a claim of an AWS principal names (internal/parse/aws/tenancy.go, principal.go). */
module AwsTenants {
  import opened Strings
  import opened Owners
  import opened Confinements

  const ACCOUNT_CLAIM := "aws:principalaccount"
  const ARN_CLAIM := "aws:principalarn"
  const ORG_CLAIM := "aws:principalorgid"

  const TENANCY_CLAIMS := [ACCOUNT_CLAIM, ARN_CLAIM, ORG_CLAIM]

  /** strings.SplitN(text, ":", n). */
  function SplitN(text: string, n: nat): (fields: seq<string>)
    requires n >= 1
    ensures 1 <= |fields| <= n
    decreases n
  {
    var i := Colon(text);
    if n == 1 || i == |text| then [text] else [text[..i]] + SplitN(text[i + 1..], n - 1)
  }

  /** An ARN's six fields. */
  function ArnFields(text: string): (fields: Option<seq<string>>)
    ensures fields.Some? ==> |fields.value| == 6
  {
    var fields := SplitN(text, 6);
    if |fields| == 6 && fields[0] == "arn" then Some(fields) else None
  }

  predicate IsAccountID(text: string) {
    |text| == 12 && forall c | c in text :: '0' <= c <= '9'
  }

  predicate IsOrganisationID(text: string) {
    "o-" <= text && 10 <= |text[2..]| <= 32 && forall c | c in text[2..] :: 'a' <= c <= 'z' || '0' <= c <= '9'
  }

  datatype Tenant = Tenant(scope: Scope, id: string)

  function TenantOfPrefix(claim: string, prefix: string): Option<Tenant> {
    var fields := ArnFields(prefix);
    if claim == ARN_CLAIM && fields.Some? && IsAccountID(fields.value[4]) then Some(Tenant(AccountScope, fields.value[4])) else None
  }

  function TenantOfValue(claim: string, value: string): Option<Tenant> {
    if claim == ACCOUNT_CLAIM && IsAccountID(value) then Some(Tenant(AccountScope, value))
    else if claim == ORG_CLAIM && IsOrganisationID(value) then Some(Tenant(OrganisationScope, value))
    else TenantOfPrefix(claim, value)
  }

  function OwnerOf(issuer: string, t: Tenant): Owner {
    Owner(issuer, "aws", t.scope, IDKind, t.id, "", false, false)
  }

  function TenantOwners(issuer: string, t: Option<Tenant>): seq<Owner> {
    if t.None? then [] else [OwnerOf(issuer, t.value)]
  }

  function TenantValues(issuer: string, claim: string): ValueReader {
    v => Belonging(TenantOwners(issuer, TenantOfValue(claim, v)))
  }

  function TenantPrefixes(issuer: string, claim: string): PrefixReader {
    Some(p => TenantOwners(issuer, TenantOfPrefix(claim, p)))
  }

  /** A longer text has the same closed fields. */
  lemma {:induction false} SplitExtends(short: string, long: string, n: nat)
    requires n >= 1 && short <= long && |SplitN(short, n)| == n
    ensures |SplitN(long, n)| == n && SplitN(long, n)[..n - 1] == SplitN(short, n)[..n - 1]
    decreases n
  {
    hide SplitN, Colon;
    if n > 1 {
      SplitStep(short, n);
      SplitStep(long, n);
      ColonStays(short, long);
      var i := Colon(short);
      BeginsAround(short, long, i);
      SplitExtends(short[i + 1..], long[i + 1..], n - 1);
      AllButLast(short[..i], SplitN(short[i + 1..], n - 1), SplitN(long[i + 1..], n - 1), n);
    }
  }

  lemma SplitStep(text: string, n: nat)
    requires n > 1
    ensures Colon(text) == |text| ==> |SplitN(text, n)| == 1
    ensures Colon(text) < |text| ==> SplitN(text, n) == [text[..Colon(text)]] + SplitN(text[Colon(text) + 1..], n - 1)
  {
  }

  lemma BeginsAround(short: string, long: string, i: nat)
    requires short <= long && i < |short|
    ensures short[..i] == long[..i] && short[i + 1..] <= long[i + 1..]
  {
    assert short == long[..|short|];
  }

  lemma AllButLast(head: string, s: seq<string>, l: seq<string>, n: nat)
    requires |s| == |l| == n - 1 >= 1 && s[..n - 2] == l[..n - 2]
    ensures ([head] + s)[..n - 1] == ([head] + l)[..n - 1]
  {
    assert ([head] + s)[..n - 1] == [head] + s[..n - 2];
    assert ([head] + l)[..n - 1] == [head] + l[..n - 2];
  }

  /** The account a text's fifth field closes is the account of every ARN that begins with the text. */
  lemma PrefixSettlesTheTenant(claim: string, prefix: string, value: string)
    requires prefix <= value && TenantOfPrefix(claim, prefix).Some?
    ensures TenantOfValue(claim, value) == TenantOfPrefix(claim, prefix)
  {
    hide SplitN, IsAccountID, IsOrganisationID;
    SplitExtends(prefix, value, 6);
    var s, l := SplitN(prefix, 6), SplitN(value, 6);
    assert s[..5][0] == s[0] && s[..5][4] == s[4] && l[..5][0] == l[0] && l[..5][4] == l[4];
  }

  /** What a pin on an AWS claim promises of one value: it names a tenant, and that tenant is one of the owners. */
  predicate TenantBelongs(issuer: string, claim: string, owners: seq<Owner>, v: string) {
    var t := TenantOfValue(claim, v);
    t.Some? && OwnerOf(issuer, t.value) in owners
  }

  lemma TenantReadersAreSound(issuer: string, claim: string)
    ensures Widens((owners: seq<Owner>, v: string) => TenantBelongs(issuer, claim, owners, v))
    ensures ReadsValues(TenantValues(issuer, claim), (owners: seq<Owner>, v: string) => TenantBelongs(issuer, claim, owners, v))
    ensures ReadsPrefixes(TenantPrefixes(issuer, claim), (owners: seq<Owner>, v: string) => TenantBelongs(issuer, claim, owners, v))
  {
    hide TenantOfValue, TenantOfPrefix;
    forall p, v | p <= v && TenantOfPrefix(claim, p).Some? ensures TenantOfValue(claim, v) == TenantOfPrefix(claim, p) {
      PrefixSettlesTheTenant(claim, p, v);
    }
  }
}

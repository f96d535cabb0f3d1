/** What is hashed into the keys of a finding (internal/report/findingid.go). */
module FindingIds {
  import opened Strings
  import opened Quoting
  import opened StringSets
  import opened Terms
  import opened Entries
  import opened Encoding

  const FINDING_VERSION := "cloudarq.finding/1"

  function Head(rule: string, role: string, issuer: string): string {
    "[" + Listed([FINDING_VERSION, rule, role, issuer])
  }

  /** The bytes a finding's id is the hash of. */
  function IdBytes(rule: string, role: string, issuer: string, condition: seq<string>): string {
    Head(rule, role, issuer) + ",[" + Listed(condition) + "]]"
  }

  /** The bytes a finding's pairing key is the hash of. */
  function PairingBytes(rule: string, role: string, issuer: string): string {
    Head(rule, role, issuer) + "]"
  }

  /** The two texts are written in one buffer: the id's whole, then the pairing key's over its head. */
  method KeysOf(rule: string, role: string, issuer: string, condition: seq<string>) returns (id: string, pairing: string)
    ensures id == IdBytes(rule, role, issuer, condition) && pairing == PairingBytes(rule, role, issuer)
  {
    hide Listed;
    var e := new Encoder();
    e.b := e.b + ['['];
    e.QuoteAll([FINDING_VERSION, rule, role, issuer]);
    var head := |e.b|;
    ghost var written := e.b;
    e.b := e.b + [',', '['];
    e.QuoteAll(condition);
    e.b := e.b + [']', ']'];
    id := e.b;
    assert e.b[..head] == written;
    pairing := e.b[..head] + [']'];
  }

  lemma QuotesAreUnambiguous(s: string, t: string, afterS: string, afterT: string)
    requires JsonQuote(s) + afterS == JsonQuote(t) + afterT
    ensures s == t && afterS == afterT
  {
    JsonRoundTrip(s, afterS);
    JsonRoundTrip(t, afterT);
  }

  /** What follows the first string of a list. */
  function AfterFirst(strings: seq<string>, after: string): string
    requires strings != []
  {
    if |strings| == 1 then after else "," + (Listed(strings[1..]) + after)
  }

  lemma ListedOpens(strings: seq<string>, after: string)
    requires strings != []
    ensures Listed(strings) + after == JsonQuote(strings[0]) + AfterFirst(strings, after)
  {
    hide JsonQuote;
    if |strings| > 1 {
      var q, more := JsonQuote(strings[0]), Listed(strings[1..]);
      Reassociated(q, ",", more);
      Reassociated(q, "," + more, after);
      Reassociated(",", more, after);
    }
  }

  lemma QuoteStarts(s: string, after: string)
    ensures (JsonQuote(s) + after)[0] == '"'
  {
  }

  /** Strings listed before a closing bracket are read back one by one. */
  lemma {:induction false} ListedIsInjective(a: seq<string>, b: seq<string>, after: string)
    requires after != "" && after[0] == ']' && Listed(a) + after == Listed(b) + after
    ensures a == b
  {
    hide JsonQuote;
    if a != [] {
      ListedOpens(a, after);
      QuoteStarts(a[0], AfterFirst(a, after));
    }
    if b != [] {
      ListedOpens(b, after);
      QuoteStarts(b[0], AfterFirst(b, after));
    }
    assert "" + after == after;
    if a != [] && b != [] {
      QuotesAreUnambiguous(a[0], b[0], AfterFirst(a, after), AfterFirst(b, after));
      if |a| > 1 {
        assert |b| > 1;
        assert AfterFirst(a, after)[1..] == Listed(a[1..]) + after && AfterFirst(b, after)[1..] == Listed(b[1..]) + after;
        ListedIsInjective(a[1..], b[1..], after);
      }
      assert a == [a[0]] + a[1..] && b == [b[0]] + b[1..];
    }
  }

  /** The head, whatever follows it, is read back as its three strings. */
  lemma HeadIsInjective(rule: string, role: string, issuer: string, rule': string, role': string, issuer': string, after: string, after': string)
    requires Head(rule, role, issuer) + after == Head(rule', role', issuer') + after'
    ensures rule == rule' && role == role' && issuer == issuer' && after == after'
  {
    HeadOpens(rule, role, issuer, after);
    HeadOpens(rule', role', issuer', after');
    hide JsonQuote;
    var x, y := JsonQuote(issuer) + after, JsonQuote(issuer') + after';
    var p, q := JsonQuote(role) + ("," + x), JsonQuote(role') + ("," + y);
    var m, n := JsonQuote(rule) + ("," + p), JsonQuote(rule') + ("," + q);
    assert (Head(rule, role, issuer) + after)[1..] == JsonQuote(FINDING_VERSION) + ("," + m);
    assert (Head(rule', role', issuer') + after')[1..] == JsonQuote(FINDING_VERSION) + ("," + n);
    QuotesAreUnambiguous(FINDING_VERSION, FINDING_VERSION, "," + m, "," + n);
    assert ("," + m)[1..] == m && ("," + n)[1..] == n;
    QuotesAreUnambiguous(rule, rule', "," + p, "," + q);
    assert ("," + p)[1..] == p && ("," + q)[1..] == q;
    QuotesAreUnambiguous(role, role', "," + x, "," + y);
    assert ("," + x)[1..] == x && ("," + y)[1..] == y;
    QuotesAreUnambiguous(issuer, issuer', after, after');
  }

  lemma HeadOpens(rule: string, role: string, issuer: string, after: string)
    ensures Head(rule, role, issuer) + after ==
            "[" + (JsonQuote(FINDING_VERSION) + ("," + (JsonQuote(rule) + ("," + (JsonQuote(role) + ("," + (JsonQuote(issuer) + after)))))))
  {
    hide JsonQuote;
    var strings := [FINDING_VERSION, rule, role, issuer];
    assert strings[1..] == [rule, role, issuer] && strings[1..][1..] == [role, issuer] && strings[1..][1..][1..] == [issuer];
    assert Listed([issuer]) == JsonQuote(issuer);
    assert Listed([role, issuer]) == JsonQuote(role) + "," + JsonQuote(issuer);
    assert Listed([rule, role, issuer]) == JsonQuote(rule) + "," + Listed([role, issuer]);
    assert Listed(strings) == JsonQuote(FINDING_VERSION) + "," + Listed([rule, role, issuer]);
  }

  /** The bytes hashed are equal only for one rule, role, issuer and condition, and never those of a pairing key. */
  lemma IdBytesAreInjective(rule: string, role: string, issuer: string, condition: seq<string>,
                            rule': string, role': string, issuer': string, condition': seq<string>)
    ensures IdBytes(rule, role, issuer, condition) == IdBytes(rule', role', issuer', condition')
            <==> rule == rule' && role == role' && issuer == issuer' && condition == condition'
    ensures PairingBytes(rule, role, issuer) == PairingBytes(rule', role', issuer')
            <==> rule == rule' && role == role' && issuer == issuer'
    ensures IdBytes(rule, role, issuer, condition) != PairingBytes(rule', role', issuer')
  {
    hide Head, Listed;
    var after, after' := ",[" + (Listed(condition) + "]]"), ",[" + (Listed(condition') + "]]");
    assert IdBytes(rule, role, issuer, condition) == Head(rule, role, issuer) + after;
    assert IdBytes(rule', role', issuer', condition') == Head(rule', role', issuer') + after';
    if IdBytes(rule, role, issuer, condition) == IdBytes(rule', role', issuer', condition') {
      HeadIsInjective(rule, role, issuer, rule', role', issuer', after, after');
      assert after[2..] == Listed(condition) + "]]" && after'[2..] == Listed(condition') + "]]";
      ListedIsInjective(condition, condition', "]]");
    }
    if PairingBytes(rule, role, issuer) == PairingBytes(rule', role', issuer') {
      HeadIsInjective(rule, role, issuer, rule', role', issuer', "]", "]");
    }
    if IdBytes(rule, role, issuer, condition) == PairingBytes(rule', role', issuer') {
      HeadIsInjective(rule, role, issuer, rule', role', issuer', after, "]");
    }
  }

  /** The condition list of a term: one claim=rendering for each claim, sorted. */
  function ConditionOf(term: Term): seq<string> {
    ClaimTexts(SortedKeys(term.Keys), term)
  }

  lemma ClaimTextsFrom(claims: seq<string>, term: Term, i: nat)
    requires (forall k | k in claims :: k in term) && i <= |claims|
    ensures i == |claims| ==> ClaimTexts(claims[i..], term) == []
    ensures i < |claims| ==> ClaimTexts(claims[i..], term) == [claims[i] + "=" + Render(term[claims[i]])] + ClaimTexts(claims[i + 1..], term)
  {
    hide Render;
    if i < |claims| {
      assert claims[i..][0] == claims[i] && claims[i..][1..] == claims[i + 1..];
    }
  }

  lemma OneMore(out: seq<string>, text: string, rest: seq<string>)
    ensures out + ([text] + rest) == (out + [text]) + rest
  {
  }

  method WriteCondition(term: Term) returns (out: seq<string>)
    ensures out == ConditionOf(term)
  {
    hide SortedKeys, ClaimTexts, Render;
    out := [];
    var claims := SortedKeys(term.Keys);
    assert claims[0..] == claims;
    for i := 0 to |claims|
      invariant out + ClaimTexts(claims[i..], term) == ClaimTexts(claims, term)
    {
      var text := claims[i] + "=" + Render(term[claims[i]]);
      ClaimTextsFrom(claims, term, i);
      OneMore(out, text, ClaimTexts(claims[i + 1..], term));
      out := out + [text];
    }
    ClaimTextsFrom(claims, term, |claims|);
  }

  lemma {:induction false} EntriesAreInjective(a: seq<string>, s: Term, b: seq<string>, t: Term)
    requires (forall k | k in a :: k in s) && (forall k | k in b :: k in t)
    requires CanonicalClaims(s) && CanonicalClaims(t) && ClaimTexts(a, s) == ClaimTexts(b, t)
    ensures a == b && forall k | k in a :: s[k] == t[k]
  {
    hide Render;
    if a != [] {
      var x, y := ClaimTexts(a, s), ClaimTexts(b, t);
      assert x[0] == Entry(a[0], s[a[0]]) && y[0] == Entry(b[0], t[b[0]]);
      EntryIsInjective(a[0], s[a[0]], b[0], t[b[0]]);
      assert x[1..] == ClaimTexts(a[1..], s) && y[1..] == ClaimTexts(b[1..], t);
      EntriesAreInjective(a[1..], s, b[1..], t);
      assert a == [a[0]] + a[1..] && b == [b[0]] + b[1..];
    }
  }

  /** So two findings whose conditions were wholly read share an id only when their terms are one term, whatever their claims are named. */
  lemma IdIdentifiesTheTerm(rule: string, role: string, issuer: string, term: Term,
                            rule': string, role': string, issuer': string, term': Term)
    requires CanonicalClaims(term) && CanonicalClaims(term')
    ensures IdBytes(rule, role, issuer, ConditionOf(term)) == IdBytes(rule', role', issuer', ConditionOf(term'))
            <==> rule == rule' && role == role' && issuer == issuer' && term == term'
  {
    hide IdBytes, ConditionOf;
    IdBytesAreInjective(rule, role, issuer, ConditionOf(term), rule', role', issuer', ConditionOf(term'));
    ConditionIsInjective(term, term');
  }

  /** A condition list is one term's. */
  lemma ConditionIsInjective(s: Term, t: Term)
    requires CanonicalClaims(s) && CanonicalClaims(t)
    ensures ConditionOf(s) == ConditionOf(t) ==> s == t
  {
    hide ClaimTexts, SortedKeys, CanonicalClaims;
    var a, b := SortedKeys(s.Keys), SortedKeys(t.Keys);
    assert forall k :: k in s.Keys <==> k in a;
    assert forall k :: k in t.Keys <==> k in b;
    if ConditionOf(s) == ConditionOf(t) {
      EntriesAreInjective(a, s, b, t);
      assert s.Keys == t.Keys;
    }
  }
}

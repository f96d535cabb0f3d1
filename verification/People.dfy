/** Taking the people out of the ARNs a message names (internal/report/caller.go). */
module People {

  const REMOVED := "(removed)"

  predicate Printable(c: char) {
    '\U{21}' <= c <= '\U{7E}'
  }

  /** "arn:" stands at at. */
  predicate IsArn(text: string, at: nat) {
    at + 4 <= |text| && text[at] == 'a' && text[at + 1] == 'r' && text[at + 2] == 'n' && text[at + 3] == ':'
  }

  function ArnFrom(text: string, from: nat): (at: nat)
    requires from <= |text|
    ensures from <= at <= |text| && (at < |text| ==> IsArn(text, at))
    ensures forall i | from <= i < at :: !IsArn(text, i)
    decreases |text| - from
  {
    if from + 4 > |text| then |text| else if IsArn(text, from) then from else ArnFrom(text, from + 1)
  }

  /** The first byte at or after i that is not printable, or the end of the message. */
  function RunEnd(text: string, i: nat): (end: nat)
    requires i <= |text|
    ensures i <= end <= |text| && (end < |text| ==> !Printable(text[end]))
    ensures forall j | i <= j < end :: Printable(text[j])
    decreases |text| - i
  {
    if i < |text| && Printable(text[i]) then RunEnd(text, i + 1) else i
  }

  method ArnAt(text: string, from: nat) returns (at: nat)
    requires from <= |text|
    ensures at == ArnFrom(text, from)
  {
    at := from;
    while at + 4 <= |text|
      invariant from <= at <= |text| && ArnFrom(text, from) == ArnFrom(text, at)
      decreases |text| - at
    {
      if text[at] == 'a' && text[at + 1] == 'r' && text[at + 2] == 'n' && text[at + 3] == ':' {
        return;
      }
      at := at + 1;
    }
    return |text|;
  }

  method NextArns(message: string, from: nat) returns (start: nat, end: nat)
    requires from <= |message|
    ensures start == ArnFrom(message, from) && end == RunEnd(message, start)
  {
    start := ArnAt(message, from);
    end := start;
    while end < |message| && Printable(message[end])
      invariant start <= end <= |message| && RunEnd(message, start) == RunEnd(message, end)
    {
      end := end + 1;
    }
  }

  // ---- The person one ARN names ----

  /** The first k colons at or after i. */
  function Colons(arn: string, i: nat, k: nat): (found: seq<nat>)
    requires i <= |arn|
    ensures |found| <= k
    ensures forall n | 0 <= n < |found| :: i <= found[n] < |arn| && arn[found[n]] == ':'
    ensures forall n, m | 0 <= n < m < |found| :: found[n] < found[m]
    decreases |arn| - i
  {
    if i == |arn| || k == 0 then []
    else if arn[i] == ':' then [i] + Colons(arn, i + 1, k - 1)
    else Colons(arn, i + 1, k)
  }

  const KINDS := ["user/", "federated-user/", "u2f/", "mfa/"]

  const ASSUMED_ROLE := "assumed-role/"

  function SlashFrom(text: string, i: nat): (at: nat)
    requires i <= |text|
    ensures i <= at <= |text| && (at < |text| ==> text[at] == '/')
    ensures forall j | i <= j < at :: text[j] != '/'
    decreases |text| - i
  {
    if i == |text| || text[i] == '/' then i else SlashFrom(text, i + 1)
  }

  /** Where in a resource the name of a person starts, or -1. */
  function NameInResource(resource: string): int {
    if "user/" <= resource then 5
    else if "federated-user/" <= resource then 15
    else if "u2f/" <= resource then 4
    else if "mfa/" <= resource then 4
    else if !(ASSUMED_ROLE <= resource) then -1
    else
      var slash := SlashFrom(resource, |ASSUMED_ROLE|);
      if slash < |resource| then slash + 1 else -1
  }

  /** The index in an ARN at which a person's name begins; -1 for an ARN that names nobody. */
  function PersonNamed(arn: string): int {
    var colon := Colons(arn, 0, 5);
    if |colon| < 5 then -1
    else
      var partition, service, region := arn[colon[0] + 1..colon[1]], arn[colon[1] + 1..colon[2]], arn[colon[2] + 1..colon[3]];
      if partition == "" || (service != "iam" && service != "sts") || region != "" then -1
      else
        var name := NameInResource(arn[colon[4] + 1..]);
        if name < 0 then -1 else colon[4] + 1 + name
  }

  method FindColons(arn: string) returns (colon: seq<nat>)
    ensures colon == Colons(arn, 0, 5)
  {
    hide Colons;
    colon := [];
    var i := 0;
    while i < |arn| && |colon| < 5
      invariant i <= |arn| && |colon| <= 5 && Colons(arn, 0, 5) == colon + Colons(arn, i, 5 - |colon|)
    {
      NextColon(arn, i, colon);
      if arn[i] == ':' {
        colon := colon + [i];
      }
      i := i + 1;
    }
    NoMoreColons(arn, i, 5 - |colon|);
    assert colon + [] == colon;
  }

  lemma NextColon(arn: string, i: nat, colon: seq<nat>)
    requires i < |arn| && |colon| < 5
    ensures arn[i] == ':' ==> colon + Colons(arn, i, 5 - |colon|) == (colon + [i]) + Colons(arn, i + 1, 4 - |colon|)
    ensures arn[i] != ':' ==> Colons(arn, i, 5 - |colon|) == Colons(arn, i + 1, 5 - |colon|)
  {
    if arn[i] == ':' {
      var rest := Colons(arn, i + 1, 4 - |colon|);
      assert colon + ([i] + rest) == (colon + [i]) + rest;
    }
  }

  lemma NoMoreColons(arn: string, i: nat, k: nat)
    requires i <= |arn|
    ensures i == |arn| || k == 0 ==> Colons(arn, i, k) == []
  {
  }

  method FindName(resource: string) returns (name: int)
    ensures name == NameInResource(resource)
  {
    assert KINDS[0] == "user/" && KINDS[1] == "federated-user/" && KINDS[2] == "u2f/" && KINDS[3] == "mfa/";
    for n := 0 to |KINDS|
      invariant forall m | 0 <= m < n :: !(KINDS[m] <= resource)
    {
      if KINDS[n] <= resource {
        OneKind(resource, n);
        return |KINDS[n]|;
      }
    }
    if !(ASSUMED_ROLE <= resource) {
      return -1;
    }
    var i := |ASSUMED_ROLE|;
    while i < |resource|
      invariant |ASSUMED_ROLE| <= i <= |resource| && SlashFrom(resource, |ASSUMED_ROLE|) == SlashFrom(resource, i)
    {
      if resource[i] == '/' {
        return i + 1;
      }
      i := i + 1;
    }
    return -1;
  }

  /** A resource begins with one kind at most. */
  lemma OneKind(resource: string, n: nat)
    requires n < |KINDS| && KINDS[n] <= resource
    ensures NameInResource(resource) == |KINDS[n]|
  {
    assert resource[0] == KINDS[n][0] && resource[1] == KINDS[n][1];
    assert "user/"[0] == 'u' && "user/"[1] == 's' && "federated-user/"[0] == 'f' && "u2f/"[1] == '2' && "mfa/"[0] == 'm';
  }

  method FindPerson(arn: string) returns (name: int)
    ensures name == PersonNamed(arn)
  {
    hide Colons, NameInResource;
    var colon := FindColons(arn);
    if |colon| < 5 {
      return -1;
    }
    var partition, service, region := arn[colon[0] + 1..colon[1]], arn[colon[1] + 1..colon[2]], arn[colon[2] + 1..colon[3]];
    if partition == "" || (service != "iam" && service != "sts") || region != "" {
      return -1;
    }
    name := FindName(arn[colon[4] + 1..]);
    if name >= 0 {
      name := colon[4] + 1 + name;
    } else {
      name := -1;
    }
  }

  // ---- The first name of a run ----

  /** The least name start of the ARNs that start at or after at, or -1. */
  function FirstFrom(arns: string, at: nat): int
    requires at <= |arns|
    decreases |arns| - at
  {
    if at == |arns| then -1
    else
      var rest := FirstFrom(arns, at + 1);
      var name := if IsArn(arns, at) then PersonNamed(arns[at..]) else -1;
      if name < 0 then rest else if rest < 0 || at + name < rest then at + name else rest
  }

  function FirstName(arns: string): int {
    FirstFrom(arns, 0)
  }

  /** A name starts at p: of the ARN that starts at at. */
  ghost predicate NamedAt(arns: string, at: nat, p: int) {
    at < |arns| && IsArn(arns, at) && PersonNamed(arns[at..]) >= 0 && p == at + PersonNamed(arns[at..])
  }

  lemma {:induction false} FirstFromIsLeast(arns: string, at: nat)
    requires at <= |arns|
    ensures var first := FirstFrom(arns, at);
            (first >= 0 ==> exists i: nat :: at <= i && NamedAt(arns, i, first))
            && (first < 0 ==> first == -1)
            && forall i: nat, p | at <= i && NamedAt(arns, i, p) :: 0 <= first <= p
    decreases |arns| - at
  {
    if at < |arns| {
      FirstFromIsLeast(arns, at + 1);
      var first := FirstFrom(arns, at);
      if IsArn(arns, at) && PersonNamed(arns[at..]) >= 0 {
        assert NamedAt(arns, at, at + PersonNamed(arns[at..]));
      }
    }
  }

  method FindFirstName(arns: string) returns (first: int)
    ensures first == FirstName(arns)
  {
    hide PersonNamed, ArnFrom;
    first := -1;
    var at := ArnAt(arns, 0);
    FirstSkips(arns, 0, at);
    while at < |arns| && (first < 0 || at < first)
      invariant at <= |arns| && (at < |arns| ==> IsArn(arns, at)) && (first >= 0 || first == -1)
      invariant var rest := FirstFrom(arns, at);
                FirstName(arns) == if first < 0 then rest else if rest < 0 || first < rest then first else rest
    {
      var name := FindPerson(arns[at..]);
      if name >= 0 && (first < 0 || at + name < first) {
        first := at + name;
      }
      var next := ArnAt(arns, at + 1);
      FirstSkips(arns, at + 1, next);
      at := next;
    }
    FirstIsAfter(arns, at);
  }

  lemma FirstIsAfter(arns: string, at: nat)
    requires at <= |arns|
    ensures FirstFrom(arns, at) >= 0 ==> FirstFrom(arns, at) >= at
  {
    FirstFromIsLeast(arns, at);
  }

  lemma {:induction false} FirstSkips(arns: string, from: nat, to: nat)
    requires from <= to <= |arns| && forall i | from <= i < to :: !IsArn(arns, i)
    ensures FirstFrom(arns, from) == FirstFrom(arns, to)
    decreases |arns| - from
  {
    if from < to {
      FirstSkips(arns, from + 1, to);
    }
  }

  // ---- The message without its people ----

  function Redact(arns: string): string
  {
    var name := FirstName(arns);
    FirstNameInside(arns);
    if name >= 0 then arns[..name] + REMOVED else arns
  }

  /** A person's name starts after the ARN's first colon and inside it, behind a slash. */
  lemma PersonInside(arn: string)
    ensures var name := PersonNamed(arn);
            name == -1 || (5 <= name <= |arn| && arn[name - 1] == '/')
  {
    var colon := Colons(arn, 0, 5);
    if |colon| == 5 {
      var resource := arn[colon[4] + 1..];
      var name := NameInResource(resource);
      if name > 0 {
        assert arn[colon[4] + name] == resource[name - 1];
      }
    }
  }

  lemma FirstNameInside(arns: string)
    ensures var name := FirstName(arns); name == -1 || (5 <= name <= |arns| && arns[name - 1] == '/')
  {
    hide PersonNamed, IsArn;
    FirstFromIsLeast(arns, 0);
    if FirstName(arns) >= 0 {
      var i: nat :| NamedAt(arns, i, FirstName(arns));
      PersonInside(arns[i..]);
    }
  }

  function StripFrom(message: string, from: nat): string
    requires from <= |message|
    decreases |message| - from
  {
    var start := ArnFrom(message, from);
    if start == |message| then message[from..]
    else
      ArnIsPrintable(message, start);
      var end := RunEnd(message, start);
      message[from..start] + Redact(message[start..end]) + StripFrom(message, end)
  }

  function WithoutPeople(message: string): string {
    StripFrom(message, 0)
  }

  lemma ArnIsPrintable(message: string, start: nat)
    requires start < |message| && IsArn(message, start)
    ensures start + 4 <= RunEnd(message, start)
  {
    assert RunEnd(message, start) == RunEnd(message, start + 1) == RunEnd(message, start + 2)
        == RunEnd(message, start + 3) == RunEnd(message, start + 4);
  }

  lemma StripOpens(message: string, from: nat, start: nat, end: nat)
    requires from <= |message| && start == ArnFrom(message, from) && end == RunEnd(message, start)
    ensures StripFrom(message, from) ==
            if start == |message| then message[from..] else message[from..start] + Redact(message[start..end]) + StripFrom(message, end)
  {
  }

  lemma Regroup(out: string, a: string, b: string, r: string, s: string)
    ensures (out + a) + (b + r + s) == (out + (a + b)) + (r + s)
    ensures (out + a) + ((b + r) + s) == (out + (a + b) + r) + "" + s
  {
    assert b + r + s == b + (r + s);
    Together(out, a, b, r + s);
    assert (out + (a + b)) + (r + s) == ((out + (a + b)) + r) + s;
    assert (out + (a + b) + r) + "" == out + (a + b) + r;
  }

  lemma Together(out: string, a: string, b: string, more: string)
    ensures (out + a) + (b + more) == (out + (a + b)) + more
  {
  }

  lemma SlicesJoin(text: string, i: nat, j: nat, k: nat)
    requires i <= j <= k <= |text|
    ensures text[i..j] + text[j..k] == text[i..k]
  {
  }

  lemma SliceOfSlice(text: string, i: nat, j: nat, n: nat)
    requires i + n <= j <= |text|
    ensures text[i..j][..n] == text[i..i + n]
  {
  }

  /** out holds what becomes of message up to copied; from there to last nothing changes. */
  ghost predicate Copied(message: string, out: string, copied: nat, last: nat) {
    copied <= last <= |message| && WithoutPeople(message) == out + message[copied..last] + StripFrom(message, last)
  }

  lemma NextStretch(message: string, out: string, copied: nat, last: nat, start: nat, end: nat)
    requires Copied(message, out, copied, last) && start == ArnFrom(message, last) < |message| && end == RunEnd(message, start)
    ensures copied <= start <= end <= |message|
    ensures WithoutPeople(message) == out + message[copied..start] + (Redact(message[start..end]) + StripFrom(message, end))
  {
    StripOpens(message, last, start, end);
    hide Redact, ArnFrom, StripFrom;
    Regroup(out, message[copied..last], message[last..start], Redact(message[start..end]), StripFrom(message, end));
    SlicesJoin(message, copied, last, start);
  }

  lemma StretchKept(message: string, out: string, copied: nat, last: nat, start: nat, end: nat)
    requires Copied(message, out, copied, last) && start == ArnFrom(message, last) < |message| && end == RunEnd(message, start)
    requires FirstName(message[start..end]) < 0
    ensures Copied(message, out, copied, end)
  {
    NextStretch(message, out, copied, last, start, end);
    hide ArnFrom, StripFrom;
    Together(out, message[copied..start], message[start..end], StripFrom(message, end));
    SlicesJoin(message, copied, start, end);
  }

  lemma StretchCut(message: string, out: string, copied: nat, last: nat, start: nat, end: nat, name: nat)
    requires Copied(message, out, copied, last) && start == ArnFrom(message, last) < |message| && end == RunEnd(message, start)
    requires FirstName(message[start..end]) == name
    ensures start + name <= end && Copied(message, out + message[copied..start + name] + REMOVED, end, end)
  {
    hide ArnFrom, StripFrom, Redact, WithoutPeople, FirstName, RunEnd;
    NextStretch(message, out, copied, last, start, end);
    RedactIs(message[start..end], name);
    var rest := StripFrom(message, end);
    SliceOfSlice(message, start, end, name);
    Regroup(out, message[copied..start], message[start..start + name], REMOVED, rest);
    SlicesJoin(message, copied, start, start + name);
    assert message[end..end] == "";
  }

  /** The engine's loop: what stands before each name is copied as it is reached. */
  method Strip(message: string) returns (text: string)
    ensures text == WithoutPeople(message)
  {
    hide Redact, ArnFrom, RunEnd, FirstName, StripFrom, WithoutPeople, Copied;
    var out := "";
    var copied := 0;
    NothingCopied(message);
    ghost var last := 0;
    var start, end := NextArns(message, 0);
    while start < |message|
      invariant last <= start <= end <= |message| && copied <= last
      invariant end == RunEnd(message, start) && start == ArnFrom(message, last)
      invariant Copied(message, out, copied, last)
      decreases |message| - start
    {
      ArnIsPrintable(message, start);
      var name := FindFirstName(message[start..end]);
      if name >= 0 {
        StretchCut(message, out, copied, last, start, end, name);
        out := out + message[copied..start + name];
        out := out + REMOVED;
        copied := end;
      } else {
        StretchKept(message, out, copied, last, start, end);
      }
      last := end;
      start, end := NextArns(message, end);
    }
    AllCopied(message, out, copied, last);
    return out + message[copied..];
  }

  lemma NothingCopied(message: string)
    ensures Copied(message, "", 0, 0)
  {
  }

  lemma AllCopied(message: string, out: string, copied: nat, last: nat)
    requires Copied(message, out, copied, last) && ArnFrom(message, last) == |message|
    ensures out + message[copied..] == WithoutPeople(message)
  {
    hide ArnFrom, StripFrom, Redact, RunEnd;
    StripOpens(message, last, |message|, |message|);
    Together(out, message[copied..last], message[last..], "");
    SlicesJoin(message, copied, last, |message|);
  }

  lemma RedactIs(arns: string, name: int)
    requires name == FirstName(arns)
    ensures name <= |arns| && Redact(arns) == if name >= 0 then arns[..name] + REMOVED else arns
  {
    FirstNameInside(arns);
  }

  // ---- A name is read from what stands before it ----

  lemma {:induction false} ColonsByPrefix(x: string, y: string, i: nat, n: nat, k: nat)
    requires i <= k <= |x| && k <= |y| && y[..k] == x[..k]
    requires |Colons(x, i, n)| == n && forall c | c in Colons(x, i, n) :: c < k
    ensures Colons(y, i, n) == Colons(x, i, n)
    decreases k - i
  {
    if n > 0 {
      assert Colons(x, i, n)[0] in Colons(x, i, n);
      assert x[..k][i] == y[..k][i];
      if x[i] == ':' {
        var tail := Colons(x, i + 1, n - 1);
        assert Colons(x, i, n) == [i] + tail;
        forall c | c in tail ensures c < k {
          assert c in [i] + tail;
        }
        ColonsByPrefix(x, y, i + 1, n - 1, k);
      } else {
        ColonsByPrefix(x, y, i + 1, n, k);
      }
    }
  }

  lemma {:induction false} SlashByPrefix(x: string, y: string, i: nat, k: nat)
    requires i < k <= |x| && k <= |y| && y[..k] == x[..k] && SlashFrom(x, i) == k - 1
    ensures SlashFrom(y, i) == k - 1
    decreases k - i
  {
    assert x[..k][i] == y[..k][i];
    if i < k - 1 {
      SlashByPrefix(x, y, i + 1, k);
    }
  }

  lemma NameByPrefix(x: string, y: string)
    requires var k := NameInResource(x); 0 <= k <= |x| && k <= |y| && y[..k] == x[..k]
    ensures NameInResource(y) == NameInResource(x)
  {
    var k := NameInResource(x);
    assert forall j | 0 <= j < k :: y[j] == y[..k][j] == x[..k][j] == x[j];
    if "user/" <= x {
    } else if "federated-user/" <= x {
      assert y[0] == 'f';
    } else if "u2f/" <= x {
      assert y[1] == '2';
    } else if "mfa/" <= x {
      assert y[0] == 'm';
    } else {
      assert y[0] == 'a' && ASSUMED_ROLE <= y;
      SlashByPrefix(x, y, |ASSUMED_ROLE|, k);
    }
  }

  lemma SamePart(x: string, y: string, i: nat, j: nat, k: nat)
    requires i <= j <= k <= |x| && k <= |y| && y[..k] == x[..k]
    ensures x[i..j] == y[i..j]
  {
    assert x[i..j] == x[..k][i..j] && y[i..j] == y[..k][i..j];
  }

  /** Whatever follows the start of a name, the ARN names a person there. */
  lemma PersonByPrefix(x: string, y: string)
    requires var k := PersonNamed(x); 0 <= k <= |x| && k <= |y| && y[..k] == x[..k]
    ensures PersonNamed(y) == PersonNamed(x)
  {
    hide Colons, NameInResource;
    var k := PersonNamed(x);
    var colon := Colons(x, 0, 5);
    var at := colon[4] + 1;
    NameIsForward(x[at..]);
    ColonsByPrefix(x, y, 0, 5, k);
    SamePart(x, y, colon[0] + 1, colon[1], k);
    SamePart(x, y, colon[1] + 1, colon[2], k);
    SamePart(x, y, colon[2] + 1, colon[3], k);
    SamePart(x, y, at, k, k);
    assert x[at..][..k - at] == x[at..k] && y[at..][..k - at] == y[at..k];
    NameByPrefix(x[at..], y[at..]);
  }

  lemma NameIsForward(resource: string)
    ensures var name := NameInResource(resource); name == -1 || 4 <= name <= |resource|
  {
  }

  // ---- Redacting twice is redacting once ----

  lemma RemovedCharacters(k: nat)
    requires k < |REMOVED|
    ensures REMOVED[k] !in "a:/" && Printable(REMOVED[k])
  {
  }

  /** What the redacted run holds: the run up to its first name, then the token. */
  lemma RedactedBytes(arns: string, j: nat)
    requires FirstName(arns) >= 0 && j < |Redact(arns)|
    ensures 5 <= FirstName(arns) <= |arns| && |Redact(arns)| == FirstName(arns) + |REMOVED|
    ensures j < FirstName(arns) ==> Redact(arns)[j] == arns[j]
    ensures j >= FirstName(arns) ==> Redact(arns)[j] !in "a:/"
  {
    FirstNameInside(arns);
    if j >= FirstName(arns) {
      RemovedCharacters(j - FirstName(arns));
    }
  }

  lemma SameHead(x: string, y: string, i: nat, k: nat)
    requires i <= k <= |x| && k <= |y| && forall j | 0 <= j < k :: x[j] == y[j]
    ensures x[i..][..k - i] == y[i..][..k - i]
  {
  }

  /** A name in the run that starts before the first name of the other is a name there too. */
  lemma NamedInBoth(x: string, y: string, i: nat, k: nat)
    requires NamedAt(x, i, k) && k <= |y| && forall j | 0 <= j < k :: x[j] == y[j]
    ensures NamedAt(y, i, k)
  {
    PersonInside(x[i..]);
    SameHead(x, y, i, k);
    hide PersonNamed;
    PersonByPrefix(x[i..], y[i..]);
  }

  /** The names in a redacted run: none before the first, which stays where it was, and none inside the token. */
  lemma RedactedNames(arns: string, i: nat, p: int)
    requires FirstName(arns) >= 0 && NamedAt(Redact(arns), i, p)
    ensures p == FirstName(arns)
  {
    var name, red := FirstName(arns), Redact(arns);
    PersonInside(red[i..]);
    FirstFromIsLeast(arns, 0);
    hide PersonNamed, FirstName, Redact, IsArn;
    assert red[i..][p - i - 1] == red[p - 1];
    RedactedBytes(arns, p - 1);
    if p < name {
      forall j | 0 <= j < p ensures red[j] == arns[j] { RedactedBytes(arns, j); }
      NamedInBoth(red, arns, i, p);
    }
  }

  lemma RedactKeepsFirstName(arns: string)
    requires FirstName(arns) >= 0
    ensures FirstName(Redact(arns)) == FirstName(arns)
  {
    var name, red := FirstName(arns), Redact(arns);
    FirstFromIsLeast(arns, 0);
    FirstFromIsLeast(red, 0);
    RedactIs(arns, name);
    hide FirstFrom, Redact, NamedAt;
    var i: nat :| NamedAt(arns, i, name);
    forall j | 0 <= j < name ensures red[j] == arns[j] { RedactedBytes(arns, j); }
    NamedInBoth(arns, red, i, name);
    var j: nat :| NamedAt(red, j, FirstName(red));
    RedactedNames(arns, j, FirstName(red));
  }

  lemma RedactIsIdempotent(arns: string)
    ensures Redact(Redact(arns)) == Redact(arns)
  {
    FirstNameInside(arns);
    if FirstName(arns) >= 0 {
      RedactKeepsFirstName(arns);
    }
  }

  // ---- Messages, stretch by stretch ----

  lemma {:induction false} ArnFromIs(text: string, from: nat, at: nat)
    requires from <= at <= |text| && (at < |text| ==> IsArn(text, at)) && forall i | from <= i < at :: !IsArn(text, i)
    ensures ArnFrom(text, from) == at
  {
    var found := ArnFrom(text, from);
    assert found < |text| ==> IsArn(text, found);
  }

  lemma RunEndIs(text: string, i: nat, end: nat)
    requires i <= end <= |text| && (end < |text| ==> !Printable(text[end])) && forall j | i <= j < end :: Printable(text[j])
    ensures RunEnd(text, i) == end
  {
    var found := RunEnd(text, i);
  }

  lemma IsArnInSlice(text: string, i: nat, at: nat)
    requires i <= at <= |text|
    ensures IsArn(text[i..], at - i) <==> IsArn(text, at)
  {
  }

  /** What becomes of the rest of a message depends on nothing before it. */
  lemma {:induction false} StripOfSlice(message: string, i: nat, from: nat)
    requires i <= from <= |message|
    ensures StripFrom(message[i..], from - i) == StripFrom(message, from)
    decreases |message| - from
  {
    hide Redact, ArnFrom, RunEnd, IsArn, StripFrom, Printable;
    var rest := message[i..];
    var start := ArnFrom(message, from);
    ArnFromOfSlice(message, i, from);
    if start < |message| {
      ArnIsPrintable(message, start);
      var end := RunEnd(message, start);
      RunEndOfSlice(message, i, start);
      StripOfSlice(message, i, end);
      StripOpens(message, from, start, end);
      StripOpens(rest, from - i, start - i, end - i);
      PartOfSlice(message, i, from, start);
      PartOfSlice(message, i, start, end);
    } else {
      StripOpens(message, from, start, RunEnd(message, start));
      StripOpens(rest, from - i, start - i, RunEnd(rest, start - i));
      PartOfSlice(message, i, from, start);
    }
  }

  lemma PartOfSlice(text: string, i: nat, a: nat, b: nat)
    requires i <= a <= b <= |text|
    ensures text[i..][a - i..b - i] == text[a..b] && text[i..][a - i..] == text[a..]
  {
  }

  lemma ArnFromOfSlice(message: string, i: nat, from: nat)
    requires i <= from <= |message|
    ensures ArnFrom(message[i..], from - i) == ArnFrom(message, from) - i
  {
    hide ArnFrom, IsArn;
    var rest, start := message[i..], ArnFrom(message, from);
    forall j | from <= j <= start ensures IsArn(rest, j - i) <==> IsArn(message, j) { IsArnInSlice(message, i, j); }
    forall j | from - i <= j < start - i ensures !IsArn(rest, j) { IsArnInSlice(message, i, j + i); }
    ArnFromIs(rest, from - i, start - i);
  }

  lemma RunEndOfSlice(message: string, i: nat, start: nat)
    requires i <= start <= |message|
    ensures RunEnd(message[i..], start - i) == RunEnd(message, start) - i
  {
    hide RunEnd, Printable;
    RunEndIs(message[i..], start - i, RunEnd(message, start) - i);
  }

  /** A stretch of ARNs: one starts it, and no byte of it ends a run. */
  ghost predicate Stretch(s: string) {
    IsArn(s, 0) && forall c | c in s :: Printable(c)
  }

  /** Nothing of the run before it: a text that starts with a byte no ARN may hold, or no text. */
  ghost predicate Outside(rest: string) {
    rest == "" || !Printable(rest[0])
  }

  ghost predicate NoArnBefore(pre: string, s: string) {
    forall i | 0 <= i < |pre| :: !IsArn(pre + s, i)
  }

  lemma StretchBounds(pre: string, s: string, rest: string)
    requires Stretch(s) && Outside(rest) && NoArnBefore(pre, s)
    ensures var m := pre + s + rest; ArnFrom(m, 0) == |pre| && RunEnd(m, |pre|) == |pre| + |s|
  {
    hide ArnFrom, RunEnd;
    var m := pre + s + rest;
    forall i | 0 <= i < |pre| ensures !IsArn(m, i) {
      assert IsArn(m, i) ==> IsArn(pre + s, i);
    }
    ArnFromIs(m, 0, |pre|);
    forall j | |pre| <= j < |pre| + |s| ensures Printable(m[j]) {
      assert m[j] == s[j - |pre|] && s[j - |pre|] in s;
    }
    RunEndIs(m, |pre|, |pre| + |s|);
  }

  lemma StretchInPlace(pre: string, s: string, rest: string)
    requires Stretch(s) && Outside(rest) && NoArnBefore(pre, s)
    ensures WithoutPeople(pre + s + rest) == pre + Redact(s) + WithoutPeople(rest)
  {
    StretchBounds(pre, s, rest);
    hide Redact, ArnFrom, RunEnd, StripFrom, Stretch, NoArnBefore;
    var m, end := pre + s + rest, |pre| + |s|;
    StripOpens(m, 0, |pre|, end);
    StripOfSlice(m, end, end);
    assert m[0..|pre|] == pre && m[|pre|..end] == s && m[end..] == rest;
  }

  /** Every message with an ARN is what stands before its first stretch, the stretch, and the rest. */
  lemma FirstStretch(m: string, start: nat, end: nat)
    requires start == ArnFrom(m, 0) < |m| && end == RunEnd(m, start)
    ensures start + 4 <= end <= |m| && m == m[..start] + m[start..end] + m[end..]
    ensures Stretch(m[start..end]) && Outside(m[end..]) && NoArnBefore(m[..start], m[start..end])
    ensures WithoutPeople(m) == m[..start] + Redact(m[start..end]) + WithoutPeople(m[end..])
  {
    ArnIsPrintable(m, start);
    var pre, s, rest := m[..start], m[start..end], m[end..];
    assert m == pre + s + rest;
    forall i | 0 <= i < |pre| ensures !IsArn(pre + s, i) {
      assert IsArn(pre + s, i) ==> IsArn(m, i);
    }
    StretchInPlace(pre, s, rest);
  }

  lemma RedactedStretch(pre: string, s: string)
    requires Stretch(s) && NoArnBefore(pre, s)
    ensures Stretch(Redact(s)) && NoArnBefore(pre, Redact(s))
  {
    FirstNameInside(s);
    var red := Redact(s);
    assert forall c | c in REMOVED :: Printable(c);
    assert |red| >= 4 && red[..4] == s[..4];
    assert forall j | 0 <= j < 4 :: red[j] == red[..4][j] == s[..4][j] == s[j];
    forall c | c in red ensures Printable(c) {
      assert c in s || c in REMOVED;
    }
    forall i | 0 <= i < |pre| ensures !IsArn(pre + red, i) {
      assert !IsArn(pre + s, i);
    }
  }

  lemma OutsideStays(rest: string)
    requires Outside(rest)
    ensures Outside(WithoutPeople(rest))
  {
    if rest != "" {
      var start := ArnFrom(rest, 0);
      if start < |rest| {
        FirstStretch(rest, start, RunEnd(rest, start));
        assert start > 0;
      }
    }
  }

  /** Stripping twice is stripping once. */
  lemma {:induction false} WithoutPeopleIsIdempotent(m: string)
    ensures WithoutPeople(WithoutPeople(m)) == WithoutPeople(m)
    decreases |m|
  {
    hide Redact, FirstName, IsArn;
    var start := ArnFrom(m, 0);
    if start < |m| {
      var end := RunEnd(m, start);
      FirstStretch(m, start, end);
      var pre, s, rest := m[..start], m[start..end], m[end..];
      RedactedStretch(pre, s);
      OutsideStays(rest);
      StretchInPlace(pre, Redact(s), WithoutPeople(rest));
      RedactIsIdempotent(s);
      WithoutPeopleIsIdempotent(rest);
    } else {
      StripOpens(m, 0, start, RunEnd(m, start));
      assert WithoutPeople(m) == m;
    }
  }

  // ---- Who a message names ----

  /** The ARN at at names someone, the name running from p as far as the ARN does. */
  ghost predicate NamesPerson(m: string, at: nat, p: int) {
    at <= |m| && IsArn(m, at) && PersonNamed(m[at..RunEnd(m, at)]) >= 0 && p == at + PersonNamed(m[at..RunEnd(m, at)])
  }

  lemma ArnStaysInside(pre: string, s: string, rest: string, at: nat)
    requires Stretch(s) && Outside(rest) && IsArn(pre + s + rest, at) && at < |pre| + |s|
    ensures at + 4 <= |pre| + |s|
  {
    var m, end := pre + s + rest, |pre| + |s|;
    assert forall j | at <= j < at + 4 :: Printable(m[j]);
    assert end < |m| ==> m[end] == rest[0];
  }

  /** The people named in a message are those its first stretch names and those named after it. */
  lemma WhoIsNamed(pre: string, s: string, rest: string, at: nat, p: int)
    requires Stretch(s) && Outside(rest) && NoArnBefore(pre, s)
    ensures var m, end := pre + s + rest, |pre| + |s|;
            NamesPerson(m, at, p) <==>
              (if at < end then |pre| <= at && NamedAt(s, at - |pre|, p - |pre|) else NamesPerson(rest, at - end, p - end))
    ensures var m, end := pre + s + rest, |pre| + |s|;
            |pre| <= at < end && IsArn(m, at) ==> RunEnd(m, at) == end
    ensures var m, end := pre + s + rest, |pre| + |s|;
            end <= at <= |m| ==> RunEnd(m, at) == end + RunEnd(rest, at - end)
  {
    hide PersonNamed, RunEnd, NoArnBefore, Stretch, Outside, IsArn, Printable;
    if at < |pre| + |s| {
      WhoIsNamedInside(pre, s, rest, at, p);
    } else {
      WhoIsNamedBehind(pre, s, rest, at, p);
    }
  }

  lemma WhoIsNamedInside(pre: string, s: string, rest: string, at: nat, p: int)
    requires Stretch(s) && Outside(rest) && NoArnBefore(pre, s) && at < |pre| + |s|
    ensures var m := pre + s + rest;
            NamesPerson(m, at, p) <==> |pre| <= at && NamedAt(s, at - |pre|, p - |pre|)
    ensures var m, end := pre + s + rest, |pre| + |s|;
            |pre| <= at && IsArn(m, at) ==> RunEnd(m, at) == end
  {
    var m, end := pre + s + rest, |pre| + |s|;
    StretchBounds(pre, s, rest);
    hide PersonNamed, RunEnd, NoArnBefore;
    if IsArn(m, at) {
      ArnStaysInside(pre, s, rest, at);
      if at < |pre| {
        NoneBefore(pre, s, rest, at);
      } else {
        forall j | at <= j < end ensures Printable(m[j]) {
          assert m[j] == s[j - |pre|] && s[j - |pre|] in s;
        }
        RunEndIs(m, at, end);
        assert m[at..end] == s[at - |pre|..];
      }
    } else if |pre| <= at {
      assert IsArn(s, at - |pre|) ==> IsArn(m, at);
    }
  }

  lemma WhoIsNamedBehind(pre: string, s: string, rest: string, at: nat, p: int)
    requires |pre| + |s| <= at
    ensures var m, end := pre + s + rest, |pre| + |s|;
            && (NamesPerson(m, at, p) <==> NamesPerson(rest, at - end, p - end))
            && (at <= |m| ==> RunEnd(m, at) == end + RunEnd(rest, at - end))
  {
    hide PersonNamed, RunEnd, IsArn;
    var m, end := pre + s + rest, |pre| + |s|;
    if at <= |m| {
      IsArnInSlice(m, end, at);
      assert m[end..] == rest;
      var stop := end + RunEnd(rest, at - end);
      forall j | at <= j < stop ensures Printable(m[j]) { assert m[j] == rest[j - end]; }
      RunEndIs(m, at, stop);
      assert m[at..stop] == rest[at - end..stop - end];
    }
  }

  lemma NoneBefore(pre: string, s: string, rest: string, at: nat)
    requires NoArnBefore(pre, s) && IsArn(pre + s + rest, at) && at + 4 <= |pre| + |s|
    ensures at >= |pre|
  {
    assert IsArn(pre + s, at);
  }

  /** No ARN names anyone but the token. */
  ghost predicate NamesOnlyRemoved(m: string) {
    forall at: nat, p | NamesPerson(m, at, p) :: 0 <= p <= RunEnd(m, at) && m[p..RunEnd(m, at)] == REMOVED
  }

  lemma RedactedTail(s: string, i: nat, p: int)
    requires NamedAt(Redact(s), i, p)
    ensures 0 <= p <= |Redact(s)| && Redact(s)[p..] == REMOVED
  {
    FirstFromIsLeast(s, 0);
    if FirstName(s) >= 0 {
      RedactedNames(s, i, p);
      RedactedBytes(s, 0);
    }
  }

  lemma RedactedNamesOnlyRemoved(pre: string, s: string, after: string)
    requires Stretch(Redact(s)) && NoArnBefore(pre, Redact(s)) && Outside(after) && NamesOnlyRemoved(after)
    ensures NamesOnlyRemoved(pre + Redact(s) + after)
  {
    hide Redact, PersonNamed, RunEnd, NoArnBefore, FirstName, Stretch, NamedAt;
    var red := Redact(s);
    var out, stop := pre + red + after, |pre| + |red|;
    forall at: nat, p | NamesPerson(out, at, p) ensures 0 <= p <= RunEnd(out, at) && out[p..RunEnd(out, at)] == REMOVED {
      WhoIsNamed(pre, red, after, at, p);
      if at < stop {
        RedactedTail(s, at - |pre|, p - |pre|);
        assert out[p..stop] == red[p - |pre|..];
      } else {
        assert out[p..RunEnd(out, at)] == after[p - stop..RunEnd(after, at - stop)];
      }
    }
  }

  /** Whatever a message held, no ARN in what becomes of it names a person. */
  lemma {:induction false} NobodyIsNamed(m: string)
    ensures NamesOnlyRemoved(WithoutPeople(m))
    decreases |m|
  {
    hide NamesOnlyRemoved, Redact, Stretch, NoArnBefore;
    var start := ArnFrom(m, 0);
    if start < |m| {
      var end := RunEnd(m, start);
      FirstStretch(m, start, end);
      RedactedStretch(m[..start], m[start..end]);
      OutsideStays(m[end..]);
      NobodyIsNamed(m[end..]);
      RedactedNamesOnlyRemoved(m[..start], m[start..end], WithoutPeople(m[end..]));
    } else {
      StripOpens(m, 0, start, RunEnd(m, start));
      NoArnNamesNobody(m);
    }
  }

  lemma NoArnNamesNobody(m: string)
    requires ArnFrom(m, 0) == |m|
    ensures NamesOnlyRemoved(m) && WithoutPeople(m) == m && forall q: nat :: !Named(m, q)
  {
    StripOpens(m, 0, |m|, RunEnd(m, |m|));
  }

  // ---- What is left as it was ----

  /** A part of a message: left byte for byte, or cut for the token. */
  datatype Piece = Kept(text: string) | Cut(text: string)

  function Original(pieces: seq<Piece>): string {
    if pieces == [] then "" else pieces[0].text + Original(pieces[1..])
  }

  function Written(pieces: seq<Piece>): string {
    if pieces == [] then "" else (if pieces[0].Kept? then pieces[0].text else REMOVED) + Written(pieces[1..])
  }

  /** The byte at q of the original is in a part that is cut. */
  predicate IsCut(pieces: seq<Piece>, q: nat) {
    pieces != []
    && if q < |pieces[0].text| then pieces[0].Cut? else IsCut(pieces[1..], q - |pieces[0].text|)
  }

  function StretchPieces(s: string): seq<Piece> {
    var name := FirstName(s);
    FirstNameInside(s);
    if name < 0 then [Kept(s)] else [Kept(s[..name]), Cut(s[name..])]
  }

  function Pieces(m: string): seq<Piece>
    decreases |m|
  {
    var start := ArnFrom(m, 0);
    if start == |m| then [Kept(m)]
    else
      ArnIsPrintable(m, start);
      var end := RunEnd(m, start);
      [Kept(m[..start])] + StretchPieces(m[start..end]) + Pieces(m[end..])
  }

  lemma {:induction false} PiecesAppend(a: seq<Piece>, b: seq<Piece>)
    ensures Original(a + b) == Original(a) + Original(b) && Written(a + b) == Written(a) + Written(b)
    ensures forall q: nat :: IsCut(a + b, q) <==> if q < |Original(a)| then IsCut(a, q) else IsCut(b, q - |Original(a)|)
  {
    hide IsCut;
    TextsAppend(a, b);
    forall q: nat ensures IsCut(a + b, q) <==> if q < |Original(a)| then IsCut(a, q) else IsCut(b, q - |Original(a)|) {
      CutsAppend(a, b, q);
    }
  }

  lemma {:induction false} TextsAppend(a: seq<Piece>, b: seq<Piece>)
    ensures Original(a + b) == Original(a) + Original(b) && Written(a + b) == Written(a) + Written(b)
  {
    if a == [] {
      assert a + b == b;
    } else {
      assert (a + b)[0] == a[0] && (a + b)[1..] == a[1..] + b;
      TextsAppend(a[1..], b);
      var text, written := a[0].text, if a[0].Kept? then a[0].text else REMOVED;
      assert text + (Original(a[1..]) + Original(b)) == (text + Original(a[1..])) + Original(b);
      assert written + (Written(a[1..]) + Written(b)) == (written + Written(a[1..])) + Written(b);
    }
  }

  lemma {:induction false} CutsAppend(a: seq<Piece>, b: seq<Piece>, q: nat)
    ensures IsCut(a + b, q) <==> if q < |Original(a)| then IsCut(a, q) else IsCut(b, q - |Original(a)|)
  {
    if a == [] {
      assert a + b == b;
    } else {
      assert (a + b)[1..] == a[1..] + b;
      var n := |Original(a)| - |Original(a[1..])|;
      if q >= n {
        CutsAppend(a[1..], b, q - n);
      }
    }
  }

  /** Someone is named at the byte at q. */
  ghost predicate Named(m: string, q: nat) {
    exists at: nat, p :: NamesPerson(m, at, p) && p <= q < RunEnd(m, at)
  }

  lemma StretchIsPieces(s: string)
    ensures Original(StretchPieces(s)) == s && Written(StretchPieces(s)) == Redact(s)
    ensures forall q: nat | q < |s| :: IsCut(StretchPieces(s), q) <==> 0 <= FirstName(s) <= q
  {
    var name := FirstName(s);
    FirstNameInside(s);
    if name >= 0 {
      var pieces := StretchPieces(s);
      assert pieces[1..] == [Cut(s[name..])] && pieces[1..][1..] == [];
      assert Original(pieces[1..]) == s[name..] + Original([]);
      assert Written(pieces[1..]) == REMOVED + Written([]);
      assert s[..name] + s[name..] == s;
    } else {
      assert [Kept(s)][1..] == [];
    }
  }

  /** Where the first stretch ends, the people it names and those named after it do not mix. */
  lemma NamedBeforeEnd(pre: string, s: string, rest: string, at: nat, p: int, q: nat)
    requires Stretch(s) && Outside(rest) && NoArnBefore(pre, s)
    requires var m := pre + s + rest; NamesPerson(m, at, p) && p <= q < RunEnd(m, at)
    ensures var end := |pre| + |s|; if q < end then |pre| <= q && 0 <= FirstName(s) <= q - |pre| else Named(rest, q - end)
  {
    hide PersonNamed, RunEnd, NoArnBefore, FirstFrom, NamedAt, Stretch, Outside, IsArn;
    FirstFromIsLeast(s, 0);
    var m, end := pre + s + rest, |pre| + |s|;
    WhoIsNamed(pre, s, rest, at, p);
    NamesInRun(m, at, p);
    if at >= end {
      assert NamesPerson(rest, at - end, p - end);
    }
  }

  /** Where someone is named at q in a message, q is in the first stretch behind its first name, or someone is named there after it. */
  lemma NamedIsCut(pre: string, s: string, rest: string, q: nat)
    requires Stretch(s) && Outside(rest) && NoArnBefore(pre, s) && Named(pre + s + rest, q)
    ensures var end := |pre| + |s|; if q < end then |pre| <= q && 0 <= FirstName(s) <= q - |pre| else Named(rest, q - end)
  {
    hide PersonNamed, RunEnd, NoArnBefore, FirstName, NamedAt, Stretch, Outside, IsArn;
    var m := pre + s + rest;
    var at: nat, p :| NamesPerson(m, at, p) && p <= q < RunEnd(m, at);
    NamedBeforeEnd(pre, s, rest, at, p, q);
  }

  lemma CutIsNamed(pre: string, s: string, rest: string, q: nat)
    requires Stretch(s) && Outside(rest) && NoArnBefore(pre, s)
    requires var end := |pre| + |s|; if q < end then |pre| <= q && 0 <= FirstName(s) <= q - |pre| else Named(rest, q - end)
    ensures Named(pre + s + rest, q)
  {
    hide PersonNamed, RunEnd, NoArnBefore, FirstFrom, NamedAt, Stretch, Outside, IsArn;
    var m, end := pre + s + rest, |pre| + |s|;
    FirstFromIsLeast(s, 0);
    if q < end {
      var i: nat :| NamedAt(s, i, FirstName(s));
      NamedInStretch(pre, s, rest, i, FirstName(s), q);
    } else {
      NamedInRest(pre, s, rest, q);
    }
  }

  lemma NamedInStretch(pre: string, s: string, rest: string, i: nat, p: int, q: nat)
    requires Stretch(s) && Outside(rest) && NoArnBefore(pre, s) && NamedAt(s, i, p) && |pre| + p <= q < |pre| + |s|
    ensures Named(pre + s + rest, q)
  {
    hide PersonNamed, RunEnd, NoArnBefore, FirstFrom, NamedAt, Stretch, Outside, IsArn;
    NamedInside(s, i, p);
    WhoIsNamed(pre, s, rest, |pre| + i, |pre| + p);
    NamesInRun(pre + s + rest, |pre| + i, |pre| + p);
    assert NamesPerson(pre + s + rest, |pre| + i, |pre| + p);
  }

  lemma NamedInRest(pre: string, s: string, rest: string, q: nat)
    requires Stretch(s) && Outside(rest) && NoArnBefore(pre, s) && |pre| + |s| <= q && Named(rest, q - (|pre| + |s|))
    ensures Named(pre + s + rest, q)
  {
    hide PersonNamed, RunEnd, NoArnBefore, FirstFrom, NamedAt, Stretch, Outside, IsArn;
    var end := |pre| + |s|;
    var at: nat, p :| NamesPerson(rest, at, p) && p <= q - end < RunEnd(rest, at);
    NamesInRun(rest, at, p);
    WhoIsNamed(pre, s, rest, at + end, p + end);
    assert NamesPerson(pre + s + rest, at + end, p + end);
  }

  lemma NamesInRun(m: string, at: nat, p: int)
    requires NamesPerson(m, at, p)
    ensures at <= |m| && at < p <= RunEnd(m, at) && IsArn(m, at)
  {
    PersonInside(m[at..RunEnd(m, at)]);
  }

  lemma NamedInside(s: string, i: nat, p: int)
    requires NamedAt(s, i, p)
    ensures i < p <= |s|
  {
    PersonInside(s[i..]);
  }

  lemma StretchCutsNames(pre: string, s: string, rest: string)
    requires Stretch(s) && Outside(rest) && NoArnBefore(pre, s)
    requires Original(Pieces(rest)) == rest && forall q: nat | q < |rest| :: IsCut(Pieces(rest), q) <==> Named(rest, q)
    ensures var m, pieces := pre + s + rest, [Kept(pre)] + StretchPieces(s) + Pieces(rest);
            Original(pieces) == m && Written(pieces) == pre + Redact(s) + Written(Pieces(rest))
            && forall q: nat | q < |m| :: IsCut(pieces, q) <==> Named(m, q)
  {
    StretchIsPieces(s);
    assert [Kept(pre)][1..] == [];
    PiecesAppend([Kept(pre)], StretchPieces(s));
    PiecesAppend([Kept(pre)] + StretchPieces(s), Pieces(rest));
    hide StretchPieces, Stretch, NoArnBefore, Named, FirstName, Redact, Pieces;
    var m, pieces := pre + s + rest, [Kept(pre)] + StretchPieces(s) + Pieces(rest);
    forall q: nat | q < |m| ensures IsCut(pieces, q) <==> Named(m, q) {
      if Named(m, q) {
        NamedIsCut(pre, s, rest, q);
      }
      if IsCut(pieces, q) {
        CutIsNamed(pre, s, rest, q);
      }
    }
  }

  /** The message and what becomes of it, part by part: a byte is cut exactly where someone is named, and kept otherwise. */
  lemma {:induction false} OnlyNamesAreCut(m: string)
    ensures Original(Pieces(m)) == m && Written(Pieces(m)) == WithoutPeople(m)
    ensures forall q: nat | q < |m| :: IsCut(Pieces(m), q) <==> Named(m, q)
    decreases |m|
  {
    hide Redact, Stretch, NoArnBefore, Named, IsCut, StretchPieces;
    var start := ArnFrom(m, 0);
    if start < |m| {
      var end := RunEnd(m, start);
      FirstStretch(m, start, end);
      OnlyNamesAreCut(m[end..]);
      StretchCutsNames(m[..start], m[start..end], m[end..]);
    } else {
      NoArnNamesNobody(m);
      OneKept(m);
    }
  }

  lemma OneKept(m: string)
    ensures Original([Kept(m)]) == m && Written([Kept(m)]) == m && forall q: nat :: !IsCut([Kept(m)], q)
  {
    assert [Kept(m)][1..] == [];
  }
}

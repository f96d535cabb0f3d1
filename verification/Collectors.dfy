/** Taking the caller out of a refusal's message before it is kept (internal/collect/aws/collect.go). */
module Collectors {
  import opened Strings
  import opened People

  // ---- ARNs as the grammar reads them ----

  /** The byte at p stands in an ARN: one starts at or before it, in the run that holds it. */
  ghost predicate InArn(m: string, p: nat) {
    exists s: nat | s <= p && s <= |m| :: IsArn(m, s) && p < RunEnd(m, s)
  }

  /** Where no run of printable bytes goes on. */
  predicate Boundary(m: string, p: nat) {
    p == 0 || (p <= |m| && (p == |m| || !Printable(m[p])))
  }

  /** The first stretch at or after a boundary tells, of each byte up to its end, whether it stands in an ARN. */
  lemma StretchTells(m: string, p: nat, arn: nat, arnEnd: nat, at: nat)
    requires Boundary(m, p) && p <= at < arnEnd && p <= |m| && arn == ArnFrom(m, p) && arnEnd == RunEnd(m, arn)
    ensures InArn(m, at) <==> arn <= at
    ensures arn <= at ==> RunEnd(m, at) == arnEnd
  {
    hide ArnFrom, RunEnd;
    if arn <= at {
      assert IsArn(m, arn) && arn <= |m|;
      RunEndIs(m, at, arnEnd);
    } else {
      forall s: nat | s <= at && IsArn(m, s) ensures RunEnd(m, s) <= at {
        RunStopsAt(m, s, p);
      }
    }
  }

  lemma RunStopsAt(m: string, s: nat, p: nat)
    requires s <= |m| && Boundary(m, p)
    ensures s < p ==> RunEnd(m, s) <= p
  {
  }

  /** Of two bytes of one run behind an ARN's start, both stand in an ARN, to the run's end. */
  lemma InArnToItsEnd(m: string, p: nat, q: nat)
    requires InArn(m, p) && p <= |m| && p <= q < RunEnd(m, p)
    ensures InArn(m, q)
  {
    hide RunEnd;
    var s: nat :| s <= p && s <= |m| && IsArn(m, s) && p < RunEnd(m, s);
    RunEndIs(m, p, RunEnd(m, s));
  }

  // ---- The principal ----

  predicate Stands(m: string, principal: string, at: nat) {
    at + |principal| <= |m| && m[at..at + |principal|] == principal
  }

  /** The principal starts at at, outside every ARN. */
  ghost predicate NamedAlone(m: string, principal: string, at: nat) {
    Stands(m, principal, at) && !InArn(m, at)
  }

  /** The first place at or after from where it does, or the message's end. */
  ghost function NextAlone(m: string, principal: string, from: nat): (at: nat)
    requires from <= |m|
    ensures from <= at <= |m| && (at < |m| ==> NamedAlone(m, principal, at))
    ensures forall i | from <= i < at :: !NamedAlone(m, principal, i)
    decreases |m| - from
  {
    if from == |m| || NamedAlone(m, principal, from) then from else NextAlone(m, principal, from + 1)
  }

  /** Where what is taken out with the principal at at ends: with it, or with the ARN it runs on into. */
  ghost function CutEnd(m: string, principal: string, at: nat): (end: nat)
    requires principal != "" && Stands(m, principal, at)
    ensures at + |principal| <= end <= |m|
  {
    var end := at + |principal|;
    if InArn(m, end - 1) then LongerRun(m, end - 1); RunEnd(m, end - 1) else end
  }

  lemma LongerRun(m: string, p: nat)
    requires p < |m| && InArn(m, p)
    ensures RunEnd(m, p) > p
  {
    hide RunEnd;
    var s: nat :| s <= p && s <= |m| && IsArn(m, s) && p < RunEnd(m, s);
    RunEndIs(m, p, RunEnd(m, s));
  }

  /** The message part by part from from on: what follows the colon of each principal alone is cut. */
  ghost function Parts(m: string, principal: string, from: nat): seq<Piece>
    requires from <= |m| && Colon(principal) < |principal| - 1
    decreases |m| - from
  {
    var at := NextAlone(m, principal, from);
    if at == |m| then [Kept(m[from..])]
    else
      var head, end := at + Colon(principal) + 1, CutEnd(m, principal, at);
      [Kept(m[from..head]), Cut(m[head..end])] + Parts(m, principal, end)
  }

  ghost function WithoutPrincipal(m: string, principal: string): string {
    if Colon(principal) >= |principal| - 1 then m else Written(Parts(m, principal, 0))
  }

  /** strings.Index from from on, or the message's length where the principal stands nowhere. */
  method IndexFrom(m: string, principal: string, from: nat) returns (at: nat)
    requires from <= |m| && principal != ""
    ensures from <= at <= |m| && (at < |m| ==> Stands(m, principal, at))
    ensures forall i | from <= i < at :: !Stands(m, principal, i)
    ensures at == |m| ==> forall i | from <= i :: !Stands(m, principal, i)
  {
    at := from;
    while at + |principal| <= |m|
      invariant from <= at <= |m| && forall i | from <= i < at :: !Stands(m, principal, i)
      decreases |m| - at
    {
      if m[at..at + |principal|] == principal {
        return;
      }
      at := at + 1;
    }
    return |m|;
  }

  lemma NextAloneIs(m: string, principal: string, from: nat, at: nat)
    requires from <= at <= |m| && (forall i | from <= i < at :: !NamedAlone(m, principal, i))
    requires at < |m| ==> NamedAlone(m, principal, at)
    ensures NextAlone(m, principal, from) == at
  {
    hide NamedAlone;
    var found := NextAlone(m, principal, from);
  }

  /** The loop's stretch: the first at or after a boundary the search has passed. */
  ghost predicate AtStretch(m: string, p: nat, from: nat, arn: nat, arnEnd: nat) {
    p <= from <= |m| && Boundary(m, p) && arn == ArnFrom(m, p) && arnEnd == RunEnd(m, arn)
  }

  /** The stretches up to the one that ends after at. */
  method StretchPast(m: string, at: nat, ghost p0: nat, arn0: nat, arnEnd0: nat) returns (ghost p: nat, arn: nat, arnEnd: nat)
    requires at < |m| && AtStretch(m, p0, at, arn0, arnEnd0)
    ensures AtStretch(m, p, at, arn, arnEnd) && at < arnEnd
  {
    hide ArnFrom, RunEnd;
    p, arn, arnEnd := p0, arn0, arnEnd0;
    while arnEnd <= at
      invariant AtStretch(m, p, at, arn, arnEnd) && arnEnd <= |m|
      decreases |m| - p, if arnEnd == p then 0 else 1
    {
      StretchGoesOn(m, p, arn, arnEnd);
      p := arnEnd;
      arn, arnEnd := NextArns(m, arnEnd);
    }
  }

  lemma StretchGoesOn(m: string, p: nat, arn: nat, arnEnd: nat)
    requires p <= |m| && arn == ArnFrom(m, p) && arnEnd == RunEnd(m, arn)
    ensures p <= arn <= arnEnd <= |m| && Boundary(m, arnEnd) && (arnEnd < |m| ==> p < arnEnd)
  {
    hide ArnFrom, RunEnd;
    if arn < |m| {
      ArnIsPrintable(m, arn);
    }
  }

  /** withoutThePrincipal: one pass over the places the principal stands and the ARNs between them. */
  method TakeOutPrincipal(m: string, principal: string) returns (out: string)
    ensures out == WithoutPrincipal(m, principal)
  {
    hide NamedAlone, NextAlone, CutEnd, Parts, AtStretch, InArn, Written, ArnFrom, RunEnd, Stands, IsArn, Boundary;
    var colon := Colon(principal);
    if colon >= |principal| - 1 {
      return m;
    }
    out := "";
    var copied: nat, from: nat := 0, 0;
    var arn: nat, arnEnd: nat := NextArns(m, 0);
    ghost var p: nat := 0;
    StretchStarts(m, arn, arnEnd);
    NothingTaken(m, principal);
    var done := false;
    while !done
      invariant copied <= from <= |m| && AtStretch(m, p, from, arn, arnEnd)
      invariant WithoutPrincipal(m, principal) == out + Written(Parts(m, principal, copied))
      invariant forall i | copied <= i < from :: !NamedAlone(m, principal, i)
      invariant done ==> forall i | from <= i :: !Stands(m, principal, i)
      decreases |m| - from, if done then 0 else 1
    {
      var at := IndexFrom(m, principal, from);
      if at == |m| {
        done := true;
      } else {
        MoveOn(m, p, from, at, arn, arnEnd);
        p, arn, arnEnd := StretchPast(m, at, p, arn, arnEnd);
        Tells(m, p, at, arn, arnEnd, at);
        if arn <= at {
          SkipArn(m, principal, copied, from, p, arn, arnEnd, at);
          from := arnEnd;
        } else {
          var end := at + |principal|;
          MoveOn(m, p, at, end - 1, arn, arnEnd);
          p, arn, arnEnd := StretchPast(m, end - 1, p, arn, arnEnd);
          Tells(m, p, end - 1, arn, arnEnd, end - 1);
          if arn < end {
            end := arnEnd;
          }
          TakeOne(m, principal, copied, from, at, end, out);
          out := out + m[copied..at + colon + 1] + REMOVED;
          MoveOn(m, p, at + |principal| - 1, end, arn, arnEnd);
          copied, from := end, end;
        }
      }
    }
    LastKept(m, principal, copied, from);
    out := out + m[copied..];
  }

  lemma StretchStarts(m: string, arn: nat, arnEnd: nat)
    requires arn == ArnFrom(m, 0) && arnEnd == RunEnd(m, arn)
    ensures AtStretch(m, 0, 0, arn, arnEnd)
  {
  }

  lemma NothingTaken(m: string, principal: string)
    requires Colon(principal) < |principal| - 1
    ensures WithoutPrincipal(m, principal) == "" + Written(Parts(m, principal, 0))
  {
    hide Parts, Written;
  }

  lemma MoveOn(m: string, p: nat, from: nat, at: nat, arn: nat, arnEnd: nat)
    requires AtStretch(m, p, from, arn, arnEnd) && from <= at <= |m|
    ensures AtStretch(m, p, at, arn, arnEnd)
  {
    hide ArnFrom, RunEnd;
  }

  lemma Tells(m: string, p: nat, from: nat, arn: nat, arnEnd: nat, at: nat)
    requires AtStretch(m, p, from, arn, arnEnd) && from <= at < arnEnd
    ensures InArn(m, at) <==> arn <= at
    ensures at <= |m| && (arn <= at ==> RunEnd(m, at) == arnEnd && arnEnd <= |m|)
  {
    hide InArn, ArnFrom, RunEnd;
    StretchTells(m, p, arn, arnEnd, at);
  }

  /** A principal that starts in an ARN is the grammar's to read, and so is all to the stretch's end. */
  lemma SkipArn(m: string, principal: string, copied: nat, from: nat, p: nat, arn: nat, arnEnd: nat, at: nat)
    requires AtStretch(m, p, at, arn, arnEnd) && copied <= from <= at < arnEnd && arn <= at && InArn(m, at)
    requires forall i | copied <= i < from :: !NamedAlone(m, principal, i)
    requires forall i | from <= i < at :: !Stands(m, principal, i)
    ensures arnEnd <= |m| && AtStretch(m, p, arnEnd, arn, arnEnd)
    ensures forall i | copied <= i < arnEnd :: !NamedAlone(m, principal, i)
  {
    hide ArnFrom, RunEnd, InArn, Stands;
    Tells(m, p, at, arn, arnEnd, at);
    forall i | at <= i < arnEnd ensures !NamedAlone(m, principal, i) {
      InArnToItsEnd(m, at, i);
    }
  }

  lemma TakeOne(m: string, principal: string, copied: nat, from: nat, at: nat, end: nat, out: string)
    requires Colon(principal) < |principal| - 1 && copied <= from <= at && Stands(m, principal, at) && !InArn(m, at)
    requires forall i | copied <= i < from :: !NamedAlone(m, principal, i)
    requires forall i | from <= i < at :: !Stands(m, principal, i)
    requires end == if InArn(m, at + |principal| - 1) then RunEnd(m, at + |principal| - 1) else at + |principal|
    ensures at + |principal| <= end <= |m|
    ensures out + Written(Parts(m, principal, copied))
            == out + m[copied..at + Colon(principal) + 1] + REMOVED + Written(Parts(m, principal, end))
  {
    hide InArn, RunEnd, NextAlone, Written;
    NextAloneIs(m, principal, copied, at);
    assert end == CutEnd(m, principal, at);
    hide CutEnd, NamedAlone, Stands;
    var head := at + Colon(principal) + 1;
    var kept, gone, rest := Kept(m[copied..head]), Cut(m[head..end]), Parts(m, principal, end);
    assert Parts(m, principal, copied) == [kept, gone] + rest;
    TwoWritten(kept, gone, rest);
    Regrouped(out, m[copied..head], REMOVED, Written(rest));
  }

  lemma TwoWritten(kept: Piece, gone: Piece, rest: seq<Piece>)
    requires kept.Kept? && gone.Cut?
    ensures Written([kept, gone] + rest) == kept.text + (REMOVED + Written(rest))
    ensures Original([kept, gone] + rest) == kept.text + (gone.text + Original(rest))
  {
    assert ([kept, gone] + rest)[1..] == [gone] + rest && ([gone] + rest)[1..] == rest;
  }

  lemma Regrouped(a: string, b: string, c: string, d: string)
    ensures a + (b + (c + d)) == a + b + c + d
  {
  }

  lemma LastKept(m: string, principal: string, copied: nat, from: nat)
    requires Colon(principal) < |principal| - 1 && copied <= from <= |m|
    requires forall i | copied <= i < from :: !NamedAlone(m, principal, i)
    requires forall i | from <= i :: !Stands(m, principal, i)
    ensures Written(Parts(m, principal, copied)) == m[copied..]
  {
    hide InArn;
    NextAloneIs(m, principal, copied, |m|);
    assert [Kept(m[copied..])][1..] == [];
  }

  // ---- What is taken out ----

  /** The principal at at is taken out, with all to end. */
  ghost predicate Taken(m: string, principal: string, from: nat, at: nat, end: nat)
    requires from <= |m| && Colon(principal) < |principal| - 1
    decreases |m| - from
  {
    var next := NextAlone(m, principal, from);
    next < |m| && ((at == next && end == CutEnd(m, principal, next)) || Taken(m, principal, CutEnd(m, principal, next), at, end))
  }

  /** Nothing but what follows the colons is cut: the parts are the message, and their writing what is left of it. */
  lemma {:induction false} PartsAreTheMessage(m: string, principal: string, from: nat)
    requires from <= |m| && Colon(principal) < |principal| - 1
    ensures Original(Parts(m, principal, from)) == m[from..]
    decreases |m| - from
  {
    hide NextAlone, CutEnd, Original;
    var at := NextAlone(m, principal, from);
    if at == |m| {
      OneKept(m[from..]);
    } else {
      var head, end := at + Colon(principal) + 1, CutEnd(m, principal, at);
      PartsAreTheMessage(m, principal, end);
      TwoWritten(Kept(m[from..head]), Cut(m[head..end]), Parts(m, principal, end));
      assert m[from..] == m[from..head] + (m[head..end] + m[end..]);
    }
  }

  /** The byte at q follows the colon of a principal taken out. */
  ghost predicate TakenAt(m: string, principal: string, from: nat, q: nat)
    requires from <= |m| && Colon(principal) < |principal| - 1
  {
    exists at: nat, end: nat | Taken(m, principal, from, at, end) :: at + Colon(principal) < q < end
  }

  /** A byte is cut exactly where it follows the colon of a principal taken out. */
  lemma {:induction false} CutWhereTaken(m: string, principal: string, from: nat, q: nat)
    requires from <= q < |m| && Colon(principal) < |principal| - 1
    ensures IsCut(Parts(m, principal, from), q - from) <==> TakenAt(m, principal, from, q)
    decreases |m| - from
  {
    hide NextAlone, CutEnd, IsCut, TakenAt, NamedAlone, Stands;
    var at := NextAlone(m, principal, from);
    NextTaken(m, principal, from, q);
    if at < |m| {
      AloneStands(m, principal, at);
      var head, end := at + Colon(principal) + 1, CutEnd(m, principal, at);
      TwoCut(Kept(m[from..head]), Cut(m[head..end]), Parts(m, principal, end), q - from);
      if q >= end {
        CutWhereTaken(m, principal, end, q);
      }
    } else {
      OneCut(m[from..], q - from);
    }
  }

  lemma OneCut(text: string, q: nat)
    ensures !IsCut([Kept(text)], q)
  {
    assert [Kept(text)][1..] == [];
  }

  lemma NextTaken(m: string, principal: string, from: nat, q: nat)
    requires from <= q < |m| && Colon(principal) < |principal| - 1
    ensures var at := NextAlone(m, principal, from);
            at == |m| ==> !TakenAt(m, principal, from, q)
    ensures var at := NextAlone(m, principal, from);
            at < |m| ==> Stands(m, principal, at)
                         && var end := CutEnd(m, principal, at);
                            TakenAt(m, principal, from, q) <==>
                              if q < end then at + Colon(principal) < q else TakenAt(m, principal, end, q)
  {
    hide NextAlone, CutEnd, NamedAlone;
    var at := NextAlone(m, principal, from);
    if at < |m| {
      AloneStands(m, principal, at);
      var end := CutEnd(m, principal, at);
      TakenFrom(m, principal, end);
      assert Taken(m, principal, from, at, end);
      assert forall a: nat, e: nat :: Taken(m, principal, from, a, e) <==> (a == at && e == end) || Taken(m, principal, end, a, e);
    }
  }

  lemma TwoCut(kept: Piece, gone: Piece, rest: seq<Piece>, q: nat)
    requires kept.Kept? && gone.Cut?
    ensures IsCut([kept, gone] + rest, q) <==>
              if q < |kept.text| then false
              else if q < |kept.text| + |gone.text| then true
              else IsCut(rest, q - |kept.text| - |gone.text|)
  {
    assert ([kept, gone] + rest)[1..] == [gone] + rest && ([gone] + rest)[1..] == rest;
  }

  /** What is taken out starts where the principal stands alone, and ends with it, or with the ARN it runs on into. */
  lemma {:induction false} TakenFrom(m: string, principal: string, from: nat)
    requires from <= |m| && Colon(principal) < |principal| - 1
    ensures forall at: nat, end: nat | Taken(m, principal, from, at, end) ::
              from <= at && NamedAlone(m, principal, at) && at + |principal| <= end <= |m| && end == CutEnd(m, principal, at)
    decreases |m| - from
  {
    hide NamedAlone, NextAlone, CutEnd;
    var next := NextAlone(m, principal, from);
    if next < |m| {
      AloneStands(m, principal, next);
      TakenFrom(m, principal, CutEnd(m, principal, next));
    }
  }

  lemma AloneStands(m: string, principal: string, at: nat)
    requires NamedAlone(m, principal, at)
    ensures Stands(m, principal, at) && !InArn(m, at)
  {
  }

  /** Wherever the principal starts outside an ARN, it is taken out, or starts in what is taken out with one before it. */
  lemma {:induction false} NoneStandsAlone(m: string, principal: string, from: nat, at: nat)
    requires from <= at && from <= |m| && Colon(principal) < |principal| - 1 && NamedAlone(m, principal, at)
    ensures exists a: nat, end: nat | Taken(m, principal, from, a, end) :: a <= at < end
    decreases |m| - from
  {
    hide NamedAlone, NextAlone, CutEnd;
    AloneStands(m, principal, at);
    var next := NextAlone(m, principal, from);
    AloneStands(m, principal, next);
    var end := CutEnd(m, principal, next);
    assert next <= at < |m|;
    assert Taken(m, principal, from, next, end);
    if at >= end {
      NoneStandsAlone(m, principal, end, at);
      var a: nat, e: nat :| Taken(m, principal, end, a, e) && a <= at < e;
      assert Taken(m, principal, from, a, e);
    }
  }

  /** The principal can stand in two places that share bytes. */
  predicate OverlapsItself(principal: string) {
    exists k | 0 < k < |principal| :: principal[k..] == principal[..|principal| - k]
  }

  lemma OverlapIs(m: string, principal: string, a: nat, b: nat)
    requires Stands(m, principal, a) && Stands(m, principal, b) && a < b < a + |principal|
    ensures OverlapsItself(principal)
  {
    var k := b - a;
    assert principal[k..] == m[a..a + |principal|][k..] == m[b..a + |principal|];
    assert principal[..|principal| - k] == m[b..b + |principal|][..|principal| - k] == m[b..a + |principal|];
  }

  /** What is taken beyond a principal stands in the ARN it runs on into. */
  lemma BeyondIsInArn(m: string, principal: string, at: nat, q: nat)
    requires principal != "" && Stands(m, principal, at) && at + |principal| <= q < CutEnd(m, principal, at)
    ensures InArn(m, q)
  {
    hide RunEnd, InArn;
    InArnToItsEnd(m, at + |principal| - 1, q);
  }

  /** Wherever the principal starts outside an ARN, at or after from, it is taken out whole. */
  ghost predicate EachIsTaken(m: string, principal: string, from: nat)
    requires from <= |m| && Colon(principal) < |principal| - 1
  {
    forall at: nat | from <= at && NamedAlone(m, principal, at) ::
      Stands(m, principal, at) && Taken(m, principal, from, at, CutEnd(m, principal, at))
  }

  /** It starts in two such places that share bytes. */
  ghost predicate TwoShareBytes(m: string, principal: string, from: nat) {
    exists a: nat, b: nat | NamedAlone(m, principal, a) && NamedAlone(m, principal, b) :: from <= a < b < a + |principal|
  }

  /** What is taken out in two places shares no byte. */
  lemma {:induction false} TakenApart(m: string, principal: string, from: nat, a: nat, end: nat, b: nat, end': nat)
    requires from <= |m| && Colon(principal) < |principal| - 1 && a < b
    requires Taken(m, principal, from, a, end) && Taken(m, principal, from, b, end')
    ensures end <= b
    decreases |m| - from
  {
    hide NamedAlone, NextAlone, CutEnd;
    TakenFrom(m, principal, from);
    var next := NextAlone(m, principal, from);
    AloneStands(m, principal, next);
    var after := CutEnd(m, principal, next);
    TakenFrom(m, principal, after);
    if a != next {
      TakenApart(m, principal, after, a, end, b, end');
    }
  }

  /** Each place the principal starts outside an ARN is taken out, whole, exactly when no two of them share bytes. */
  lemma EveryNameGoes(m: string, principal: string, from: nat)
    requires from <= |m| && Colon(principal) < |principal| - 1
    ensures EachIsTaken(m, principal, from) <==> !TwoShareBytes(m, principal, from)
  {
    hide NamedAlone, CutEnd, Stands, Taken;
    if TwoShareBytes(m, principal, from) && EachIsTaken(m, principal, from) {
      var a: nat, b: nat :| NamedAlone(m, principal, a) && NamedAlone(m, principal, b) && from <= a < b < a + |principal|;
      TakenApart(m, principal, from, a, CutEnd(m, principal, a), b, CutEnd(m, principal, b));
      assert false;
    }
    if !TwoShareBytes(m, principal, from) {
      forall at: nat | from <= at && NamedAlone(m, principal, at)
        ensures Stands(m, principal, at) && Taken(m, principal, from, at, CutEnd(m, principal, at))
      {
        NameGoes(m, principal, from, at);
      }
    }
  }

  lemma {:induction false} NameGoes(m: string, principal: string, from: nat, at: nat)
    requires from <= at && from <= |m| && Colon(principal) < |principal| - 1
    requires NamedAlone(m, principal, at) && !TwoShareBytes(m, principal, from)
    ensures Stands(m, principal, at) && Taken(m, principal, from, at, CutEnd(m, principal, at))
    decreases |m| - from
  {
    hide NamedAlone, NextAlone, CutEnd, Stands, InArn;
    AloneStands(m, principal, at);
    var next := NextAlone(m, principal, from);
    StandsInside(m, principal, at);
    AloneStands(m, principal, next);
    var end := CutEnd(m, principal, next);
    if at >= end {
      NameGoes(m, principal, end, at);
    } else if next < at {
      BeyondIsInArn(m, principal, next, at);
      assert false;
    }
  }

  /** So every name goes where the principal cannot overlap itself. */
  lemma NoOverlapNoneShare(m: string, principal: string, from: nat)
    requires from <= |m| && Colon(principal) < |principal| - 1 && !OverlapsItself(principal)
    ensures EachIsTaken(m, principal, from)
  {
    hide NamedAlone, OverlapsItself, EachIsTaken;
    EveryNameGoes(m, principal, from);
    forall a: nat, b: nat | NamedAlone(m, principal, a) && NamedAlone(m, principal, b) && from <= a < b < a + |principal| ensures false {
      AloneStands(m, principal, a);
      AloneStands(m, principal, b);
      OverlapIs(m, principal, a, b);
    }
  }

  /** One message in which a name stays: the principal begins in the last byte of one before it. */
  lemma OneNameStays()
    ensures !EachIsTaken("AROA:AROA:A", "AROA:A", 0)
  {
    hide EachIsTaken, InArn;
    var m, principal := "AROA:AROA:A", "AROA:A";
    forall at: nat ensures !InArn(m, at) {
      NoArn(m, at);
    }
    assert Stands(m, principal, 0) && Stands(m, principal, 5);
    assert NamedAlone(m, principal, 0) && NamedAlone(m, principal, 5);
    EveryNameGoes(m, principal, 0);
  }

  lemma NoArn(m: string, at: nat)
    requires forall i | 0 <= i < |m| :: m[i] != 'a'
    ensures !InArn(m, at)
  {
    hide RunEnd;
  }

  lemma StandsInside(m: string, principal: string, at: nat)
    requires Stands(m, principal, at) && principal != ""
    ensures at < |m|
  {
  }

  /** Every ARN is left whole or goes whole: none is cut where the grammar would no longer read what is left. */
  lemma ArnsGoWhole(m: string, principal: string, at: nat, end: nat, s: nat)
    requires Colon(principal) < |principal| - 1 && Taken(m, principal, 0, at, end) && s <= |m| && IsArn(m, s)
    ensures RunEnd(m, s) <= at || end <= s || (at < s && RunEnd(m, s) <= end)
  {
    hide RunEnd, NextAlone;
    TakenFrom(m, principal, 0);
    AloneStands(m, principal, at);
    hide Taken;
    if s < end && at < RunEnd(m, s) {
      assert at < s;
      var last := at + |principal| - 1;
      if s <= last < RunEnd(m, s) {
        assert InArn(m, last);
        RunEndIs(m, last, RunEnd(m, s));
      } else if s > last {
        EndsInRun(m, principal, at, end, s);
      }
    }
  }

  /** What is taken beyond the principal is one run. */
  lemma EndsInRun(m: string, principal: string, at: nat, end: nat, s: nat)
    requires principal != "" && Stands(m, principal, at) && end == CutEnd(m, principal, at)
    requires at + |principal| <= s < end && s <= |m| && IsArn(m, s)
    ensures RunEnd(m, s) <= end
  {
    hide RunEnd;
    var last := at + |principal| - 1;
    RunEndIs(m, s, RunEnd(m, last));
  }

  // ---- The message kept ----

  /** The collector's passes: the caller's principal, the grammar, the home directory of a call never answered, the grammar. */
  ghost function WithoutTheCaller(m: string, principal: string, unanswered: bool, withoutHome: string -> string): string {
    var stripped := WithoutPeople(WithoutPrincipal(m, principal));
    WithoutPeople(if unanswered then withoutHome(stripped) else stripped)
  }

  method TakeOutTheCaller(m: string, principal: string, unanswered: bool, withoutHome: string -> string) returns (out: string)
    ensures out == WithoutTheCaller(m, principal, unanswered, withoutHome)
  {
    hide WithoutPrincipal, WithoutPeople;
    var message := TakeOutPrincipal(m, principal);
    message := Strip(message);
    if unanswered {
      message := withoutHome(message);
    }
    out := Strip(message);
  }

  /** Whatever home is taken out, the engine's own strip changes nothing the collector wrote, and nobody is named in it. */
  lemma CollectedIsFixed(m: string, principal: string, unanswered: bool, withoutHome: string -> string)
    ensures var kept := WithoutTheCaller(m, principal, unanswered, withoutHome);
            WithoutPeople(kept) == kept && NamesOnlyRemoved(kept)
  {
    hide WithoutPrincipal;
    var stripped := WithoutPeople(WithoutPrincipal(m, principal));
    var last := if unanswered then withoutHome(stripped) else stripped;
    WithoutPeopleIsIdempotent(last);
    NobodyIsNamed(last);
  }
}

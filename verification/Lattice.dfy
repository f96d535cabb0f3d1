/** Meet and join of claim sets, exact and canonical (internal/eval/stringset.go). */
module Lattice {
  import opened Strings
  import opened Sorting
  import opened Globs
  import opened StringSets
  import opened Renderings

  /** A canonical set that is no union of others and is not Full, Empty or Unknown. */
  ghost predicate CanonicalTerm(s: StringSet) {
    s.IsTerm() && s.Canonical()
  }

  ghost predicate CanonicalTerms(members: seq<StringSet>) {
    forall m | m in members :: CanonicalTerm(m)
  }

  /** The terms a set that is neither top nor empty is the union of. */
  function TermsOf(s: StringSet): seq<StringSet> {
    if s.Union? then s.members else [s]
  }

  function PatternsOf(s: StringSet): seq<string>
    requires s.Glob? || s.Inter?
  {
    if s.Inter? then s.patterns else [s.pattern]
  }

  function NewInter(patterns: seq<string>): StringSet {
    var sorted := SortUnique(Before, patterns);
    if |sorted| == 1 then Glob(sorted[0]) else Inter(sorted)
  }

  function MeetValue(e: StringSet, o: StringSet): StringSet
    requires e.Exact?
  {
    if o.Contains(e.value) then e else Empty
  }

  function MeetTerms(s: StringSet, t: StringSet): StringSet
    requires s.IsTerm() && t.IsTerm()
  {
    if s.Exact? then MeetValue(s, t)
    else if t.Exact? then MeetValue(t, s)
    else NewInter(PatternsOf(s) + PatternsOf(t))
  }

  /** The members of xs no other of all makes redundant. */
  function Uncovered(xs: seq<StringSet>, all: seq<StringSet>): seq<StringSet> {
    if xs == [] then []
    else (if Covered(xs[0], all) then [] else [xs[0]]) + Uncovered(xs[1..], all)
  }

  function NewUnion(members: seq<StringSet>): StringSet {
    var sorted := SortUnique(RenderBefore, members);
    var kept := Uncovered(sorted, sorted);
    if |kept| == 1 then kept[0] else Union(kept)
  }

  function MergeReasons(a: seq<string>, b: seq<string>): seq<string> {
    SortUnique(Before, a + b)
  }

  function Join(a: StringSet, b: StringSet): StringSet {
    if a.Unknown? && b.Unknown? then Unknown(MergeReasons(a.reasons, b.reasons))
    else if a.Unknown? then a
    else if b.Unknown? then b
    else if a.IsTop() || b.IsTop() then Full
    else if a.IsEmpty() then b
    else if b.IsEmpty() then a
    else NewUnion(TermsOf(a) + TermsOf(b))
  }

  function MeetRow(out: StringSet, s: StringSet, ts: seq<StringSet>): StringSet
    requires s.IsTerm() && forall t | t in ts :: t.IsTerm()
    decreases |ts|
  {
    if ts == [] then out else MeetRow(Join(out, MeetTerms(s, ts[0])), s, ts[1..])
  }

  function MeetRows(out: StringSet, ss: seq<StringSet>, ts: seq<StringSet>): StringSet
    requires forall s | s in ss :: s.IsTerm()
    requires forall t | t in ts :: t.IsTerm()
    decreases |ss|
  {
    if ss == [] then out else MeetRows(MeetRow(out, ss[0], ts), ss[1..], ts)
  }

  function Meet(a: StringSet, b: StringSet): StringSet
    requires a.Canonical() && b.Canonical()
  {
    if a.IsEmpty() || b.IsEmpty() then Empty
    else if a.Unknown? && b.Unknown? then Unknown(MergeReasons(a.reasons, b.reasons))
    else if a.Unknown? then (if b.IsTop() then a else b)
    else if b.Unknown? then (if a.IsTop() then b else a)
    else if a.IsTop() then b
    else if b.IsTop() then a
    else MeetRows(Empty, TermsOf(a), TermsOf(b))
  }

  // ---- The loops the engine runs ----

  /** Whether a member other than the one at skip contains v. */
  method ContainedByOther(v: string, members: seq<StringSet>, skip: nat) returns (contained: bool)
    ensures contained <==> exists j :: 0 <= j < |members| && j != skip && members[j].Contains(v)
  {
    for j := 0 to |members|
      invariant forall i | 0 <= i < j && i != skip :: !members[i].Contains(v)
    {
      if j != skip && members[j].Contains(v) {
        return true;
      }
    }
    return false;
  }

  lemma NoneUncovered(sorted: seq<StringSet>)
    ensures Uncovered([], sorted) == []
  {
  }

  method BuildUnion(members: seq<StringSet>) returns (s: StringSet)
    requires CanonicalTerms(members)
    ensures s == NewUnion(members)
  {
    hide Covered, Render, StringSet.Contains, StringSet.Canonical, StrictOrder, TotalOn, Ascending, Uncovered, RenderBefore;
    var sorted := SortUnique(RenderBefore, members);
    RenderOrder(members);
    SortUniqueAscending(RenderBefore, members);
    var kept := [];
    assert sorted[0..] == sorted && [] + Uncovered(sorted, sorted) == Uncovered(sorted, sorted);
    for i := 0 to |sorted|
      invariant kept + Uncovered(sorted[i..], sorted) == Uncovered(sorted, sorted)
    {
      var m := sorted[i];
      UncoveredStep(sorted, i);
      ghost var rest := Uncovered(sorted[i + 1..], sorted);
      var drop := false;
      if m.Exact? {
        drop := ContainedByOther(m.value, sorted, i);
        CoveredByIndex(sorted, i);
      }
      assert kept + ([m] + rest) == (kept + [m]) + rest;
      assert kept + ([] + rest) == kept + rest;
      if !drop {
        kept := kept + [m];
      }
    }
    NoneUncovered(sorted);
    assert sorted[|sorted|..] == [] && kept + [] == kept;
    return if |kept| == 1 then kept[0] else Union(kept);
  }

  lemma UncoveredStep(all: seq<StringSet>, i: nat)
    requires i < |all|
    ensures Uncovered(all[i..], all) == (if Covered(all[i], all) then [] else [all[i]]) + Uncovered(all[i + 1..], all)
    ensures !all[i].Exact? ==> !Covered(all[i], all)
  {
    assert all[i..][1..] == all[i + 1..];
  }

  /** In a list without repeats, another member is the member at another index. */
  lemma CoveredByIndex(sorted: seq<StringSet>, i: nat)
    requires i < |sorted| && sorted[i].Exact? && StrictOrder(RenderBefore) && Ascending(RenderBefore, sorted)
    ensures Covered(sorted[i], sorted) <==> exists j :: 0 <= j < |sorted| && j != i && sorted[j].Contains(sorted[i].value)
  {
    var m := sorted[i];
    if Covered(m, sorted) {
      var o :| o in sorted && o != m && o.Contains(m.value);
      var j :| 0 <= j < |sorted| && sorted[j] == o;
      assert j != i;
    }
    if j :| 0 <= j < |sorted| && j != i && sorted[j].Contains(m.value) {
      assert RenderBefore(sorted[i], sorted[j]) || RenderBefore(sorted[j], sorted[i]);
      assert sorted[j] in sorted;
    }
  }

  method ComputeMeet(a: StringSet, b: StringSet) returns (s: StringSet)
    requires a.Canonical() && b.Canonical()
    ensures s == Meet(a, b)
  {
    hide MeetTerms, Join, StringSet.Contains, Render, StringSet.Canonical, MeetRows, MeetRow;
    if a.IsEmpty() || b.IsEmpty() {
      return Empty;
    } else if a.Unknown? && b.Unknown? {
      return Unknown(MergeReasons(a.reasons, b.reasons));
    } else if a.Unknown? {
      return if b.IsTop() then a else b;
    } else if b.Unknown? {
      return if a.IsTop() then b else a;
    } else if a.IsTop() {
      return b;
    } else if b.IsTop() {
      return a;
    }
    var out := Empty;
    var ss, ts := TermsOf(a), TermsOf(b);
    TermsAreTerms(a);
    TermsAreTerms(b);
    RowsEnd(out, ss, ts);
    for i := 0 to |ss|
      invariant MeetRows(Empty, ss, ts) == MeetRows(out, ss[i..], ts)
    {
      ghost var row := out;
      RowEnds(out, ss[i], ts);
      for j := 0 to |ts|
        invariant MeetRow(row, ss[i], ts) == MeetRow(out, ss[i], ts[j..])
      {
        NextInRow(out, ss[i], ts, j);
        out := Join(out, MeetTerms(ss[i], ts[j]));
      }
      NextRow(row, ss, i, ts);
      RowEnds(out, ss[i], ts);
    }
    RowsEnd(out, ss, ts);
    return out;
  }

  lemma TermsAreTerms(s: StringSet)
    requires s.Canonical() && !s.IsTop() && !s.IsEmpty()
    ensures forall t | t in TermsOf(s) :: t.IsTerm()
  {
  }

  lemma NextInRow(out: StringSet, s: StringSet, ts: seq<StringSet>, j: nat)
    requires s.IsTerm() && (forall t | t in ts :: t.IsTerm()) && j < |ts|
    ensures MeetRow(out, s, ts[j..]) == MeetRow(Join(out, MeetTerms(s, ts[j])), s, ts[j + 1..])
  {
    hide Join, MeetTerms;
    assert ts[j..][0] == ts[j] && ts[j..][1..] == ts[j + 1..];
  }

  lemma NextRow(out: StringSet, ss: seq<StringSet>, i: nat, ts: seq<StringSet>)
    requires (forall s | s in ss :: s.IsTerm()) && (forall t | t in ts :: t.IsTerm()) && i < |ss|
    ensures MeetRows(out, ss[i..], ts) == MeetRows(MeetRow(out, ss[i], ts), ss[i + 1..], ts)
  {
    hide Join, MeetTerms, MeetRow;
    assert ss[i..][0] == ss[i] && ss[i..][1..] == ss[i + 1..];
  }

  lemma RowEnds(out: StringSet, s: StringSet, ts: seq<StringSet>)
    requires s.IsTerm() && forall t | t in ts :: t.IsTerm()
    ensures MeetRow(out, s, ts[|ts|..]) == out && ts[0..] == ts
  {
  }

  lemma RowsEnd(out: StringSet, ss: seq<StringSet>, ts: seq<StringSet>)
    requires (forall s | s in ss :: s.IsTerm()) && forall t | t in ts :: t.IsTerm()
    ensures MeetRows(out, ss[|ss|..], ts) == out && ss[0..] == ss
  {
  }

  // ---- Unions ----

  lemma {:induction false} UncoveredMembers(xs: seq<StringSet>, all: seq<StringSet>)
    ensures forall m :: m in Uncovered(xs, all) <==> m in xs && !Covered(m, all)
    ensures Ascending(RenderBefore, xs) ==> Ascending(RenderBefore, Uncovered(xs, all))
  {
    if xs != [] {
      UncoveredMembers(xs[1..], all);
      assert xs == [xs[0]] + xs[1..];
      if Ascending(RenderBefore, xs) && !Covered(xs[0], all) {
        var rest := Uncovered(xs[1..], all);
        forall i | 0 <= i < |rest| ensures RenderBefore(xs[0], rest[i]) {
          assert rest[i] in xs[1..];
          var j :| 0 <= j < |xs[1..]| && xs[1..][j] == rest[i];
          assert xs[j + 1] == rest[i];
        }
      }
    }
  }

  /** What covers a value is no value, so it is not covered itself. */
  lemma CoverIsKept(m: StringSet, all: seq<StringSet>)
    requires Covered(m, all)
    ensures exists o :: o in all && !Covered(o, all) && o.Contains(m.value) && !o.Exact?
  {
    var o :| o in all && o != m && o.Contains(m.value);
    assert o.Exact? ==> o == m;
  }

  /** The members NewUnion keeps are those no other makes redundant, and it is a union of just those. */
  lemma NewUnionTerms(members: seq<StringSet>)
    requires |members| >= 1 && CanonicalTerms(members)
    ensures var s := NewUnion(members);
            s.Canonical() && (s.IsTerm() || s.Union?)
            && forall m :: m in TermsOf(s) <==> m in members && !Covered(m, members)
  {
    RenderOrder(members);
    SortUniqueAscending(RenderBefore, members);
    var sorted := SortUnique(RenderBefore, members);
    var kept := Uncovered(sorted, sorted);
    UncoveredMembers(sorted, sorted);
    assert forall m :: m in sorted <==> m in members;
    assert forall m :: Covered(m, sorted) <==> Covered(m, members);
    assert members[0] in sorted;
    if Covered(members[0], sorted) {
      CoverIsKept(members[0], sorted);
    }
    assert |kept| >= 1;
    if |kept| == 1 {
      assert kept[0] in members;
      assert kept == [kept[0]];
    } else {
      forall m | m in kept ensures m.IsTerm() && m.Canonical() && !Covered(m, kept) {
        assert m in members;
        assert Covered(m, kept) ==> Covered(m, sorted);
      }
    }
  }

  lemma NewUnionContains(members: seq<StringSet>, v: string)
    requires |members| >= 1 && CanonicalTerms(members)
    ensures NewUnion(members).Contains(v) <==> exists m :: m in members && m.Contains(v)
  {
    NewUnionTerms(members);
    var s := NewUnion(members);
    TermsContain(s, v);
    if m :| m in members && m.Contains(v) {
      if Covered(m, members) {
        CoverIsKept(m, members);
        var o :| o in members && !Covered(o, members) && o.Contains(m.value);
        assert o in TermsOf(s);
      } else {
        assert m in TermsOf(s);
      }
    }
  }

  lemma TermsContain(s: StringSet, v: string)
    ensures s.Contains(v) <==> exists m :: m in TermsOf(s) && m.Contains(v)
  {
    if !s.Union? {
      assert s in TermsOf(s);
    }
  }

  /** A canonical set of terms is determined by its terms. */
  lemma TermsDetermine(a: StringSet, b: StringSet)
    requires a.Canonical() && b.Canonical()
    requires a.IsTerm() || a.Union?
    requires b.IsTerm() || b.Union?
    requires forall m :: m in TermsOf(a) <==> m in TermsOf(b)
    ensures a == b
  {
    RenderOrder(TermsOf(a));
    AscendingUnique(RenderBefore, TermsOf(a), TermsOf(b));
  }

  // ---- Join ----

  lemma ReasonsMerge(a: seq<string>, b: seq<string>)
    requires |a| >= 1
    ensures |MergeReasons(a, b)| >= 1 && Ascending(Before, MergeReasons(a, b))
    ensures forall r :: r in MergeReasons(a, b) <==> r in a || r in b
  {
    BeforeOrder(a + b);
    SortUniqueAscending(Before, a + b);
    assert a[0] in a + b;
  }

  /** Join is union, exactly, and canonical. */
  lemma JoinIsExact(a: StringSet, b: StringSet)
    requires a.Canonical() && b.Canonical()
    ensures Join(a, b).Canonical()
    ensures forall v :: Join(a, b).Contains(v) <==> a.Contains(v) || b.Contains(v)
    ensures Join(a, b).IsTop() <==> a.IsTop() || b.IsTop()
    ensures Join(a, b).IsEmpty() <==> a.IsEmpty() && b.IsEmpty()
    ensures Join(a, b).Unknown? <==> a.Unknown? || b.Unknown?
  {
    if a.Unknown? && b.Unknown? {
      ReasonsMerge(a.reasons, b.reasons);
    } else if !a.IsTop() && !b.IsTop() && !a.IsEmpty() && !b.IsEmpty() {
      var all := TermsOf(a) + TermsOf(b);
      NewUnionTerms(all);
      forall v ensures Join(a, b).Contains(v) <==> a.Contains(v) || b.Contains(v) {
        NewUnionContains(all, v);
        TermsContain(a, v);
        TermsContain(b, v);
      }
    }
  }

  /** A join of sets of terms holds the terms of both that neither makes redundant. */
  lemma JoinTerms(a: StringSet, b: StringSet)
    requires a.Canonical() && (a.IsTerm() || a.Union?)
    requires b.Canonical() && (b.IsTerm() || b.Union?)
    ensures var s, all := Join(a, b), TermsOf(a) + TermsOf(b);
            s.Canonical() && (s.IsTerm() || s.Union?)
            && forall m :: m in TermsOf(s) <==> m in all && !Covered(m, all)
  {
    NewUnionTerms(TermsOf(a) + TermsOf(b));
  }

  lemma JoinCommutes(a: StringSet, b: StringSet)
    requires a.Canonical() && b.Canonical()
    ensures Join(a, b) == Join(b, a)
  {
    JoinIsExact(a, b);
    JoinIsExact(b, a);
    if a.Unknown? && b.Unknown? {
      SameReasons(a.reasons + b.reasons, b.reasons + a.reasons);
    } else if !a.IsTop() && !b.IsTop() && !a.IsEmpty() && !b.IsEmpty() {
      JoinTerms(a, b);
      JoinTerms(b, a);
      forall m ensures Covered(m, TermsOf(a) + TermsOf(b)) <==> Covered(m, TermsOf(b) + TermsOf(a)) {
      }
      TermsDetermine(Join(a, b), Join(b, a));
    }
  }

  lemma SameReasons(xs: seq<string>, ys: seq<string>)
    requires forall r :: r in xs <==> r in ys
    ensures SortUnique(Before, xs) == SortUnique(Before, ys)
  {
    BeforeOrder(xs);
    SortUniqueCanonical(Before, xs, ys);
  }

  lemma JoinIdempotent(a: StringSet)
    requires a.Canonical()
    ensures Join(a, a) == a
  {
    if a.Unknown? {
      BeforeOrder(a.reasons + a.reasons);
      SortUniqueCanonical(Before, a.reasons + a.reasons, a.reasons);
    } else if a.IsTerm() || a.Union? {
      JoinTerms(a, a);
      var all := TermsOf(a) + TermsOf(a);
      forall m | m in TermsOf(a) ensures !Covered(m, all) {
        assert !Covered(m, TermsOf(a));
      }
      TermsDetermine(Join(a, a), a);
    }
  }

  /** What a first join drops, the second drops too, since what covered it is still there. */
  lemma CoveredThroughJoin(a: StringSet, b: StringSet, c: StringSet, m: StringSet)
    requires a.Canonical() && (a.IsTerm() || a.Union?)
    requires b.Canonical() && (b.IsTerm() || b.Union?)
    requires c.Canonical() && (c.IsTerm() || c.Union?)
    ensures m in TermsOf(Join(Join(a, b), c)) <==>
            var all := TermsOf(a) + TermsOf(b) + TermsOf(c); m in all && !Covered(m, all)
  {
    var ab, two, all := Join(a, b), TermsOf(a) + TermsOf(b), TermsOf(a) + TermsOf(b) + TermsOf(c);
    JoinTerms(a, b);
    JoinTerms(ab, c);
    var some := TermsOf(ab) + TermsOf(c);
    assert forall x :: x in some ==> x in all;
    if m in all && Covered(m, all) {
      CoverIsKept(m, all);
      var o :| o in all && !Covered(o, all) && o.Contains(m.value) && !o.Exact?;
      assert !Covered(o, two);
      assert o in some;
      assert Covered(m, some);
    }
    if m in all && !Covered(m, all) {
      assert !Covered(m, two) && !Covered(m, some);
    }
  }

  lemma JoinAssociates(a: StringSet, b: StringSet, c: StringSet)
    requires a.Canonical() && b.Canonical() && c.Canonical()
    ensures Join(Join(a, b), c) == Join(a, Join(b, c))
  {
    JoinIsExact(a, b);
    JoinIsExact(b, c);
    if a.Unknown? || b.Unknown? || c.Unknown? {
      UnknownsAssociate(a, b, c);
    } else if !a.IsTop() && !b.IsTop() && !c.IsTop() && !a.IsEmpty() && !b.IsEmpty() && !c.IsEmpty() {
      JoinTerms(a, b);
      JoinTerms(b, c);
      JoinTerms(Join(a, b), c);
      JoinTerms(a, Join(b, c));
      JoinCommutes(a, Join(b, c));
      var left, right := Join(Join(a, b), c), Join(a, Join(b, c));
      forall m ensures m in TermsOf(left) <==> m in TermsOf(right) {
        CoveredThroughJoin(a, b, c, m);
        CoveredThroughJoin(b, c, a, m);
        var x, y := TermsOf(a) + TermsOf(b) + TermsOf(c), TermsOf(b) + TermsOf(c) + TermsOf(a);
        assert forall o :: o in x <==> o in y;
      }
      TermsDetermine(left, right);
    }
  }

  lemma UnknownsAssociate(a: StringSet, b: StringSet, c: StringSet)
    requires a.Canonical() && b.Canonical() && c.Canonical()
    requires a.Unknown? || b.Unknown? || c.Unknown?
    ensures Join(Join(a, b), c) == Join(a, Join(b, c))
  {
    if a.Unknown? && b.Unknown? {
      ReasonsMerge(a.reasons, b.reasons);
      if c.Unknown? {
        ReasonsMerge(b.reasons, c.reasons);
        SameReasons(MergeReasons(a.reasons, b.reasons) + c.reasons, a.reasons + MergeReasons(b.reasons, c.reasons));
      }
    }
    JoinIsExact(a, b);
    JoinIsExact(b, c);
  }

  // ---- Meet ----

  lemma NewInterIsExact(patterns: seq<string>)
    requires |patterns| >= 1 && forall p | p in patterns :: Proper(p)
    ensures CanonicalTerm(NewInter(patterns)) && !NewInter(patterns).Exact?
    ensures forall p :: p in PatternsOf(NewInter(patterns)) <==> p in patterns
  {
    BeforeOrder(patterns);
    SortUniqueAscending(Before, patterns);
    var sorted := SortUnique(Before, patterns);
    assert patterns[0] in sorted;
    if |sorted| == 1 {
      assert sorted == [sorted[0]];
      assert sorted[0] in patterns;
    }
  }

  lemma PatternsContain(s: StringSet, v: string)
    requires s.Glob? || s.Inter?
    ensures s.Contains(v) <==> forall p | p in PatternsOf(s) :: Matches(p, v)
  {
    match s
    case Glob(pattern) =>
      assert pattern in PatternsOf(s);
    case Inter(patterns) =>
      assert PatternsOf(s) == patterns;
  }

  lemma MeetTermsIsExact(s: StringSet, t: StringSet, v: string)
    requires CanonicalTerm(s) && CanonicalTerm(t)
    ensures var r := MeetTerms(s, t); r.Canonical() && (r.IsTerm() || r.Empty?)
    ensures MeetTerms(s, t).Contains(v) <==> s.Contains(v) && t.Contains(v)
  {
    if !s.Exact? && !t.Exact? {
      var patterns := PatternsOf(s) + PatternsOf(t);
      NewInterIsExact(patterns);
      PatternsContain(s, v);
      PatternsContain(t, v);
      PatternsContain(NewInter(patterns), v);
    }
  }

  lemma {:induction false} MeetRowIsExact(out: StringSet, s: StringSet, ts: seq<StringSet>, v: string)
    requires out.Canonical() && !out.IsTop() && CanonicalTerm(s) && CanonicalTerms(ts)
    ensures var r := MeetRow(out, s, ts); r.Canonical() && !r.IsTop()
    ensures MeetRow(out, s, ts).Contains(v) <==> out.Contains(v) || (s.Contains(v) && exists t :: t in ts && t.Contains(v))
    decreases |ts|
  {
    if ts != [] {
      hide StringSet.Contains, Join, MeetTerms;
      MeetTermsIsExact(s, ts[0], v);
      var next := Join(out, MeetTerms(s, ts[0]));
      JoinIsExact(out, MeetTerms(s, ts[0]));
      MeetRowIsExact(next, s, ts[1..], v);
      assert forall t :: t in ts <==> t == ts[0] || t in ts[1..];
    }
  }

  lemma {:induction false} MeetRowsIsExact(out: StringSet, ss: seq<StringSet>, ts: seq<StringSet>, v: string)
    requires out.Canonical() && !out.IsTop() && CanonicalTerms(ss) && CanonicalTerms(ts)
    ensures var r := MeetRows(out, ss, ts); r.Canonical() && !r.IsTop()
    ensures MeetRows(out, ss, ts).Contains(v) <==>
            out.Contains(v) || ((exists s :: s in ss && s.Contains(v)) && exists t :: t in ts && t.Contains(v))
    decreases |ss|
  {
    if ss != [] {
      hide StringSet.Contains, MeetRow;
      MeetRowIsExact(out, ss[0], ts, v);
      MeetRowsIsExact(MeetRow(out, ss[0], ts), ss[1..], ts, v);
      assert forall s :: s in ss <==> s == ss[0] || s in ss[1..];
    }
  }

  /** Meet is intersection, exactly, and canonical. */
  lemma MeetIsExact(a: StringSet, b: StringSet)
    requires a.Canonical() && b.Canonical()
    ensures Meet(a, b).Canonical()
    ensures forall v :: Meet(a, b).Contains(v) <==> a.Contains(v) && b.Contains(v)
    ensures Meet(a, b).IsTop() <==> a.IsTop() && b.IsTop()
    ensures Meet(a, b).Unknown? <==> (a.Unknown? && b.IsTop()) || (b.Unknown? && a.IsTop())
  {
    if a.Unknown? && b.Unknown? {
      ReasonsMerge(a.reasons, b.reasons);
    } else if !a.IsTop() && !b.IsTop() && !a.IsEmpty() && !b.IsEmpty() {
      MeetRowsIsExact(Empty, TermsOf(a), TermsOf(b), "");
      forall v ensures Meet(a, b).Contains(v) <==> a.Contains(v) && b.Contains(v) {
        MeetRowsIsExact(Empty, TermsOf(a), TermsOf(b), v);
        TermsContain(a, v);
        TermsContain(b, v);
      }
    }
  }
}

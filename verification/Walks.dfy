/** The walk over the product of patterns that builds their shortest common instance (internal/join/witness.go). */
module Walks {
  import opened Strings
  import opened Globs

  /** Every pattern matches v. */
  ghost predicate SharedBy(patterns: seq<string>, v: string) {
    forall i | 0 <= i < |patterns| :: Matches(patterns[i], v)
  }

  // ---- States of the product ----

  /** One position in each pattern. */
  type State = seq<nat>

  predicate IsState(units: seq<string>, at: State) {
    |at| == |units| && forall i | 0 <= i < |at| :: at[i] <= |units[i]|
  }

  /** The run rest takes every pattern from its position to its end. */
  ghost predicate Completes(units: seq<string>, at: State, rest: string) {
    IsState(units, at) && forall i | 0 <= i < |units| :: Matches(units[i][at[i]..], rest)
  }

  predicate Accepting(units: seq<string>, at: State) {
    IsState(units, at) && forall i | 0 <= i < |units| :: at[i] == |units[i]|
  }

  predicate AtStar(units: seq<string>, at: State, i: nat)
    requires IsState(units, at)
  {
    i < |units| && at[i] < |units[i]| && units[i][at[i]] == '*'
  }

  function Skipped(at: State, i: nat): State
    requires i < |at|
  {
    at[i := at[i] + 1]
  }

  /** One rune that every pattern can consume from its position. */
  predicate CanConsume(units: seq<string>, at: State, c: char) {
    IsState(units, at)
    && forall i | 0 <= i < |units| :: at[i] < |units[i]| && (units[i][at[i]] == '*' || Admits(units[i][at[i]], c))
  }

  /** Where consuming a rune leaves the patterns: a star waits, everything else moves on. */
  function Advanced(units: seq<string>, at: State): State
    requires IsState(units, at)
  {
    seq(|at|, i requires 0 <= i < |at| => if AtStar(units, at, i) then at[i] else at[i] + 1)
  }

  /** The runes left in all the patterns together. */
  function Left(units: seq<string>, at: State): nat
    requires IsState(units, at)
  {
    if units == [] then 0 else |units[0]| - at[0] + Left(units[1..], at[1..])
  }

  lemma {:induction false} SkippedLeavesLess(units: seq<string>, at: State, i: nat)
    requires IsState(units, at) && i < |units| && at[i] < |units[i]|
    ensures IsState(units, Skipped(at, i)) && Left(units, Skipped(at, i)) == Left(units, at) - 1
  {
    if i > 0 {
      SkippedLeavesLess(units[1..], at[1..], i - 1);
      assert Skipped(at, i)[1..] == Skipped(at[1..], i - 1);
    } else {
      assert Skipped(at, i)[1..] == at[1..];
    }
  }

  lemma SkipStepsBack(units: seq<string>, at: State, i: nat, rest: string)
    requires IsState(units, at) && AtStar(units, at, i) && Completes(units, Skipped(at, i), rest)
    ensures Completes(units, at, rest)
  {
    forall j | 0 <= j < |units| ensures Matches(units[j][at[j]..], rest) {
      if j == i {
        assert units[i][at[i]..][1..] == units[i][at[i] + 1..];
        assert Matches(units[i][Skipped(at, i)[i]..], rest);
      } else {
        assert Matches(units[j][Skipped(at, i)[j]..], rest);
      }
    }
  }

  lemma ConsumeStepsBack(units: seq<string>, at: State, c: char, rest: string)
    requires CanConsume(units, at, c) && Completes(units, Advanced(units, at), rest)
    ensures Completes(units, at, [c] + rest)
  {
    forall i | 0 <= i < |units| ensures Matches(units[i][at[i]..], [c] + rest) {
      var unit := units[i][at[i]..];
      assert unit[1..] == units[i][at[i] + 1..];
      assert ([c] + rest)[1..] == rest;
      assert Matches(units[i][Advanced(units, at)[i]..], rest);
    }
  }

  // ---- The states the walk can reach ----

  /** The part of a pattern behind a position, with the star that waits there. */
  function Behind(unit: string, at: nat): string
    requires at <= |unit|
  {
    unit[..at] + if at < |unit| && unit[at] == '*' then "*" else ""
  }

  /** Every pattern matches the text by the part of it behind its position. */
  ghost predicate ReachedBy(units: seq<string>, at: State, text: string) {
    IsState(units, at) && forall i | 0 <= i < |units| :: Matches(Behind(units[i], at[i]), text)
  }

  ghost predicate Reached(units: seq<string>, at: State) {
    exists text :: ReachedBy(units, at, text)
  }

  lemma {:induction false} MatchesTogether(p: string, q: string, v: string, w: string)
    requires Matches(p, v) && Matches(q, w)
    ensures Matches(p + q, v + w)
    decreases |p| + |v|
  {
    if p == "" {
      assert p + q == q && v + w == w;
    } else {
      assert (p + q)[1..] == p[1..] + q;
      assert v != "" ==> (v + w)[1..] == v[1..] + w;
      if p[0] == '*' && Matches(p[1..], v) {
        MatchesTogether(p[1..], q, v, w);
      } else if p[0] == '*' {
        MatchesTogether(p, q, v[1..], w);
      } else {
        MatchesTogether(p[1..], q, v[1..], w);
      }
    }
  }

  /** Going on to the position after a star, or after a rune, or waiting at a star. */
  lemma BehindNext(unit: string, at: nat, text: string, c: char)
    requires at < |unit| && Matches(Behind(unit, at), text)
    ensures unit[at] == '*' ==> Matches(Behind(unit, at + 1), text) && Matches(Behind(unit, at), text + [c])
    ensures unit[at] != '*' && Admits(unit[at], c) ==> Matches(Behind(unit, at + 1), text + [c])
  {
    var wait := if at + 1 < |unit| && unit[at + 1] == '*' then "*" else "";
    assert Matches(wait, "") && text + "" == text;
    assert unit[..at + 1] == unit[..at] + [unit[at]];
    if unit[at] == '*' {
      assert Behind(unit, at + 1) == Behind(unit, at) + wait;
      MatchesTogether(Behind(unit, at), wait, text, "");
      StarWaits(unit[..at], text, c);
    } else if Admits(unit[at], c) {
      assert Behind(unit, at + 1) == Behind(unit, at) + ([unit[at]] + wait);
      assert ([unit[at]] + wait)[1..] == wait && [c][1..] == "";
      assert Matches([unit[at]] + wait, [c]);
      MatchesTogether(Behind(unit, at), [unit[at]] + wait, text, [c]);
    }
  }

  lemma {:induction false} StarWaits(p: string, v: string, c: char)
    requires Matches(p + "*", v)
    ensures Matches(p + "*", v + [c])
    decreases |p| + |v|
  {
    var q := p + "*";
    if p == "" {
      StarsMatch(q, v + [c]);
    } else {
      assert q[1..] == p[1..] + "*";
      assert v != "" ==> (v + [c])[1..] == v[1..] + [c];
      if p[0] == '*' && Matches(q[1..], v) {
        StarWaits(p[1..], v, c);
      } else if p[0] == '*' {
        StarWaits(p, v[1..], c);
      } else {
        StarWaits(p[1..], v[1..], c);
      }
    }
  }

  lemma SkipReaches(units: seq<string>, at: State, i: nat, text: string)
    requires ReachedBy(units, at, text) && AtStar(units, at, i)
    ensures ReachedBy(units, Skipped(at, i), text)
  {
    hide Behind;
    forall j | 0 <= j < |units| ensures Matches(Behind(units[j], Skipped(at, i)[j]), text) {
      if j == i {
        BehindNext(units[i], at[i], text, 'x');
      }
    }
  }

  lemma ConsumeReaches(units: seq<string>, at: State, c: char, text: string)
    requires ReachedBy(units, at, text) && CanConsume(units, at, c)
    ensures ReachedBy(units, Advanced(units, at), text + [c])
  {
    hide Behind;
    forall j | 0 <= j < |units| ensures Matches(Behind(units[j], Advanced(units, at)[j]), text + [c]) {
      BehindNext(units[j], at[j], text, c);
    }
  }

  // ---- How many states there are ----

  /** The positions of every pattern, multiplied. */
  function StateCount(units: seq<string>): nat {
    if units == [] then 1 else (|units[0]| + 1) * StateCount(units[1..])
  }

  function Prefixed(i: nat, states: seq<State>): (prefixed: seq<State>)
    ensures |prefixed| == |states|
  {
    if states == [] then [] else [[i] + states[0]] + Prefixed(i, states[1..])
  }

  lemma {:induction false} PrefixedHolds(i: nat, states: seq<State>, q: State)
    requires q in states
    ensures [i] + q in Prefixed(i, states)
  {
    if q != states[0] {
      PrefixedHolds(i, states[1..], q);
    }
  }

  /** Every state that begins with a position below n. */
  function Begun(n: nat, states: seq<State>): (begun: seq<State>)
    ensures |begun| == n * |states|
  {
    if n == 0 then [] else Begun(n - 1, states) + Prefixed(n - 1, states)
  }

  lemma {:induction false} BegunHolds(n: nat, states: seq<State>, i: nat, q: State)
    requires i < n && q in states
    ensures [i] + q in Begun(n, states)
  {
    if i < n - 1 {
      BegunHolds(n - 1, states, i, q);
    } else {
      PrefixedHolds(i, states, q);
    }
  }

  function AllStates(units: seq<string>): (states: seq<State>)
    ensures |states| == StateCount(units)
  {
    if units == [] then [[]] else Begun(|units[0]| + 1, AllStates(units[1..]))
  }

  lemma {:induction false} AllStatesHold(units: seq<string>, at: State)
    requires IsState(units, at)
    ensures at in AllStates(units)
  {
    if units != [] {
      AllStatesHold(units[1..], at[1..]);
      BegunHolds(|units[0]| + 1, AllStates(units[1..]), at[0], at[1..]);
      assert at == [at[0]] + at[1..];
    }
  }

  lemma {:induction false} NoMoreThanListed(states: set<State>, listed: seq<State>)
    requires forall q | q in states :: q in listed
    ensures |states| <= |listed|
  {
    if listed != [] {
      var rest := states - {listed[0]};
      forall q | q in rest ensures q in listed[1..] {
        assert q in listed;
      }
      NoMoreThanListed(rest, listed[1..]);
      assert states <= rest + {listed[0]};
      Within(states, rest + {listed[0]});
    } else {
      assert states == {};
    }
  }

  lemma Within(few: set<State>, more: set<State>)
    requires few <= more
    ensures |few| <= |more|
  {
    assert more == few + (more - few);
  }

  /** No more states are reached than there are. */
  lemma ReachedAreFew(units: seq<string>, states: set<State>)
    requires forall q | q in states :: Reached(units, q)
    ensures |states| <= StateCount(units)
  {
    forall q | q in states ensures q in AllStates(units) {
      AllStatesHold(units, q);
    }
    NoMoreThanListed(states, AllStates(units));
  }

  // ---- Levels of the search ----

  /** The states reached so far, each with the fewest runes that reach it. */
  type Levels = map<State, nat>

  ghost predicate ClosedUnderSkips(units: seq<string>, level: Levels) {
    forall q, i: nat | q in level && IsState(units, q) && AtStar(units, q, i) :: Skipped(q, i) in level
  }

  /** Whatever completes a reached state, some state of level k is completed by at most as many runes in all. */
  ghost predicate Covered(units: seq<string>, level: Levels, k: nat) {
    forall q, rest {:trigger CoveredFrom(units, level, k, q, rest)} | q in level && Completes(units, q, rest) ::
      CoveredFrom(units, level, k, q, rest)
  }

  ghost predicate CoveredFrom(units: seq<string>, level: Levels, k: nat, q: State, rest: string) {
    q in level && CompletedWithin(units, level, k, level[q] + |rest|)
  }

  /** Some state of level k is completed by at most total runes in all. */
  ghost predicate CompletedWithin(units: seq<string>, level: Levels, k: nat, total: nat) {
    exists f, rest :: f in level && level[f] == k && Completes(units, f, rest) && k + |rest| <= total
  }

  ghost predicate LevelsUpTo(units: seq<string>, level: Levels, k: nat) {
    forall q | q in level :: Reached(units, q) && level[q] <= k
  }

  lemma LevelsAreFew(units: seq<string>, level: Levels, k: nat)
    requires LevelsUpTo(units, level, k)
    ensures (forall q | q in level.Keys :: Reached(units, q)) && |level.Keys| <= StateCount(units)
  {
    hide Reached;
    ReachedAreFew(units, level.Keys);
  }

  /** A completed state at a star either skips it, or has the star absorb a rune. */
  lemma SkipCompletes(units: seq<string>, f: State, i: nat, rest: string)
    requires Completes(units, f, rest) && AtStar(units, f, i) && Matches(units[i][f[i]..][1..], rest)
    ensures Completes(units, Skipped(f, i), rest)
  {
    assert units[i][f[i]..][1..] == units[i][f[i] + 1..];
    forall j | 0 <= j < |units| ensures Matches(units[j][Skipped(f, i)[j]..], rest) {
      assert Matches(units[j][f[j]..], rest);
    }
  }

  lemma ConsumesNext(units: seq<string>, f: State, rest: string)
    requires Completes(units, f, rest) && !Accepting(units, f)
    requires forall i: nat | AtStar(units, f, i) :: !Matches(units[i][f[i]..][1..], rest)
    ensures rest != "" && CanConsume(units, f, rest[0]) && Completes(units, Advanced(units, f), rest[1..])
  {
    var short :| 0 <= short < |units| && f[short] != |units[short]|;
    assert Matches(units[short][f[short]..], rest);
    assert units[short][f[short]] == '*' ==> AtStar(units, f, short);
    forall i | 0 <= i < |units|
      ensures f[i] < |units[i]| && (units[i][f[i]] == '*' || Admits(units[i][f[i]], rest[0]))
      ensures Matches(units[i][Advanced(units, f)[i]..], rest[1..])
    {
      ConsumesOne(units, f, rest, i);
    }
  }

  lemma ConsumesOne(units: seq<string>, f: State, rest: string, i: nat)
    requires Completes(units, f, rest) && i < |units| && rest != ""
    requires forall i: nat | AtStar(units, f, i) :: !Matches(units[i][f[i]..][1..], rest)
    ensures f[i] < |units[i]| && (units[i][f[i]] == '*' || Admits(units[i][f[i]], rest[0]))
    ensures Matches(units[i][Advanced(units, f)[i]..], rest[1..])
  {
    assert Matches(units[i][f[i]..], rest);
    assert f[i] < |units[i]|;
    assert units[i][f[i]] == '*' ==> AtStar(units, f, i);
    assert units[i][f[i]..][1..] == units[i][f[i] + 1..];
  }

  /** With no accepting state at level k, a completed state of that level leads to one that consumes a rune. */
  lemma {:induction false} Progress(units: seq<string>, level: Levels, k: nat, f: State, rest: string)
      returns (g: State, c: char, after: string)
    requires LevelsUpTo(units, level, k) && ClosedUnderSkips(units, level) && Covered(units, level, k)
    requires forall q | q in level && level[q] == k :: !Accepting(units, q)
    requires f in level && level[f] == k && Completes(units, f, rest)
    ensures g in level && level[g] == k && CanConsume(units, g, c)
    ensures Completes(units, Advanced(units, g), after) && |after| < |rest|
    decreases |rest|, Left(units, f)
  {
    if i: nat :| AtStar(units, f, i) && Matches(units[i][f[i]..][1..], rest) {
      SkipCompletes(units, f, i, rest);
      var q := Skipped(f, i);
      assert q in level;
      if level[q] == k {
        SkippedLeavesLess(units, f, i);
        g, c, after := Progress(units, level, k, q, rest);
      } else {
        assert CoveredFrom(units, level, k, q, rest);
        var f', rest' :| f' in level && level[f'] == k && Completes(units, f', rest') && k + |rest'| <= level[q] + |rest|;
        g, c, after := Progress(units, level, k, f', rest');
      }
    } else {
      ConsumesNext(units, f, rest);
      g, c, after := f, rest[0], rest[1..];
    }
  }

  /** What a finished level adds: the next states of every state of level k, closed under skips, at level k + 1. */
  ghost predicate NextLevel(units: seq<string>, level: Levels, next: Levels, k: nat) {
    && (forall q | q in level :: q in next && next[q] == level[q])
    && (forall q | q in next && q !in level :: next[q] == k + 1)
    && (forall q, c | q in level && level[q] == k && CanConsume(units, q, c) :: Advanced(units, q) in next)
  }

  lemma {:induction false} CoverNext(units: seq<string>, level: Levels, next: Levels, k: nat, f: State, rest: string)
    requires LevelsUpTo(units, level, k) && ClosedUnderSkips(units, level) && Covered(units, level, k)
    requires forall q | q in level && level[q] == k :: !Accepting(units, q)
    requires NextLevel(units, level, next, k)
    requires f in level && level[f] == k && Completes(units, f, rest)
    ensures CompletedWithin(units, next, k + 1, k + |rest|)
    decreases |rest|
  {
    var g, c, after := Progress(units, level, k, f, rest);
    var n := Advanced(units, g);
    assert n in next;
    if n in level {
      assert CoveredFrom(units, level, k, n, after);
      var f', rest' :| f' in level && level[f'] == k && Completes(units, f', rest') && k + |rest'| <= level[n] + |after|;
      CoverNext(units, level, next, k, f', rest');
      var h, tail :| h in next && next[h] == k + 1 && Completes(units, h, tail) && k + 1 + |tail| <= k + |rest'|;
      assert k + 1 + |tail| <= k + |rest|;
    } else {
      assert next[n] == k + 1;
    }
  }

  lemma CoverNextLevel(units: seq<string>, level: Levels, next: Levels, k: nat)
    requires LevelsUpTo(units, level, k) && ClosedUnderSkips(units, level) && Covered(units, level, k)
    requires forall q | q in level && level[q] == k :: !Accepting(units, q)
    requires NextLevel(units, level, next, k)
    ensures Covered(units, next, k + 1)
  {
    forall q, rest | q in next && Completes(units, q, rest) ensures CoveredFrom(units, next, k + 1, q, rest) {
      if q in level {
        assert CoveredFrom(units, level, k, q, rest);
        var f, rest' :| f in level && level[f] == k && Completes(units, f, rest') && k + |rest'| <= level[q] + |rest|;
        CoverNext(units, level, next, k, f, rest');
      }
    }
  }

  // ---- The walk ----

  /** A state with a text that leads to it. */
  datatype Step = Step(at: State, text: string)

  /** The runes of a step reach its state, and with any that complete the state they are a string every pattern matches. */
  ghost predicate Sound(units: seq<string>, s: Step) {
    ReachedBy(units, s.at, s.text) && forall rest | Completes(units, s.at, rest) :: SharedBy(units, s.text + rest)
  }

  lemma SkipIsSound(units: seq<string>, s: Step, i: nat)
    requires Sound(units, s) && AtStar(units, s.at, i)
    ensures Sound(units, Step(Skipped(s.at, i), s.text))
  {
    SkipReaches(units, s.at, i, s.text);
    forall rest | Completes(units, Skipped(s.at, i), rest) ensures SharedBy(units, s.text + rest) {
      SkipStepsBack(units, s.at, i, rest);
    }
  }

  lemma ConsumeIsSound(units: seq<string>, s: Step, c: char)
    requires Sound(units, s) && CanConsume(units, s.at, c)
    ensures Sound(units, Step(Advanced(units, s.at), s.text + [c]))
  {
    var next := Step(Advanced(units, s.at), s.text + [c]);
    ConsumeReaches(units, s.at, c, s.text);
    forall rest | Completes(units, next.at, rest) ensures SharedBy(units, next.text + rest) {
      ConsumeStepsBack(units, s.at, c, rest);
      assert next.text + rest == s.text + ([c] + rest);
    }
  }

  /** Steps that reach their states by k runes each, as level records. */
  ghost predicate Frontier(units: seq<string>, level: Levels, steps: seq<Step>, k: nat) {
    forall s | s in steps :: Sound(units, s) && |s.text| == k && s.at in level && level[s.at] == k
  }

  function Ats(steps: seq<Step>): set<State> {
    set s | s in steps :: s.at
  }

  lemma AtsAppend(steps: seq<Step>, s: Step)
    ensures Ats(steps + [s]) == Ats(steps) + {s.at}
  {
    assert s in steps + [s];
    forall t | t in steps ensures t in steps + [s] {}
  }

  lemma AddedTogether(a: set<State>, b: set<State>, c: set<State>, s0: set<State>, s1: set<State>, s2: set<State>)
    requires b == a + (s1 - s0) && c == b + (s2 - s1) && s0 <= s1 <= s2
    ensures c == a + (s2 - s0)
  {
  }

  /** level is before with states added, each reached by k runes. */
  ghost predicate Extends(before: Levels, level: Levels, k: nat) {
    && (forall q | q in before :: q in level && level[q] == before[q])
    && (forall q | q in level && q !in before :: level[q] == k)
  }

  ghost predicate ClosedOn(units: seq<string>, states: set<State>, seen: set<State>) {
    forall q, i: nat | q in states && IsState(units, q) && AtStar(units, q, i) :: Skipped(q, i) in seen
  }

  lemma FrontierGrows(units: seq<string>, level: Levels, steps: seq<Step>, s: Step)
    requires Frontier(units, level, steps, |s.text|) && Sound(units, s) && s.at !in level
    ensures Frontier(units, level[s.at := |s.text|], steps + [s], |s.text|)
  {
  }

  lemma NothingAdded(units: seq<string>, level: Levels, k: nat)
    ensures Extends(level, level, k) && ClosedOn(units, level.Keys - level.Keys, level.Keys)
  {
  }

  lemma ExtendsTogether(before: Levels, at: State, k: nat, after: Levels)
    requires at !in before && Extends(before[at := k], after, k)
    ensures Extends(before, after, k)
  {
    assert forall q | q in before :: q in before[at := k];
  }

  lemma ClosedWithFirst(units: seq<string>, at: State, known: set<State>, seen: set<State>)
    requires IsState(units, at) && ClosedBelow(units, at, |units|, seen) && ClosedOn(units, seen - known - {at}, seen)
    ensures ClosedOn(units, seen - known, seen)
  {
  }

  ghost predicate ClosedBelow(units: seq<string>, at: State, n: nat, seen: set<State>)
    requires IsState(units, at)
  {
    forall i: nat | i < n && AtStar(units, at, i) :: Skipped(at, i) in seen
  }

  lemma ClosedOneMore(units: seq<string>, at: State, n: nat, known: set<State>, seen: set<State>)
    requires IsState(units, at) && ClosedBelow(units, at, n, known) && known <= seen
    requires AtStar(units, at, n) ==> Skipped(at, n) in seen
    ensures ClosedBelow(units, at, n + 1, seen)
  {
  }

  lemma ClosedTogether(units: seq<string>, a: set<State>, seenA: set<State>, b: set<State>, seenB: set<State>, both: set<State>)
    requires ClosedOn(units, a, seenA) && ClosedOn(units, b, seenB) && seenA <= seenB && both <= a + b
    ensures ClosedOn(units, both, seenB)
  {
  }

  class Walk {
    const units: seq<string>
    const bound: int
    var seen: set<State>
    /** The fewest runes that reach each state seen. */
    ghost var level: Levels

    constructor (patterns: seq<string>, bound: int)
      ensures units == patterns && this.bound == bound && seen == {} && level == map[]
    {
      units := patterns;
      this.bound := bound;
      seen := {};
      level := map[];
    }

    predicate Exhausted()
      reads this`seen
    {
      |seen| >= bound
    }

    /** Visits s and every state star skips lead to from it, dropping those seen before. */
    method Visit(s: Step, out: seq<Step>) returns (grown: seq<Step>)
      requires level.Keys == seen && Sound(units, s) && Frontier(units, level, out, |s.text|)
      modifies this
      ensures level.Keys == seen && old(seen) <= seen && |old(seen)| <= |seen|
      ensures Extends(old(level), level, |s.text|)
      ensures Frontier(units, level, grown, |s.text|)
      ensures Ats(grown) == Ats(out) + (seen - old(seen)) && |grown| - |out| == |seen| - |old(seen)|
      ensures Exhausted() || s.at in seen
      ensures Exhausted() || ClosedOn(units, seen - old(seen), seen)
      decreases Left(units, s.at), 1
    {
      hide Extends, Frontier, ClosedOn, ClosedBelow, Ats;
      if Exhausted() || s.at in seen {
        NothingAdded(units, level, |s.text|);
        return out;
      }
      seen := seen + {s.at};
      level := level[s.at := |s.text|];
      AtsAppend(out, s);
      FrontierGrows(units, old(level), out, s);
      ghost var marked := seen;
      grown := VisitSkips(s, out + [s]);
      ExtendsTogether(old(level), s.at, |s.text|, level);
      AddedTogether(Ats(out), Ats(out + [s]), Ats(grown), old(seen), marked, seen);
      if !Exhausted() {
        assert seen - marked == seen - old(seen) - {s.at};
        ClosedWithFirst(units, s.at, old(seen), seen);
      }
    }

    /** Visits the state each star waiting at s is skipped to. */
    method VisitSkips(s: Step, out: seq<Step>) returns (grown: seq<Step>)
      requires level.Keys == seen && Sound(units, s) && Frontier(units, level, out, |s.text|)
      modifies this
      ensures level.Keys == seen && old(seen) <= seen && |old(seen)| <= |seen|
      ensures Extends(old(level), level, |s.text|)
      ensures Frontier(units, level, grown, |s.text|)
      ensures Ats(grown) == Ats(out) + (seen - old(seen)) && |grown| - |out| == |seen| - |old(seen)|
      ensures Exhausted() || (ClosedOn(units, seen - old(seen), seen) && ClosedBelow(units, s.at, |units|, seen))
      decreases Left(units, s.at), 0
    {
      grown := out;
      for i := 0 to |units|
        invariant level.Keys == seen && old(seen) <= seen && |old(seen)| <= |seen|
        invariant Extends(old(level), level, |s.text|)
        invariant Frontier(units, level, grown, |s.text|)
        invariant Ats(grown) == Ats(out) + (seen - old(seen)) && |grown| - |out| == |seen| - |old(seen)|
        invariant Exhausted() || (ClosedOn(units, seen - old(seen), seen) && ClosedBelow(units, s.at, i, seen))
      {
        if AtStar(units, s.at, i) {
          ghost var known, visited := seen, Ats(grown);
          SkippedLeavesLess(units, s.at, i);
          SkipIsSound(units, s, i);
          grown := Visit(Step(Skipped(s.at, i), s.text), grown);
          AddedTogether(Ats(out), visited, Ats(grown), old(seen), known, seen);
          if !Exhausted() {
            ClosedTogether(units, known - old(seen), known, seen - known, seen, seen - old(seen));
            ClosedOneMore(units, s.at, i, known, seen);
          }
        }
      }
    }

    /** The states of a level and all that skipping stars adds, each new one once, until the bound stops it. */
    method SkipStars(states: seq<Step>, ghost k: nat) returns (out: seq<Step>)
      requires level.Keys == seen
      requires forall s | s in states :: Sound(units, s) && |s.text| == k
      modifies this
      ensures level.Keys == seen && old(seen) <= seen && |old(seen)| <= |seen|
      ensures Extends(old(level), level, k)
      ensures Frontier(units, level, out, k)
      ensures Ats(out) == seen - old(seen) && |out| == |seen| - |old(seen)|
      ensures Exhausted() || forall s | s in states :: s.at in seen
      ensures Exhausted() || ClosedOn(units, seen - old(seen), seen)
    {
      hide Sound;
      out := [];
      for n := 0 to |states|
        invariant level.Keys == seen && old(seen) <= seen && |old(seen)| <= |seen|
        invariant Extends(old(level), level, k)
        invariant Frontier(units, level, out, k)
        invariant Ats(out) == seen - old(seen) && |out| == |seen| - |old(seen)|
        invariant Exhausted() || forall m | 0 <= m < n :: states[m].at in seen
        invariant Exhausted() || ClosedOn(units, seen - old(seen), seen)
      {
        out := Visit(states[n], out);
      }
    }

    /** A rune that all the patterns take from here, if any, and the state behind it. */
    method Consume(at: State) returns (ok: bool, r: char, next: State)
      requires IsState(units, at)
      ensures ok ==> CanConsume(units, at, r) && next == Advanced(units, at)
      ensures !ok ==> forall c :: !CanConsume(units, at, c)
      ensures ok && (forall i | 0 <= i < |units| :: units[i][at[i]] in "*?") ==> r == 'x'
    {
      var fixed := false;
      r, next := 'x', at;
      ghost var fixer := 0;
      for i := 0 to |units|
        invariant |next| == |at|
        invariant forall j | 0 <= j < i :: at[j] < |units[j]| && (units[j][at[j]] == '*' || Admits(units[j][at[j]], r))
        invariant forall j | 0 <= j < i :: next[j] == if AtStar(units, at, j) then at[j] else at[j] + 1
        invariant forall j | i <= j < |at| :: next[j] == at[j]
        invariant fixed ==> 0 <= fixer < i && at[fixer] < |units[fixer]| && units[fixer][at[fixer]] == r && r !in "*?"
        invariant !fixed ==> r == 'x' && forall j | 0 <= j < i :: units[j][at[j]] in "*?"
      {
        if at[i] == |units[i]| {
          return false, r, at;
        }
        var c := units[i][at[i]];
        if c == '*' {
        } else if c == '?' {
          next := next[i := next[i] + 1];
        } else {
          if fixed && c != r {
            return false, r, at;
          }
          r, fixed, fixer := c, true, i;
          next := next[i := next[i] + 1];
        }
      }
      ok := true;
      assert next == Advanced(units, at);
    }

    /** The first step of a level that ends every pattern, if one does. */
    method FirstAccepting(frontier: seq<Step>) returns (found: Option<string>)
      requires forall s | s in frontier :: IsState(units, s.at)
      ensures found.Some? ==> exists s :: s in frontier && s.text == found.value && Accepting(units, s.at)
      ensures found.None? ==> forall s | s in frontier :: !Accepting(units, s.at)
    {
      for n := 0 to |frontier|
        invariant forall m | 0 <= m < n :: !Accepting(units, frontier[m].at)
      {
        if Accepting(units, frontier[n].at) {
          return Some(frontier[n].text);
        }
      }
      return None;
    }

    /** The steps one rune leads to from a level's. */
    method ConsumeAll(frontier: seq<Step>, ghost k: nat) returns (next: seq<Step>)
      requires forall s | s in frontier :: Sound(units, s) && |s.text| == k
      ensures forall s | s in next :: Sound(units, s) && |s.text| == k + 1
      ensures forall s, c | s in frontier && CanConsume(units, s.at, c) :: exists t :: t in next && t.at == Advanced(units, s.at)
    {
      next := [];
      for n := 0 to |frontier|
        invariant forall s | s in next :: Sound(units, s) && |s.text| == k + 1
        invariant forall m, c | 0 <= m < n && CanConsume(units, frontier[m].at, c) :: exists t :: t in next && t.at == Advanced(units, frontier[m].at)
      {
        var s := frontier[n];
        var ok, r, at := Consume(s.at);
        if ok {
          ConsumeIsSound(units, s, r);
          ghost var before := next;
          var step := Step(at, s.text + [r]);
          next := next + [step];
          forall m, c | 0 <= m < n + 1 && CanConsume(units, frontier[m].at, c)
            ensures exists t :: t in next && t.at == Advanced(units, frontier[m].at)
          {
            if m < n {
              var t :| t in before && t.at == Advanced(units, frontier[m].at);
              assert t in next;
            } else {
              assert step in next;
            }
          }
        }
      }
    }
  }

  lemma ExtendsUpTo(units: seq<string>, before: Levels, level: Levels, k: nat, next: seq<Step>)
    requires LevelsUpTo(units, before, k) && Extends(before, level, k + 1)
    requires Frontier(units, level, next, k + 1) && Ats(next) == level.Keys - before.Keys
    ensures LevelsUpTo(units, level, k + 1)
    ensures forall q | q in level && level[q] == k + 1 :: q in Ats(next)
  {
    forall q | q in level ensures Reached(units, q) && level[q] <= k + 1 {
      if q !in before {
        assert q in Ats(next);
        var s :| s in next && s.at == q;
        assert ReachedBy(units, s.at, s.text);
      }
    }
  }

  lemma ClosedAgain(units: seq<string>, before: Levels, level: Levels, k: nat)
    requires ClosedUnderSkips(units, before) && Extends(before, level, k)
    requires ClosedOn(units, level.Keys - before.Keys, level.Keys)
    ensures ClosedUnderSkips(units, level)
  {
    forall q, i: nat | q in level && IsState(units, q) && AtStar(units, q, i) ensures Skipped(q, i) in level {
      if q in before {
        assert Skipped(q, i) in before;
      } else {
        assert q in level.Keys - before.Keys;
      }
    }
  }

  lemma NextIsReached(units: seq<string>, before: Levels, level: Levels, k: nat, frontier: seq<Step>, next: seq<Step>)
    requires Extends(before, level, k + 1) && Frontier(units, before, frontier, k)
    requires forall q | q in before && before[q] == k :: q in Ats(frontier)
    requires forall s, c | s in frontier && CanConsume(units, s.at, c) :: exists t :: t in next && t.at == Advanced(units, s.at)
    requires forall t | t in next :: t.at in level
    ensures NextLevel(units, before, level, k)
  {
    forall q, c | q in before && before[q] == k && CanConsume(units, q, c) ensures Advanced(units, q) in level {
      var s :| s in frontier && s.at == q;
      assert CanConsume(units, s.at, c);
      var t :| t in next && t.at == Advanced(units, s.at);
    }
  }

  /** Before any rune is consumed, the start and what star skips lead to are level 0. */
  lemma StartIsCovered(units: seq<string>, level: Levels)
    requires forall q | q in level :: level[q] == 0
    ensures Covered(units, level, 0)
  {
    forall q, rest | q in level && Completes(units, q, rest) ensures CoveredFrom(units, level, 0, q, rest) {
    }
  }

  function Start(units: seq<string>): State {
    seq(|units|, i => 0)
  }

  lemma StartCompletes(units: seq<string>, v: string)
    ensures IsState(units, Start(units)) && (Completes(units, Start(units), v) <==> SharedBy(units, v))
  {
    forall i | 0 <= i < |units| ensures units[i][Start(units)[i]..] == units[i] {
    }
    if Completes(units, Start(units), v) {
      forall i | 0 <= i < |units| ensures Matches(units[i], v) {
        assert Matches(units[i][Start(units)[i]..], v);
      }
    }
    if SharedBy(units, v) {
      forall i | 0 <= i < |units| ensures Matches(units[i][Start(units)[i]..], v) {
        assert Matches(units[i], v);
      }
    }
  }

  lemma StartIsSound(units: seq<string>)
    ensures Sound(units, Step(Start(units), ""))
  {
    forall rest | Completes(units, Start(units), rest) ensures SharedBy(units, "" + rest) {
      StartCompletes(units, rest);
      assert "" + rest == rest;
    }
    StartCompletes(units, "");
    assert ReachedBy(units, Start(units), "") by {
      forall i | 0 <= i < |units| ensures Matches(Behind(units[i], 0), "") {
        assert units[i][..0] == "";
      }
    }
  }

  lemma AcceptingIsShared(units: seq<string>, s: Step)
    requires Sound(units, s) && Accepting(units, s.at)
    ensures SharedBy(units, s.text)
  {
    forall i | 0 <= i < |units| ensures Matches(units[i][s.at[i]..], "") {
      assert units[i][s.at[i]..] == "";
    }
    assert Completes(units, s.at, "");
    assert s.text + "" == s.text;
  }

  lemma StartLevels(units: seq<string>, level: Levels, frontier: seq<Step>)
    requires Extends(map[], level, 0) && Frontier(units, level, frontier, 0) && Ats(frontier) == level.Keys
    ensures LevelsUpTo(units, level, 0) && forall q | q in level :: level[q] == 0 && q in Ats(frontier)
    ensures Start(units) in level ==> level[Start(units)] == 0
  {
    forall q | q in level ensures Reached(units, q) {
      assert q in Ats(frontier);
      var s :| s in frontier && s.at == q;
      assert ReachedBy(units, s.at, s.text);
    }
  }

  lemma FrontierSteps(units: seq<string>, level: Levels, steps: seq<Step>, k: nat)
    requires Frontier(units, level, steps, k)
    ensures forall s | s in steps :: Sound(units, s) && IsState(units, s.at) && |s.text| == k
    ensures forall q | q in Ats(steps) :: exists s :: s in steps && s.at == q
  {
  }

  lemma MoreSeen(before: set<State>, seen: set<State>, added: seq<Step>)
    requires before <= seen && Ats(added) == seen - before
    ensures |before| <= |seen| && (|added| > 0 ==> |before| < |seen|)
  {
    assert |seen| == |before| + |seen - before| by {
      assert seen == before + (seen - before);
    }
    if |added| > 0 {
      assert added[0].at in seen - before;
    }
  }

  /** A covered level with no accepting state: every shared string takes one more rune, and an empty level has none. */
  lemma LongerThanLevel(units: seq<string>, level: Levels, k: nat, v: string)
    requires LevelsUpTo(units, level, k) && ClosedUnderSkips(units, level) && Covered(units, level, k)
    requires forall q | q in level && level[q] == k :: !Accepting(units, q)
    requires Start(units) in level && level[Start(units)] == 0
    requires SharedBy(units, v)
    ensures k < |v| && exists q :: q in level && level[q] == k
  {
    StartCompletes(units, v);
    assert CoveredFrom(units, level, k, Start(units), v);
    var f, rest :| f in level && level[f] == k && Completes(units, f, rest) && k + |rest| <= |v|;
    var g, c, after := Progress(units, level, k, f, rest);
  }

  lemma NoneShared(units: seq<string>, level: Levels, k: nat)
    requires LevelsUpTo(units, level, k) && ClosedUnderSkips(units, level) && Covered(units, level, k)
    requires forall q | q in level :: level[q] != k
    requires Start(units) in level && level[Start(units)] == 0
    ensures forall v :: !SharedBy(units, v)
  {
    forall v | SharedBy(units, v) ensures false {
      LongerThanLevel(units, level, k, v);
    }
  }

  /**
   * A shortest string that every pattern matches. None is answered where there is no such string, and otherwise only
   * once bound states have been reached, of which the patterns have no more than their positions multiplied.
   */
  method ShortestShared(patterns: seq<string>, bound: int) returns (found: Option<string>, ghost visited: set<State>)
    ensures found.Some? ==> SharedBy(patterns, found.value)
    ensures found.Some? ==> forall v | SharedBy(patterns, v) :: |found.value| <= |v|
    ensures found.None? && (exists v :: SharedBy(patterns, v)) ==> bound <= |visited|
    ensures (forall q | q in visited :: Reached(patterns, q)) && |visited| <= StateCount(patterns)
    ensures found.None? && StateCount(patterns) < bound ==> forall v :: !SharedBy(patterns, v)
  {
    hide Sound, Covered, ClosedUnderSkips, ClosedOn, SharedBy, Frontier, Extends, LevelsUpTo, Ats, CanConsume;
    var w := new Walk(patterns, bound);
    ghost var k := 0;
    StartIsSound(patterns);
    var frontier := w.SkipStars([Step(Start(patterns), "")], 0);
    StartLevels(patterns, w.level, frontier);
    if !w.Exhausted() {
      StartIsCovered(patterns, w.level);
      ClosedAgain(patterns, map[], w.level, 0);
    }
    while |frontier| > 0
      invariant w.units == patterns && w.bound == bound && w.level.Keys == w.seen && fresh(w)
      invariant Frontier(patterns, w.level, frontier, k)
      invariant forall q | q in w.level && w.level[q] == k :: q in Ats(frontier)
      invariant LevelsUpTo(patterns, w.level, k)
      invariant forall v | SharedBy(patterns, v) :: k <= |v|
      invariant w.Exhausted() || (Covered(patterns, w.level, k) && ClosedUnderSkips(patterns, w.level))
      invariant w.Exhausted() || (Start(patterns) in w.level && w.level[Start(patterns)] == 0)
      decreases bound - |w.seen|, |frontier|
    {
      FrontierSteps(patterns, w.level, frontier, k);
      found := w.FirstAccepting(frontier);
      if found.Some? {
        var s :| s in frontier && s.text == found.value && Accepting(patterns, s.at);
        AcceptingIsShared(patterns, s);
        LevelsAreFew(patterns, w.level, k);
        return found, w.seen;
      }
      if w.Exhausted() {
        LevelsAreFew(patterns, w.level, k);
        return None, w.seen;
      }
      forall v | SharedBy(patterns, v) ensures k + 1 <= |v| {
        LongerThanLevel(patterns, w.level, k, v);
      }
      var next := w.ConsumeAll(frontier, k);
      ghost var level, before := w.level, frontier;
      frontier := w.SkipStars(next, k + 1);
      MoreSeen(level.Keys, w.seen, frontier);
      ExtendsUpTo(patterns, level, w.level, k, frontier);
      if !w.Exhausted() {
        ClosedAgain(patterns, level, w.level, k + 1);
        NextIsReached(patterns, level, w.level, k, before, next);
        CoverNextLevel(patterns, level, w.level, k);
      }
      k := k + 1;
    }
    if !w.Exhausted() {
      FrontierSteps(patterns, w.level, frontier, k);
      NoneShared(patterns, w.level, k);
    }
    LevelsAreFew(patterns, w.level, k);
    return None, w.seen;
  }
}

/** Example tokens of an overlap, composed from its constraints (internal/join/witness.go). */
module Witnesses {
  import opened Strings
  import opened Sorting
  import opened Quoting
  import opened Globs
  import opened StringSets
  import opened Renderings
  import opened Lattice
  import opened Terms
  import opened AdmittedSets
  import Walks

  const WALK_BOUND := 0x1_0000

  /** A value meets a constraint read back from a rendering. */
  predicate Fulfils(c: Constraint, v: string) {
    match c
    case Value(text) => v == text
    case Pattern(text) => Matches(text, v)
    case AnyOf(members) => exists m | m in members :: Fulfils(m, v)
    case AllOf(members) => forall m | m in members :: Fulfils(m, v)
  }

  lemma {:induction false} PatternTreeAt(patterns: seq<string>, i: nat)
    requires i < |patterns|
    ensures PatternTrees(patterns)[i] == Pattern(patterns[i])
  {
    if i > 0 {
      PatternTreeAt(patterns[1..], i - 1);
    }
  }

  lemma PatternsFulfil(patterns: seq<string>, v: string)
    ensures (forall t | t in PatternTrees(patterns) :: Fulfils(t, v)) <==> forall p | p in patterns :: Matches(p, v)
  {
    var trees := PatternTrees(patterns);
    forall i | 0 <= i < |patterns| ensures trees[i] == Pattern(patterns[i]) && trees[i] in trees && patterns[i] in patterns {
      PatternTreeAt(patterns, i);
    }
    if forall t | t in trees :: Fulfils(t, v) {
      forall p | p in patterns ensures Matches(p, v) {
        var i :| 0 <= i < |patterns| && patterns[i] == p;
        assert Fulfils(trees[i], v);
      }
    }
  }

  lemma {:induction false} MembersFulfil(members: seq<StringSet>, v: string)
    requires forall m | m in members :: Readable(m)
    ensures (exists t | t in TreesOf(members) :: Fulfils(t, v)) <==> exists m | m in members :: m.Contains(v)
    decreases members, 0
  {
    if members != [] {
      TreeFulfils(members[0], v);
      MembersFulfil(members[1..], v);
      assert forall m :: m in members <==> m == members[0] || m in members[1..];
      assert forall t :: t in TreesOf(members) <==> t == TreeOf(members[0]) || t in TreesOf(members[1..]);
    }
  }

  /** What is read of a set means the set. */
  lemma {:induction false} TreeFulfils(s: StringSet, v: string)
    requires Readable(s)
    ensures Fulfils(TreeOf(s), v) <==> s.Contains(v)
    decreases s, 1
  {
    match s
    case Exact(_) =>
    case Glob(_) =>
    case Inter(patterns) => PatternsFulfil(patterns, v);
    case Union(members) => MembersFulfil(members, v);
  }

  function PatternTexts(members: seq<Constraint>): (texts: seq<string>)
    requires forall m | m in members :: m.Pattern?
    ensures |texts| == |members| && forall i | 0 <= i < |texts| :: texts[i] == members[i].text
  {
    if members == [] then [] else [members[0].text] + PatternTexts(members[1..])
  }

  /** Intersections hold patterns only, as the reader refuses any other. */
  predicate PatternLists(c: Constraint) {
    match c
    case AnyOf(members) => forall m | m in members :: PatternLists(m)
    case AllOf(members) => forall m | m in members :: m.Pattern?
    case _ => true
  }

  lemma {:induction false} TreesHoldPatternLists(s: StringSet)
    requires Readable(s)
    ensures PatternLists(TreeOf(s))
    decreases s, 1
  {
    if s.Union? {
      MembersHoldPatternLists(s.members);
    }
  }

  lemma {:induction false} MembersHoldPatternLists(members: seq<StringSet>)
    requires forall m | m in members :: Readable(m)
    ensures forall t | t in TreesOf(members) :: PatternLists(t)
    decreases members, 0
  {
    if members != [] {
      TreesHoldPatternLists(members[0]);
      MembersHoldPatternLists(members[1..]);
    }
  }

  /** Every list of patterns in the tree has fewer states than a walk may reach. */
  predicate ShortWalks(c: Constraint) {
    match c
    case Value(_) => true
    case Pattern(text) => Walks.StateCount([text]) < WALK_BOUND
    case AnyOf(members) => forall m | m in members :: ShortWalks(m)
    case AllOf(members) => (forall m | m in members :: m.Pattern?) && Walks.StateCount(PatternTexts(members)) < WALK_BOUND
  }

  /** A set written in patterns short enough for the walk: one pattern of fewer characters than the bound always is. */
  predicate Short(s: StringSet) {
    match s
    case Glob(pattern) => |pattern| + 1 < WALK_BOUND
    case Inter(patterns) => Walks.StateCount(patterns) < WALK_BOUND
    case Union(members) => forall m | m in members :: Short(m)
    case _ => true
  }

  lemma {:induction false} TextsOfTrees(patterns: seq<string>)
    ensures PatternTexts(PatternTrees(patterns)) == patterns
  {
    forall i | 0 <= i < |patterns| ensures PatternTrees(patterns)[i] == Pattern(patterns[i]) {
      PatternTreeAt(patterns, i);
    }
  }

  lemma {:induction false} ShortIsRead(s: StringSet)
    requires Readable(s) && Short(s)
    ensures ShortWalks(TreeOf(s))
    decreases s, 1
  {
    match s
    case Exact(_) =>
    case Glob(pattern) =>
      assert [pattern][1..] == [];
    case Inter(patterns) =>
      TextsOfTrees(patterns);
    case Union(members) =>
      MembersAreShort(members);
  }

  lemma {:induction false} MembersAreShort(members: seq<StringSet>)
    requires forall m | m in members :: Readable(m) && Short(m)
    ensures forall t | t in TreesOf(members) :: ShortWalks(t)
    decreases members, 0
  {
    if members != [] {
      ShortIsRead(members[0]);
      MembersAreShort(members[1..]);
    }
  }

  /** A string for a constraint: its value, a shortest match of its patterns, or that of the earliest alternative to have one. */
  method ShapeWitness(c: Constraint) returns (w: Option<string>)
    requires PatternLists(c)
    ensures w.Some? ==> Fulfils(c, w.value)
    ensures w.Some? && c.AllOf? ==> forall v | Fulfils(c, v) :: |w.value| <= |v|
    ensures w.None? && ShortWalks(c) ==> forall v :: !Fulfils(c, v)
    ensures c.Pattern? && |c.text| + 1 < WALK_BOUND ==> w.Some?
    decreases c
  {
    match c
    case Value(text) =>
      return Some(text);
    case Pattern(text) =>
      ghost var visited;
      w, visited := Walks.ShortestShared([text], WALK_BOUND);
      if w.Some? {
        assert Matches([text][0], w.value);
      } else {
        assert Walks.StateCount([text][1..]) == 1;
        SimplestMatches(text);
        assert Walks.SharedBy([text], Simplest(text));
      }
    case AllOf(members) =>
      var patterns := PatternTexts(members);
      ghost var visited;
      w, visited := Walks.ShortestShared(patterns, WALK_BOUND);
      forall v ensures Fulfils(c, v) <==> Walks.SharedBy(patterns, v) {
        AllOfIsShared(members, patterns, v);
      }
    case AnyOf(members) =>
      for i := 0 to |members|
        invariant ShortWalks(c) ==> forall k, v | 0 <= k < i :: !Fulfils(members[k], v)
      {
        assert members[i] in members;
        w := ShapeWitness(members[i]);
        if w.Some? {
          return;
        }
      }
      return None;
  }

  lemma AllOfIsShared(members: seq<Constraint>, patterns: seq<string>, v: string)
    requires (forall m | m in members :: m.Pattern?) && patterns == PatternTexts(members)
    ensures Fulfils(AllOf(members), v) <==> Walks.SharedBy(patterns, v)
  {
    if Fulfils(AllOf(members), v) {
      forall i | 0 <= i < |patterns| ensures Matches(patterns[i], v) {
        assert members[i] in members && Fulfils(members[i], v);
      }
    }
    if Walks.SharedBy(patterns, v) {
      forall m | m in members ensures Fulfils(m, v) {
        var i :| 0 <= i < |members| && members[i] == m;
        assert Matches(patterns[i], v);
      }
    }
  }

  /** A value a claim's constraint admits, built from its rendering. */
  method ClaimWitness(s: StringSet) returns (w: Option<string>)
    requires s.Canonical() && !s.IsTop() && !s.IsEmpty()
    ensures w.Some? ==> s.Contains(w.value)
    ensures w.None? && Short(s) ==> forall v :: !s.Contains(v)
  {
    CanonicalIsReadable(s);
    RenderingReadsBack(s, "");
    assert Render(s) + "" == Render(s);
    TreesHoldPatternLists(s);
    var read := ReadConstraint(Render(s));
    w := ShapeWitness(read.value);
    if w.Some? {
      TreeFulfils(s, w.value);
    } else if Short(s) {
      ShortIsRead(s);
      forall v ensures !s.Contains(v) {
        TreeFulfils(s, v);
      }
    }
  }

  /** A token that satisfies the term: a claim it leaves open is left out, every other is witnessed. */
  method TermWitness(term: Term) returns (token: Option<Token>)
    requires LiveTerm(term)
    ensures token.Some? ==> Satisfies(term, token.value)
    ensures token.None? && (forall k | k in term :: Short(term[k])) ==> forall t :: !Satisfies(term, t)
  {
    hide SortedKeys, Ascending;
    var claims := SortedKeys(term.Keys);
    var built: Token := map[];
    for i := 0 to |claims|
      invariant forall k | k in built :: k in term && term[k].Contains(built[k])
      invariant forall j | 0 <= j < i :: claims[j] in built || (claims[j] in term && term[claims[j]].IsTop())
    {
      hide StringSet.Contains, StringSet.Canonical;
      var k := claims[i];
      assert k in term;
      if !term[k].IsTop() {
        var w := ClaimWitness(term[k]);
        if w.None? {
          if forall k | k in term :: Short(term[k]) {
            forall t ensures !Satisfies(term, t) {
              assert !Meets(term[k], k, t);
            }
          }
          return None;
        }
        built := built[k := w.value];
      }
    }
    forall k | k in term ensures Meets(term[k], k, built) {
      assert k in claims;
    }
    return Some(built);
  }

  /** Every constraint of the overlap is short, and both sides admit whatever the overlap does. */
  ghost predicate ShortAndShared(overlap: AdmittedSet, sideA: AdmittedSet, sideB: AdmittedSet) {
    && (forall term, k | term in overlap.terms && k in term :: Short(term[k]))
    && (forall t | overlap.Admits(t) :: sideA.Admits(t) && sideB.Admits(t))
  }

  /** The first identity in canonical order that the overlap yields and both sides admit. */
  method WitnessOf(overlap: AdmittedSet, sideA: AdmittedSet, sideB: AdmittedSet) returns (token: Option<Token>)
    requires overlap.Canonical()
    ensures token.Some? ==> overlap.Admits(token.value) && sideA.Admits(token.value) && sideB.Admits(token.value)
    ensures token.None? && ShortAndShared(overlap, sideA, sideB) ==> forall t :: !overlap.Admits(t)
  {
    hide Short;
    for i := 0 to |overlap.terms|
      invariant ShortAndShared(overlap, sideA, sideB) ==> forall j, t | 0 <= j < i :: !Satisfies(overlap.terms[j], t)
    {
      var term := overlap.terms[i];
      assert term in overlap.terms;
      token := TermWitness(term);
      if token.Some? && sideA.Admits(token.value) && sideB.Admits(token.value) {
        assert Satisfies(term, token.value);
        return;
      }
    }
    return None;
  }
}

/** Sets of strings, as constraints on a claim hold them, and how they are rendered (internal/eval/stringset.go). */
module StringSets {
  import opened Strings
  import opened Sorting
  import opened Globs
  import opened Quoting

  datatype StringSet =
    | Exact(value: string)
    | Glob(pattern: string)
    | Full
    | Empty
    | Unknown(reasons: seq<string>)
    | Union(members: seq<StringSet>)
    | Inter(patterns: seq<string>)
  {
    predicate Contains(v: string) {
      match this
      case Exact(value) => v == value
      case Glob(pattern) => Matches(pattern, v)
      case Full => true
      case Empty => false
      case Unknown(_) => true
      case Union(members) => exists m | m in members :: m.Contains(v)
      case Inter(patterns) => forall p | p in patterns :: Matches(p, v)
    }

    predicate IsEmpty() { Empty? }

    predicate IsTop() { Full? || Unknown? }

    /** A term: what a union's members are. */
    predicate IsTerm() { Exact? || Glob? || Inter? }

    /** The form every set the engine builds is in. */
    ghost predicate Canonical() {
      match this
      case Exact(_) => true
      case Glob(pattern) => Proper(pattern)
      case Full => true
      case Empty => true
      case Unknown(reasons) => |reasons| >= 1 && Ascending(Before, reasons)
      case Union(members) =>
        |members| >= 2 && Ascending(RenderBefore, members)
        && forall m | m in members :: m.IsTerm() && m.Canonical() && !Covered(m, members)
      case Inter(patterns) =>
        |patterns| >= 2 && Ascending(Before, patterns) && forall p | p in patterns :: Proper(p)
    }
  }

  /** An exact value another member already contains. */
  predicate Covered(m: StringSet, members: seq<StringSet>) {
    m.Exact? && exists o | o in members :: o != m && o.Contains(m.value)
  }

  /** eval.Glob: a pattern without a metacharacter is a value, and one of stars alone is everything. */
  function GlobOf(pattern: string): (s: StringSet)
    ensures s.Canonical()
    ensures forall v :: s.Contains(v) <==> Matches(pattern, v)
  {
    GlobOfMeaning(pattern);
    if forall i | 0 <= i < |pattern| :: pattern[i] != '*' && pattern[i] != '?' then Exact(pattern)
    else if forall i | 0 <= i < |pattern| :: pattern[i] == '*' then Full
    else Glob(pattern)
  }

  lemma GlobOfMeaning(pattern: string)
    ensures (forall i | 0 <= i < |pattern| :: pattern[i] != '*' && pattern[i] != '?') ==>
              forall v :: Matches(pattern, v) <==> v == pattern
    ensures pattern != "" && (forall i | 0 <= i < |pattern| :: pattern[i] == '*') ==> forall v :: Matches(pattern, v)
  {
    OnlyStarsAreEverything(pattern);
    if forall i | 0 <= i < |pattern| :: pattern[i] != '*' && pattern[i] != '?' {
      forall v ensures Matches(pattern, v) <==> v == pattern { LiteralMatchesItself(pattern, v); }
    }
  }

  lemma {:induction false} LiteralMatchesItself(pattern: string, v: string)
    requires forall i | 0 <= i < |pattern| :: pattern[i] != '*' && pattern[i] != '?'
    ensures Matches(pattern, v) <==> v == pattern
  {
    if pattern != "" && v != "" {
      LiteralMatchesItself(pattern[1..], v[1..]);
      assert v == [v[0]] + v[1..] && pattern == [pattern[0]] + pattern[1..];
    }
  }

  /** IsTop and IsEmpty are claimed only of what is so; a value or a pattern holds something, and no term everything. */
  lemma ClaimsAreTrue(s: StringSet)
    requires s.Canonical()
    ensures s.IsEmpty() ==> forall v :: !s.Contains(v)
    ensures s.IsTop() ==> forall v :: s.Contains(v)
    ensures s.Exact? || s.Glob? ==> exists v :: s.Contains(v)
    ensures s.IsTerm() ==> exists v :: !s.Contains(v)
  {
    match s
    case Exact(value) =>
      assert s.Contains(value) && !s.Contains(value + "x");
    case Glob(pattern) =>
      SimplestMatches(pattern);
      ProperRejectsEmpty(pattern);
      assert s.Contains(Simplest(pattern)) && !s.Contains("");
    case Inter(patterns) =>
      ProperRejectsEmpty(patterns[0]);
      assert !s.Contains("");
    case _ =>
  }

  lemma ProperRejectsEmpty(pattern: string)
    requires Proper(pattern)
    ensures !Matches(pattern, "")
  {
    var i :| 0 <= i < |pattern| && pattern[i] != '*';
    RejectsEmpty(pattern, i);
  }

  // ---- Rendering ----

  function RenderPattern(pattern: string): string {
    "like:" + Quote(pattern)
  }

  function Quotes(reasons: seq<string>): (texts: seq<string>)
    ensures |texts| == |reasons|
  {
    if reasons == [] then [] else [Quote(reasons[0])] + Quotes(reasons[1..])
  }

  function RenderPatterns(patterns: seq<string>): (texts: seq<string>)
    ensures |texts| == |patterns|
  {
    if patterns == [] then [] else [RenderPattern(patterns[0])] + RenderPatterns(patterns[1..])
  }

  function Render(s: StringSet): string
    decreases s
  {
    match s
    case Exact(value) => Quote(value)
    case Glob(pattern) => RenderPattern(pattern)
    case Full => "*"
    case Empty => "\U{2205}"
    case Unknown(reasons) => "?(" + Join(Quotes(reasons), ", ") + ")"
    case Union(members) => "(" + Join(Renders(members), " | ") + ")"
    case Inter(patterns) => "(" + Join(RenderPatterns(patterns), " & ") + ")"
  }

  function Renders(members: seq<StringSet>): (texts: seq<string>)
    ensures |texts| == |members|
    decreases members
  {
    if members == [] then [] else [Render(members[0])] + Renders(members[1..])
  }

  /** The order of a union's members: their renderings'. */
  predicate RenderBefore(a: StringSet, b: StringSet) {
    Before(Render(a), Render(b))
  }
}

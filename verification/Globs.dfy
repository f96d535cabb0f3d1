/** StringLike patterns: their language, and the greedy matcher that decides it (internal/eval/glob.go, shape.go). */
module Globs {
  import opened Strings

  // ---- The language ----

  /** Whether one pattern character other than a star admits c. */
  predicate Admits(unit: char, c: char) {
    unit == '?' || unit == c
  }

  /** "*" is any run of characters, "?" any one character, everything else itself; the match is anchored. */
  predicate Matches(pattern: string, v: string)
    decreases |pattern| + |v|
  {
    if pattern == "" then v == ""
    else if pattern[0] == '*' then Matches(pattern[1..], v) || (v != "" && Matches(pattern, v[1..]))
    else v != "" && Admits(pattern[0], v[0]) && Matches(pattern[1..], v[1..])
  }

  /** A pattern Glob keeps as a glob: it holds a metacharacter, and something other than stars. */
  predicate Proper(pattern: string) {
    (exists i | 0 <= i < |pattern| :: pattern[i] == '*' || pattern[i] == '?')
    && (exists i | 0 <= i < |pattern| :: pattern[i] != '*')
  }

  /** The pattern with every star deleted and every "?" written x, as the report builds an example. */
  function Simplest(pattern: string): string {
    if pattern == "" then ""
    else if pattern[0] == '*' then Simplest(pattern[1..])
    else [if pattern[0] == '?' then 'x' else pattern[0]] + Simplest(pattern[1..])
  }

  /** No pattern is empty: its simplest instance matches it, and nothing shorter does. */
  lemma {:induction false} SimplestMatches(pattern: string)
    ensures Matches(pattern, Simplest(pattern))
  {
    if pattern != "" {
      SimplestMatches(pattern[1..]);
      assert pattern[0] != '*' ==> Simplest(pattern)[1..] == Simplest(pattern[1..]);
    }
  }

  lemma {:induction false} SimplestShortest(pattern: string, v: string)
    requires Matches(pattern, v)
    ensures |Simplest(pattern)| <= |v|
    decreases |pattern| + |v|
  {
    if pattern != "" {
      if pattern[0] == '*' {
        if Matches(pattern[1..], v) {
          SimplestShortest(pattern[1..], v);
        } else {
          SimplestShortest(pattern, v[1..]);
        }
      } else {
        SimplestShortest(pattern[1..], v[1..]);
      }
    }
  }

  /** A pattern is everything exactly when it is a run of stars, one at least. */
  lemma {:induction false} OnlyStarsAreEverything(pattern: string)
    ensures (pattern != "" && forall i | 0 <= i < |pattern| :: pattern[i] == '*') <==> forall v :: Matches(pattern, v)
  {
    if pattern != "" && forall i | 0 <= i < |pattern| :: pattern[i] == '*' {
      forall v ensures Matches(pattern, v) { StarsMatch(pattern, v); }
    } else if pattern == "" {
      assert !Matches("", ['x']);
    } else {
      var i :| 0 <= i < |pattern| && pattern[i] != '*';
      RejectsEmpty(pattern, i);
    }
  }

  lemma {:induction false} StarsMatch(pattern: string, v: string)
    requires pattern != "" && forall i | 0 <= i < |pattern| :: pattern[i] == '*'
    ensures Matches(pattern, v)
    decreases |pattern| + |v|
  {
    if v != "" {
      StarsMatch(pattern, v[1..]);
    } else if |pattern| > 1 {
      StarsMatch(pattern[1..], v);
    }
  }

  lemma {:induction false} RejectsEmpty(pattern: string, i: nat)
    requires i < |pattern| && pattern[i] != '*'
    ensures !Matches(pattern, "")
  {
    if pattern[0] == '*' {
      RejectsEmpty(pattern[1..], i - 1);
    }
  }

  // ---- The literal prefix ----

  /** A character a pattern's text vouches for: no metacharacter, and not what an invalid byte reads as. */
  predicate Literal(c: char) {
    c != '*' && c != '?' && c != '\U{FFFD}'
  }

  function LiteralPrefix(pattern: string): (prefix: string)
    ensures prefix <= pattern
  {
    if pattern == "" || !Literal(pattern[0]) then "" else [pattern[0]] + LiteralPrefix(pattern[1..])
  }

  method ScanLiteralPrefix(pattern: string) returns (prefix: string)
    ensures prefix == LiteralPrefix(pattern)
  {
    for i := 0 to |pattern|
      invariant LiteralPrefix(pattern) == pattern[..i] + LiteralPrefix(pattern[i..])
    {
      if !Literal(pattern[i]) {
        return pattern[..i];
      }
      assert pattern[i..][1..] == pattern[i + 1..];
    }
    assert pattern[..|pattern|] == pattern;
    return pattern;
  }

  /** Every string a pattern matches begins with its literal prefix. */
  lemma {:induction false} MatchesBeginWithPrefix(pattern: string, v: string)
    requires Matches(pattern, v)
    ensures LiteralPrefix(pattern) <= v
  {
    if pattern != "" && Literal(pattern[0]) {
      MatchesBeginWithPrefix(pattern[1..], v[1..]);
      assert v == [v[0]] + v[1..];
    }
  }

  // ---- The matcher ----

  /** strings.Split(pattern, "*"). */
  function Split(pattern: string): (segments: seq<string>)
    ensures |segments| >= 1
  {
    if pattern == "" then [""]
    else
      var rest := Split(pattern[1..]);
      if pattern[0] == '*' then [""] + rest else [[pattern[0]] + rest[0]] + rest[1..]
  }

  /** segment stands in v at i. */
  predicate Fits(segment: string, v: string, i: nat) {
    i + |segment| <= |v| && forall k | 0 <= k < |segment| :: Admits(segment[k], v[i + k])
  }

  /** The segments match v[i..]: the first stands at i, the last ends v, and any run separates two of them. */
  ghost predicate MatchFrom(segments: seq<string>, v: string, i: nat)
    requires |segments| >= 1
    decreases |segments|, 0
  {
    Fits(segments[0], v, i)
    && if |segments| == 1 then i + |segments[0]| == |v| else Placed(segments[1..], v, i + |segments[0]|)
  }

  /** The segments match v from i or from somewhere after it. */
  ghost predicate Placed(segments: seq<string>, v: string, i: nat)
    requires |segments| >= 1
    decreases |segments|, 1
  {
    exists j: nat :: i <= j <= |v| && MatchFrom(segments, v, j)
  }

  lemma {:induction false} StarMatches(pattern: string, v: string, i: nat)
    requires pattern != "" && pattern[0] == '*' && i <= |v|
    ensures Matches(pattern, v[i..]) <==> exists j :: i <= j <= |v| && Matches(pattern[1..], v[j..])
    decreases |v| - i
  {
    if i < |v| {
      StarMatches(pattern, v, i + 1);
      assert v[i..][1..] == v[i + 1..];
    }
  }

  /** Splitting a pattern on its stars keeps its language. */
  lemma {:induction false} SplitMatches(pattern: string, v: string, i: nat)
    requires i <= |v|
    ensures Matches(pattern, v[i..]) <==> MatchFrom(Split(pattern), v, i)
    decreases |pattern|
  {
    if pattern != "" {
      var rest := Split(pattern[1..]);
      if pattern[0] == '*' {
        StarMatches(pattern, v, i);
        forall j | i <= j <= |v| ensures Matches(pattern[1..], v[j..]) <==> MatchFrom(rest, v, j) {
          SplitMatches(pattern[1..], v, j);
        }
        var segments := Split(pattern);
        assert segments[0] == "" && segments[1..] == rest;
        assert MatchFrom(segments, v, i) <==> Placed(rest, v, i);
      } else {
        var segments := Split(pattern);
        assert segments[0] == [pattern[0]] + rest[0] && segments[1..] == rest[1..];
        if i < |v| {
          SplitMatches(pattern[1..], v, i + 1);
          assert v[i..][1..] == v[i + 1..];
          FitsCons(pattern[0], rest[0], v, i);
        }
      }
    }
  }

  lemma FitsCons(unit: char, segment: string, v: string, i: nat)
    requires i < |v|
    ensures Fits([unit] + segment, v, i) <==> Admits(unit, v[i]) && Fits(segment, v, i + 1)
  {
    var whole := [unit] + segment;
    if Fits(whole, v, i) {
      assert Admits(whole[0], v[i + 0]);
      forall k | 0 <= k < |segment| ensures Admits(segment[k], v[i + 1 + k]) {
        assert Admits(whole[k + 1], v[i + (k + 1)]);
      }
    }
  }

  /** The last segment of a match ends the string, and no segment runs past where it starts. */
  lemma {:induction false} EndsAtLast(segments: seq<string>, v: string, i: nat)
    requires |segments| >= 1 && MatchFrom(segments, v, i)
    ensures var last := segments[|segments| - 1];
            i + |last| <= |v| && Fits(last, v, |v| - |last|)
            && (|segments| > 1 ==> i + |segments[0]| + |last| <= |v|)
    decreases |segments|
  {
    if |segments| > 1 {
      assert Placed(segments[1..], v, i + |segments[0]|);
      var j :| i + |segments[0]| <= j <= |v| && MatchFrom(segments[1..], v, j);
      EndsAtLast(segments[1..], v, j);
    }
  }

  /** Leftmost is always safe: where the first segment first fits, the rest fits after it if it fits anywhere. */
  lemma LeftmostIsSafe(segments: seq<string>, v: string, i: nat, leftmost: nat)
    requires |segments| > 1 && i <= leftmost <= |v|
    requires Fits(segments[0], v, leftmost)
    requires forall j | i <= j < leftmost :: !Fits(segments[0], v, j)
    ensures Placed(segments, v, i) <==> Placed(segments[1..], v, leftmost + |segments[0]|)
  {
    if Placed(segments, v, i) {
      assert Placed(segments, v, i);
      var j: nat :| i <= j <= |v| && MatchFrom(segments, v, j);
      assert j >= leftmost;
      assert Placed(segments[1..], v, j + |segments[0]|);
      var k :| j + |segments[0]| <= k <= |v| && MatchFrom(segments[1..], v, k);
    }
    if Placed(segments[1..], v, leftmost + |segments[0]|) {
      assert MatchFrom(segments, v, leftmost);
    }
  }

  method MatchAt(segment: string, v: string, i: nat) returns (fits: bool)
    ensures fits == Fits(segment, v, i)
  {
    if i + |segment| > |v| {
      return false;
    }
    for k := 0 to |segment|
      invariant forall m | 0 <= m < k :: Admits(segment[m], v[i + m])
    {
      if segment[k] != '?' && segment[k] != v[i + k] {
        return false;
      }
    }
    return true;
  }

  method MatchSegments(segments: seq<string>, v: string) returns (matched: bool)
    requires |segments| >= 1
    ensures matched <==> MatchFrom(segments, v, 0)
  {
    var n := |segments|;
    var first, last := segments[0], segments[n - 1];
    var atStart := MatchAt(first, v, 0);
    if n == 1 {
      return |v| == |first| && atStart;
    }
    if !atStart {
      return false;
    }
    if MatchFrom(segments, v, 0) {
      EndsAtLast(segments, v, 0);
    }
    var i := |first|;
    var end := |v| - |last|;
    if end < i {
      return false;
    }
    var atEnd := MatchAt(last, v, end);
    if !atEnd {
      return false;
    }
    var s := 1;
    while s < n - 1
      invariant 1 <= s <= n - 1 && 0 <= i <= end
      invariant MatchFrom(segments, v, 0) <==> Placed(segments[s..], v, i)
    {
      var seg := segments[s];
      var j := i;
      var fits := MatchAt(seg, v, j);
      while j + |seg| <= end && !fits
        invariant i <= j && fits == Fits(seg, v, j)
        invariant forall k | i <= k < j :: !Fits(seg, v, k)
      {
        j := j + 1;
        fits := MatchAt(seg, v, j);
      }
      if j + |seg| > end {
        NoRoom(segments[s..], v, i, j);
        return false;
      }
      LeftmostIsSafe(segments[s..], v, i, j);
      assert segments[s..][1..] == segments[s + 1..];
      i := j + |seg|;
      s := s + 1;
    }
    assert segments[s..] == [last];
    assert MatchFrom(segments[s..], v, end);
    return true;
  }

  /** Where a segment fits nowhere before a position that leaves no room for the last one, nothing matches. */
  lemma NoRoom(segments: seq<string>, v: string, i: nat, j: nat)
    requires |segments| > 1 && i <= j
    requires j + |segments[0]| + |segments[|segments| - 1]| > |v|
    requires forall k | i <= k < j :: !Fits(segments[0], v, k)
    ensures !Placed(segments, v, i)
  {
    if Placed(segments, v, i) {
      assert Placed(segments, v, i);
      var k: nat :| i <= k <= |v| && MatchFrom(segments, v, k);
      EndsAtLast(segments, v, k);
      assert false;
    }
  }

  /** The matcher accepts exactly the language of the pattern. */
  method ContainsGlob(pattern: string, v: string) returns (admitted: bool)
    ensures admitted <==> Matches(pattern, v)
  {
    admitted := MatchSegments(Split(pattern), v);
    SplitMatches(pattern, v, 0);
    assert v[0..] == v;
  }
}

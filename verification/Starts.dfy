/** The starts of a name as sets of beginnings: longerOf and shortest (internal/ring/classify.go). */
module Starts {
  import opened Strings

  /** Some start of the list is a beginning of the text. */
  ghost predicate BeginsWithOne(starts: seq<string>, text: string) {
    exists s | s in starts :: s <= text
  }

  // ---- longerOf ----

  /** Of two texts, the one that extends the other, if either does. */
  function LongerOfTwo(x: string, y: string): seq<string> {
    if x <= y then [y] else if y <= x then [x] else []
  }

  function LongerThanOne(x: string, b: seq<string>): seq<string> {
    if b == [] then [] else LongerThanOne(x, b[..|b| - 1]) + LongerOfTwo(x, b[|b| - 1])
  }

  function LongerOf(a: seq<string>, b: seq<string>): seq<string> {
    if a == [] then [] else LongerOf(a[..|a| - 1], b) + LongerThanOne(a[|a| - 1], b)
  }

  lemma OneMoreOfA(a: seq<string>, b: seq<string>, i: nat)
    requires i < |a|
    ensures LongerOf(a[..i + 1], b) == LongerOf(a[..i], b) + LongerThanOne(a[i], b)
  {
    assert a[..i + 1][..i] == a[..i];
  }

  lemma OneMoreOfB(x: string, b: seq<string>, j: nat)
    requires j < |b|
    ensures LongerThanOne(x, b[..j + 1]) == LongerThanOne(x, b[..j]) + LongerOfTwo(x, b[j])
  {
    assert b[..j + 1][..j] == b[..j];
  }

  method BuildLongerOf(a: seq<string>, b: seq<string>) returns (out: seq<string>)
    ensures out == LongerOf(a, b)
  {
    hide LongerOf, LongerThanOne;
    out := [];
    assert LongerOf([], b) == [] by {
      LongerOfNothing(b);
    }
    for i := 0 to |a|
      invariant out == LongerOf(a[..i], b)
    {
      ghost var before := out;
      LongerThanNothing(a[i]);
      for j := 0 to |b|
        invariant out == before + LongerThanOne(a[i], b[..j])
      {
        OneMoreOfB(a[i], b, j);
        if a[i] <= b[j] {
          out := out + [b[j]];
        } else if b[j] <= a[i] {
          out := out + [a[i]];
        }
      }
      OneMoreOfA(a, b, i);
      assert b[..|b|] == b;
    }
    assert a[..|a|] == a;
  }

  lemma LongerOfNothing(b: seq<string>)
    ensures LongerOf([], b) == []
  {
  }

  lemma LongerThanNothing(x: string)
    ensures LongerThanOne(x, []) == []
  {
  }

  lemma {:induction false} LongerThanOneIsExact(x: string, b: seq<string>, text: string)
    ensures BeginsWithOne(LongerThanOne(x, b), text) <==> x <= text && BeginsWithOne(b, text)
  {
    if b != [] {
      var front, y := b[..|b| - 1], b[|b| - 1];
      LongerThanOneIsExact(x, front, text);
      BeginningsCompare(x, y, text);
      assert b == front + [y];
      BeginsWithEither(front, [y], text);
      BeginsWithEither(LongerThanOne(x, front), LongerOfTwo(x, y), text);
      BeginsWithTheLonger(x, y, text);
    }
  }

  lemma BeginsWithTheLonger(x: string, y: string, text: string)
    ensures BeginsWithOne(LongerOfTwo(x, y), text) <==> x <= text && y <= text
    ensures BeginsWithOne([y], text) <==> y <= text
  {
    BeginningsCompare(x, y, text);
    assert y in [y];
    if x <= y {
      assert y in LongerOfTwo(x, y);
      assert y <= text ==> x == text[..|x|];
    } else if y <= x {
      assert x in LongerOfTwo(x, y);
      assert x <= text ==> y == text[..|y|];
    }
  }

  lemma BeginsWithEither(a: seq<string>, b: seq<string>, text: string)
    ensures BeginsWithOne(a + b, text) <==> BeginsWithOne(a, text) || BeginsWithOne(b, text)
  {
    forall s ensures s in a + b <==> s in a || s in b {
    }
  }

  /** The texts that extend one of the result are those that extend one of a and also one of b. */
  lemma {:induction false} LongerOfIsExact(a: seq<string>, b: seq<string>, text: string)
    ensures BeginsWithOne(LongerOf(a, b), text) <==> BeginsWithOne(a, text) && BeginsWithOne(b, text)
  {
    if a != [] {
      var front, x := a[..|a| - 1], a[|a| - 1];
      assert a == front + [x] && x in [x];
      LongerOfIsExact(front, b, text);
      LongerThanOneIsExact(x, b, text);
      BeginsWithEither(front, [x], text);
      BeginsWithEither(LongerOf(front, b), LongerThanOne(x, b), text);
    }
  }

  // ---- shortest ----

  /** Not after, in byte order. */
  predicate AtMost(a: string, b: string) {
    a == b || Before(a, b)
  }

  predicate Sorted(xs: seq<string>) {
    forall i, j | 0 <= i < j < |xs| :: AtMost(xs[i], xs[j])
  }

  function Place(x: string, xs: seq<string>): seq<string> {
    if xs == [] || AtMost(x, xs[0]) then [x] + xs else [xs[0]] + Place(x, xs[1..])
  }

  /** slices.Sorted: repeats stay. */
  function SortStarts(xs: seq<string>): seq<string> {
    if xs == [] then [] else Place(xs[0], SortStarts(xs[1..]))
  }

  lemma {:induction false} PlaceSorts(x: string, xs: seq<string>)
    requires Sorted(xs)
    ensures Sorted(Place(x, xs)) && multiset(Place(x, xs)) == multiset([x]) + multiset(xs)
  {
    hide Before;
    BeforeOrder([]);
    if xs != [] && !AtMost(x, xs[0]) {
      PlaceSorts(x, xs[1..]);
      BeforeTotal(x, xs[0]);
      assert xs == [xs[0]] + xs[1..];
      var tail := Place(x, xs[1..]);
      forall i | 0 <= i < |tail| ensures AtMost(xs[0], tail[i]) {
        assert tail[i] in multiset(tail);
        if tail[i] != x {
          assert tail[i] in xs[1..];
        }
      }
    }
  }

  lemma {:induction false} SortStartsSorts(xs: seq<string>)
    ensures Sorted(SortStarts(xs)) && multiset(SortStarts(xs)) == multiset(xs)
    ensures forall x :: x in SortStarts(xs) <==> x in xs
  {
    if xs != [] {
      SortStartsSorts(xs[1..]);
      PlaceSorts(xs[0], SortStarts(xs[1..]));
      assert xs == [xs[0]] + xs[1..];
    }
    forall x ensures x in SortStarts(xs) <==> x in xs {
      assert x in multiset(SortStarts(xs)) <==> x in multiset(xs);
    }
  }

  /** Of sorted starts, those that do not begin with the last one kept. */
  function Kept(sorted: seq<string>): seq<string> {
    if sorted == [] then []
    else
      var out, s := Kept(sorted[..|sorted| - 1]), sorted[|sorted| - 1];
      if out == [] || !(out[|out| - 1] <= s) then out + [s] else out
  }

  function Shortest(starts: seq<string>): seq<string> {
    Kept(SortStarts(starts))
  }

  method BuildShortest(starts: seq<string>) returns (out: seq<string>)
    ensures out == Shortest(starts)
  {
    var sorted := SortStarts(starts);
    out := [];
    for i := 0 to |sorted|
      invariant out == Kept(sorted[..i])
    {
      assert sorted[..i + 1][..i] == sorted[..i];
      if |out| == 0 || !(out[|out| - 1] <= sorted[i]) {
        out := out + [sorted[i]];
      }
    }
    assert sorted[..|sorted|] == sorted;
  }

  /** In byte order the extensions of a text follow it without a gap. */
  lemma {:induction false} BeginsBetween(k: string, l: string, s: string)
    requires k <= s && AtMost(k, l) && AtMost(l, s)
    ensures k <= l
  {
    if k != "" && k != l && l != s {
      BeforeIrreflexive(k);
      assert l != "" && k[0] == s[0] == l[0];
      BeginsBetween(k[1..], l[1..], s[1..]);
      assert k == [k[0]] + k[1..] && l == [l[0]] + l[1..];
    }
  }

  ghost predicate Antichain(xs: seq<string>) {
    forall i, j | 0 <= i < |xs| && 0 <= j < |xs| && i != j :: !(xs[i] <= xs[j])
  }

  /** What KeptIs promises of what is kept of some sorted starts. */
  ghost predicate Represents(out: seq<string>, sorted: seq<string>) {
    && Antichain(out) && Sorted(out)
    && (forall k | k in out :: k in sorted)
    && (forall s | s in sorted :: BeginsWithOne(out, s))
  }

  /** Comparing with the last kept is comparing with all of them: what is kept is an antichain every start begins with one of. */
  lemma {:induction false} KeptIs(sorted: seq<string>)
    requires Sorted(sorted)
    ensures Represents(Kept(sorted), sorted)
  {
    if sorted != [] {
      var front, s := sorted[..|sorted| - 1], sorted[|sorted| - 1];
      hide Antichain, BeginsWithOne, AtMost, Represents;
      KeptIs(front);
      var out := Kept(front);
      assert sorted == front + [s];
      LastIsAtLeast(sorted, out);
      if out == [] || !(out[|out| - 1] <= s) {
        OneMoreKept(front, out, s);
      } else {
        OneMoreDropped(front, out, s);
      }
    }
  }

  lemma LastIsAtLeast(sorted: seq<string>, out: seq<string>)
    requires sorted != [] && Sorted(sorted) && Represents(out, sorted[..|sorted| - 1])
    ensures forall k | k in out :: AtMost(k, sorted[|sorted| - 1])
  {
    hide AtMost, Antichain, BeginsWithOne;
    var front := sorted[..|sorted| - 1];
    forall k | k in out ensures AtMost(k, sorted[|sorted| - 1]) {
      var i :| 0 <= i < |front| && front[i] == k;
      assert sorted[i] == k;
    }
  }

  lemma OneMoreKept(front: seq<string>, out: seq<string>, s: string)
    requires Represents(out, front) && forall k | k in out :: AtMost(k, s)
    requires out == [] || !(out[|out| - 1] <= s)
    ensures Represents(out + [s], front + [s])
  {
    hide AtMost;
    forall i | 0 <= i < |out| ensures !(out[i] <= s) && !(s <= out[i]) {
      LastSpeaksForAll(out, i, s);
    }
    assert s in out + [s] && s <= s;
    forall x | x in front + [s] ensures BeginsWithOne(out + [s], x) {
      if x in front {
        var k :| k in out && k <= x;
        assert k in out + [s];
      }
    }
  }

  lemma OneMoreDropped(front: seq<string>, out: seq<string>, s: string)
    requires Represents(out, front) && out != [] && out[|out| - 1] <= s
    ensures Represents(out, front + [s])
  {
    hide AtMost;
    assert out[|out| - 1] in out;
  }

  lemma LastSpeaksForAll(out: seq<string>, i: nat, s: string)
    requires i < |out| && Antichain(out) && Sorted(out) && !(out[|out| - 1] <= s)
    requires forall k | k in out :: AtMost(k, s)
    ensures !(out[i] <= s) && !(s <= out[i])
  {
    var last := out[|out| - 1];
    assert out[i] in out && last in out;
    if out[i] <= s && i < |out| - 1 {
      BeginsBetween(out[i], last, s);
    }
    BeginsAfter(s, out[i]);
  }

  /** A text comes before whatever begins with it. */
  lemma {:induction false} BeginsAfter(a: string, b: string)
    ensures a <= b && AtMost(b, a) ==> a == b
  {
    if a != "" && b != "" && a[0] == b[0] {
      BeginsAfter(a[1..], b[1..]);
      assert a == [a[0]] + a[1..] && b == [b[0]] + b[1..];
    }
  }

  /**
   * shortest is the starts that begin with no other, in byte order, each once: it has the same extensions, it is
   * no longer than need be, and it is all of the starts no other start begins.
   */
  lemma ShortestIs(starts: seq<string>)
    ensures Sorted(Shortest(starts)) && Antichain(Shortest(starts))
    ensures forall s :: s in Shortest(starts) <==> s in starts && forall o | o in starts && o <= s :: o == s
    ensures forall text :: BeginsWithOne(Shortest(starts), text) <==> BeginsWithOne(starts, text)
    ensures Shortest(starts) == [] <==> starts == []
  {
    var out := Shortest(starts);
    hide Kept, SortStarts, Shortest, AtMost;
    ShortestRepresents(starts);
    MinimalStarts(starts, out);
    forall text ensures BeginsWithOne(out, text) <==> BeginsWithOne(starts, text) {
      SameExtensions(starts, out, text);
    }
    if starts != [] {
      assert BeginsWithOne(out, starts[0]);
    }
    if out != [] {
      assert out[0] in out;
    }
  }

  lemma ShortestRepresents(starts: seq<string>)
    ensures Represents(Shortest(starts), starts)
  {
    hide Kept, SortStarts, AtMost, BeginsWithOne, Antichain;
    SortStartsSorts(starts);
    KeptIs(SortStarts(starts));
  }

  lemma MinimalStarts(starts: seq<string>, out: seq<string>)
    requires Represents(out, starts)
    ensures forall s :: s in out <==> s in starts && forall o | o in starts && o <= s :: o == s
  {
    hide AtMost, Antichain;
    forall s | s in out, o | o in starts && o <= s ensures o == s {
      var k :| k in out && k <= o;
      BeginsThrough(k, o, s);
      OneOfAntichain(out, k, s);
    }
    forall s | s in starts && s !in out ensures exists o | o in starts && o <= s :: o != s {
      assert BeginsWithOne(out, s);
      var k :| k in out && k <= s;
      assert k in starts;
    }
  }

  lemma SameExtensions(starts: seq<string>, out: seq<string>, text: string)
    requires forall k | k in out :: k in starts
    requires forall s | s in starts :: BeginsWithOne(out, s)
    ensures BeginsWithOne(out, text) <==> BeginsWithOne(starts, text)
  {
    if BeginsWithOne(starts, text) {
      var s :| s in starts && s <= text;
      var k :| k in out && k <= s;
      BeginsThrough(k, s, text);
    }
  }

  lemma BeginsThrough(k: string, o: string, s: string)
    requires k <= o && o <= s
    ensures k <= s && (k == s ==> o == s)
  {
    assert k == o[..|k|] == s[..|k|];
  }

  lemma OneOfAntichain(out: seq<string>, k: string, s: string)
    requires Antichain(out) && k in out && s in out && k <= s
    ensures k == s
  {
    var i :| 0 <= i < |out| && out[i] == k;
    var j :| 0 <= j < |out| && out[j] == s;
  }
}

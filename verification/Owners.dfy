/** Owners, their order, and the merge sort behind distinct (internal/ring/owner.go, classify.go). */
module Owners {
  import opened Strings
  import opened Sorting

  datatype Scope =
    NoScope | OwnerScope | RepositoryScope | EnterpriseScope | AccountScope | OrganisationScope | TenantScope | ProviderScope
  {
    function Rank(): nat {
      match this
      case NoScope => 0
      case OwnerScope => 1
      case RepositoryScope => 2
      case EnterpriseScope => 3
      case AccountScope => 4
      case OrganisationScope => 5
      case TenantScope => 6
      case ProviderScope => 7
    }
  }

  datatype Kind = NameKind | IDKind {
    function Rank(): nat { if NameKind? then 0 else 1 }
  }

  /** Someone who can hold a credential, as the census tells tenants apart. */
  datatype Owner = Owner(issuer: string, ns: string, scope: Scope, kind: Kind, value: string, name: string, recyclable: bool, declared: bool)

  // ---- compareOwners ----

  predicate BoolBefore(a: bool, b: bool) { !a && b }

  /** compareOwners(a, b) < 0: by namespace, scope, kind, value, name, issuer and the two facts, in turn. */
  predicate OwnerBefore(a: Owner, b: Owner) {
    Before(a.ns, b.ns) || (a.ns == b.ns &&
    (a.scope.Rank() < b.scope.Rank() || (a.scope == b.scope &&
    (a.kind.Rank() < b.kind.Rank() || (a.kind == b.kind && TextBefore(a, b))))))
  }

  predicate TextBefore(a: Owner, b: Owner) {
    Before(a.value, b.value) || (a.value == b.value &&
    (Before(a.name, b.name) || (a.name == b.name &&
    (Before(a.issuer, b.issuer) || (a.issuer == b.issuer &&
    (BoolBefore(a.recyclable, b.recyclable) || (a.recyclable == b.recyclable && BoolBefore(a.declared, b.declared))))))))
  }

  lemma TextBeforeTransitive(a: Owner, b: Owner, c: Owner)
    requires TextBefore(a, b) && TextBefore(b, c)
    ensures TextBefore(a, c)
  {
    hide Before;
    BeforeOrder([]);
  }

  /** The order is strict, and tells every two owners of a list apart. */
  lemma OwnerOrder(xs: seq<Owner>)
    ensures StrictOrder(OwnerBefore) && TotalOn(OwnerBefore, xs)
  {
    hide Before;
    BeforeOrder([]);
    forall a: Owner ensures !OwnerBefore(a, a) {
    }
    forall a, b, c | OwnerBefore(a, b) && OwnerBefore(b, c) ensures OwnerBefore(a, c) {
      OwnerBeforeTransitive(a, b, c);
    }
    forall a: Owner, b: Owner ensures a == b || OwnerBefore(a, b) || OwnerBefore(b, a) {
      OwnerBeforeTotal(a, b);
    }
  }

  lemma OwnerBeforeTransitive(a: Owner, b: Owner, c: Owner)
    requires OwnerBefore(a, b) && OwnerBefore(b, c)
    ensures OwnerBefore(a, c)
  {
    hide Before, TextBefore;
    BeforeOrder([]);
    if TextBefore(a, b) && TextBefore(b, c) {
      TextBeforeTransitive(a, b, c);
    }
  }

  lemma OwnerBeforeTotal(a: Owner, b: Owner)
    ensures a == b || OwnerBefore(a, b) || OwnerBefore(b, a)
  {
    hide Before;
    BeforeTotal(a.ns, b.ns);
    BeforeTotal(a.value, b.value);
    BeforeTotal(a.name, b.name);
    BeforeTotal(a.issuer, b.issuer);
  }

  // ---- sortOwners ----

  /** The merge: of two equal heads the left's goes first. */
  function Merge(left: seq<Owner>, right: seq<Owner>): (merged: seq<Owner>)
    ensures |merged| == |left| + |right|
  {
    if left == [] then right
    else if right == [] then left
    else if OwnerBefore(right[0], left[0]) then [right[0]] + Merge(left, right[1..])
    else [left[0]] + Merge(left[1..], right)
  }

  function MergeSort(xs: seq<Owner>): (sorted: seq<Owner>)
    ensures |sorted| == |xs|
  {
    if |xs| < 2 then xs else Merge(MergeSort(xs[..|xs| / 2]), MergeSort(xs[|xs| / 2..]))
  }

  predicate InOrder(xs: seq<Owner>) {
    forall i, j | 0 <= i < j < |xs| :: !OwnerBefore(xs[j], xs[i])
  }

  lemma {:induction false} MergeKeeps(left: seq<Owner>, right: seq<Owner>)
    ensures multiset(Merge(left, right)) == multiset(left) + multiset(right)
  {
    hide OwnerBefore;
    if left != [] && right != [] {
      assert left == [left[0]] + left[1..] && right == [right[0]] + right[1..];
      if OwnerBefore(right[0], left[0]) {
        MergeKeeps(left, right[1..]);
      } else {
        MergeKeeps(left[1..], right);
      }
    }
  }

  lemma {:induction false} MergeInOrder(left: seq<Owner>, right: seq<Owner>)
    requires InOrder(left) && InOrder(right)
    ensures InOrder(Merge(left, right))
  {
    OwnerOrder(left + right);
    hide OwnerBefore;
    if left != [] && right != [] {
      if OwnerBefore(right[0], left[0]) {
        MergeInOrder(left, right[1..]);
        HeadInOrder(right[0], left, right[1..]);
      } else {
        MergeInOrder(left[1..], right);
        HeadInOrder(left[0], left[1..], right);
      }
    }
  }

  lemma HeadInOrder(head: Owner, left: seq<Owner>, right: seq<Owner>)
    requires InOrder(Merge(left, right))
    requires forall x | x in left :: !OwnerBefore(x, head)
    requires forall x | x in right :: !OwnerBefore(x, head)
    ensures InOrder([head] + Merge(left, right))
  {
    hide OwnerBefore, Merge;
    MergeKeeps(left, right);
    var tail := Merge(left, right);
    forall i | 0 <= i < |tail| ensures !OwnerBefore(tail[i], head) {
      assert tail[i] in multiset(tail);
      assert tail[i] in multiset(left) || tail[i] in multiset(right);
    }
  }

  /** sortOwners puts the same owners in order. */
  lemma {:induction false} MergeSortSorts(xs: seq<Owner>)
    ensures InOrder(MergeSort(xs)) && multiset(MergeSort(xs)) == multiset(xs)
  {
    if |xs| >= 2 {
      var left, right := xs[..|xs| / 2], xs[|xs| / 2..];
      assert xs == left + right;
      MergeSortSorts(left);
      MergeSortSorts(right);
      MergeKeeps(MergeSort(left), MergeSort(right));
      MergeInOrder(MergeSort(left), MergeSort(right));
    }
  }

  /** One step of the merge: the head that goes first is written, and the rest merges as before. */
  lemma MergeStep(left: seq<Owner>, right: seq<Owner>, i: nat, j: nat)
    requires i < |left| && j < |right|
    ensures OwnerBefore(right[j], left[i]) ==> Merge(left[i..], right[j..]) == [right[j]] + Merge(left[i..], right[j + 1..])
    ensures !OwnerBefore(right[j], left[i]) ==> Merge(left[i..], right[j..]) == [left[i]] + Merge(left[i + 1..], right[j..])
  {
    assert left[i..][1..] == left[i + 1..] && right[j..][1..] == right[j + 1..];
  }

  lemma MergeEnds(left: seq<Owner>, right: seq<Owner>, i: nat, j: nat)
    requires i <= |left| && j <= |right|
    ensures i == |left| ==> Merge(left[i..], right[j..]) == right[j..]
    ensures j == |right| ==> Merge(left[i..], right[j..]) == left[i..]
  {
  }

  /** now[lo..hi] is being merged: what is written, then the merge of what is left, is the whole merge. */
  ghost predicate Merging(now: seq<Owner>, was: seq<Owner>, left: seq<Owner>, right: seq<Owner>, lo: nat, mid: nat, hi: nat, i: nat, j: nat) {
    && lo <= mid <= hi <= |now| == |was|
    && i <= |left| == mid - lo && j <= |right| == hi - mid
    && now[mid + j..hi] == right[j..]
    && now[lo..lo + i + j] + Merge(left[i..], right[j..]) == Merge(left, right)
    && now[..lo] == was[..lo] && now[hi..] == was[hi..]
  }

  /** Writing the head that goes first, where the next owner goes, overwrites nothing unread. */
  lemma Written(now: seq<Owner>, was: seq<Owner>, left: seq<Owner>, right: seq<Owner>, lo: nat, mid: nat, hi: nat,
                i: nat, j: nat, head: Owner, i': nat, j': nat)
    requires Merging(now, was, left, right, lo, mid, hi, i, j)
    requires i <= i' <= |left| && j <= j' <= |right| && i' + j' == i + j + 1
    requires Merge(left[i..], right[j..]) == [head] + Merge(left[i'..], right[j'..])
    ensures lo + i + j < hi && Merging(now[lo + i + j := head], was, left, right, lo, mid, hi, i', j')
  {
    hide Merge;
    var at := lo + i + j;
    var next := now[at := head];
    assert next[lo..at + 1] == now[lo..at] + [head];
    assert next[mid + j'..hi] == now[mid + j..hi][j' - j..];
    assert right[j..][j' - j..] == right[j'..];
    assert next[..lo] == now[..lo] && next[hi..] == now[hi..];
  }

  lemma Merged(now: seq<Owner>, was: seq<Owner>, left: seq<Owner>, right: seq<Owner>, lo: nat, mid: nat, hi: nat, j: nat)
    requires Merging(now, was, left, right, lo, mid, hi, |left|, j)
    ensures now[lo..hi] == Merge(left, right)
  {
    MergeEnds(left, right, |left|, j);
    assert now[lo..hi] == now[lo..mid + j] + now[mid + j..hi];
  }

  /** Merges the copied left half with the right half, back into a[lo..hi]. */
  method MergeBack(a: array<Owner>, left: array<Owner>, lo: nat, mid: nat, hi: nat)
    requires lo <= mid <= hi <= a.Length && left.Length == mid - lo && left != a
    modifies a
    ensures a[lo..hi] == Merge(left[..], old(a[mid..hi]))
    ensures a[..lo] == old(a[..lo]) && a[hi..] == old(a[hi..])
  {
    hide OwnerBefore, Merge, Merging;
    ghost var was, l, r := a[..], left[..], a[mid..hi];
    var i, j := 0, 0;
    MergingStarts(was, l, lo, mid, hi);
    while i < left.Length && mid + j < hi
      invariant i <= left.Length && mid + j <= hi
      invariant Merging(a[..], was, l, r, lo, mid, hi, i, j)
    {
      ghost var now := a[..];
      NextUnread(now, was, l, r, lo, mid, hi, i, j);
      MergeStep(l, r, i, j);
      var at := lo + i + j;
      if OwnerBefore(a[mid + j], left[i]) {
        Written(now, was, l, r, lo, mid, hi, i, j, r[j], i, j + 1);
        a[at] := a[mid + j];
        j := j + 1;
        assert a[..] == now[at := r[j - 1]];
      } else {
        Written(now, was, l, r, lo, mid, hi, i, j, l[i], i + 1, j);
        a[at] := left[i];
        i := i + 1;
        assert a[..] == now[at := l[i - 1]];
      }
    }
    while i < left.Length
      invariant i <= left.Length && mid + j <= hi
      invariant Merging(a[..], was, l, r, lo, mid, hi, i, j)
      invariant i == left.Length || mid + j == hi
    {
      ghost var now := a[..];
      MergeEnds(l, r, i, j);
      MergeEnds(l, r, i + 1, j);
      Written(now, was, l, r, lo, mid, hi, i, j, l[i], i + 1, j);
      a[lo + i + j] := left[i];
      i := i + 1;
      assert a[..] == now[lo + i - 1 + j := l[i - 1]];
    }
    Merged(a[..], was, l, r, lo, mid, hi, j);
    MergingFrame(a[..], was, l, r, lo, mid, hi, i, j);
    assert a[lo..hi] == a[..][lo..hi] && was[..lo] == old(a[..lo]) && was[hi..] == old(a[hi..]);
  }

  lemma MergingStarts(was: seq<Owner>, left: seq<Owner>, lo: nat, mid: nat, hi: nat)
    requires lo <= mid <= hi <= |was| && |left| == mid - lo
    ensures Merging(was, was, left, was[mid..hi], lo, mid, hi, 0, 0)
  {
    assert left[0..] == left && was[mid..hi][0..] == was[mid..hi] && was[lo..lo] == [];
  }

  lemma MergingFrame(now: seq<Owner>, was: seq<Owner>, left: seq<Owner>, right: seq<Owner>, lo: nat, mid: nat, hi: nat, i: nat, j: nat)
    requires Merging(now, was, left, right, lo, mid, hi, i, j)
    ensures |now| == |was| && now[..lo] == was[..lo] && now[hi..] == was[hi..]
  {
  }

  lemma NextUnread(now: seq<Owner>, was: seq<Owner>, left: seq<Owner>, right: seq<Owner>, lo: nat, mid: nat, hi: nat, i: nat, j: nat)
    requires Merging(now, was, left, right, lo, mid, hi, i, j) && j < |right|
    ensures mid + j < hi && now[mid + j] == right[j]
  {
    assert now[mid + j..hi][0] == right[j..][0];
  }

  /**
   * Sorts a[lo..hi] in place. With a copy of the left half, what the merge has written never reaches the part of
   * the right half it has yet to take.
   */
  method SortOwners(a: array<Owner>, lo: nat, hi: nat)
    requires lo <= hi <= a.Length
    modifies a
    ensures a[lo..hi] == MergeSort(old(a[lo..hi]))
    ensures a[..lo] == old(a[..lo]) && a[hi..] == old(a[hi..])
    decreases hi - lo
  {
    hide OwnerBefore, Merge, MergeSort;
    ghost var all := a[..];
    MergeSortIs(a[lo..hi]);
    if hi - lo < 2 {
      return;
    }
    var half := (hi - lo) / 2;
    var mid := lo + half;
    Halves(all, lo, mid, hi);
    var left := CopyOut(a, lo, mid);
    Whole(left[..]);
    SortOwners(left, 0, half);
    Whole(left[..]);
    SortOwners(a, mid, hi);
    ghost var halved := a[..];
    Halves(halved, lo, mid, hi);
    MergeBack(a, left, lo, mid, hi);
  }

  lemma MergeSortIs(xs: seq<Owner>)
    ensures |xs| < 2 ==> MergeSort(xs) == xs
    ensures |xs| >= 2 ==> MergeSort(xs) == Merge(MergeSort(xs[..|xs| / 2]), MergeSort(xs[|xs| / 2..]))
  {
  }

  lemma Whole(xs: seq<Owner>)
    ensures xs[0..|xs|] == xs
  {
  }

  lemma Halves(all: seq<Owner>, lo: nat, mid: nat, hi: nat)
    requires lo <= mid <= hi <= |all|
    ensures all[lo..hi][..mid - lo] == all[lo..mid] && all[lo..hi][mid - lo..] == all[mid..hi] && all[..mid][..lo] == all[..lo]
  {
  }

  method CopyOut(a: array<Owner>, lo: nat, mid: nat) returns (left: array<Owner>)
    requires lo <= mid <= a.Length
    ensures fresh(left) && left[..] == a[lo..mid]
  {
    left := new Owner[mid - lo](k requires 0 <= k < mid - lo reads a => a[lo + k]);
  }

  // ---- distinct ----

  /** slices.Compact: of each run of equal owners, the first. */
  function Compact(xs: seq<Owner>): seq<Owner> {
    if |xs| < 2 then xs
    else if xs[0] == xs[1] then Compact(xs[1..])
    else [xs[0]] + Compact(xs[1..])
  }

  lemma {:induction false} CompactAscends(xs: seq<Owner>)
    requires InOrder(xs)
    ensures Ascending(OwnerBefore, Compact(xs))
    ensures forall x :: x in Compact(xs) <==> x in xs
    ensures xs != [] ==> Compact(xs) != [] && Compact(xs)[0] == xs[0]
  {
    OwnerOrder(xs);
    hide OwnerBefore;
    if |xs| >= 2 {
      CompactAscends(xs[1..]);
      assert xs == [xs[0]] + xs[1..];
      if xs[0] != xs[1] {
        var tail := Compact(xs[1..]);
        forall i | 0 <= i < |tail| ensures OwnerBefore(xs[0], tail[i]) {
          assert tail[0] == xs[1] && OwnerBefore(xs[0], xs[1]);
          assert i > 0 ==> OwnerBefore(tail[0], tail[i]);
        }
      }
    }
  }

  /** The owners in one order, each once. */
  function Distinct(xs: seq<Owner>): seq<Owner> {
    Compact(MergeSort(xs))
  }

  /** The same owners, in any order and any number of times, are one list: strictly ascending, and exactly them. */
  lemma DistinctIsCanonical(xs: seq<Owner>)
    ensures Ascending(OwnerBefore, Distinct(xs))
    ensures forall x :: x in Distinct(xs) <==> x in xs
    ensures forall ys | (forall x :: x in xs <==> x in ys) :: Distinct(xs) == Distinct(ys)
  {
    hide OwnerBefore, Compact, MergeSort;
    DistinctIs(xs);
    forall ys | (forall x :: x in xs <==> x in ys) ensures Distinct(xs) == Distinct(ys) {
      DistinctIs(ys);
      OwnerOrder(Distinct(xs));
      AscendingUnique(OwnerBefore, Distinct(xs), Distinct(ys));
    }
  }

  lemma DistinctIs(xs: seq<Owner>)
    ensures Ascending(OwnerBefore, Distinct(xs))
    ensures forall x :: x in Distinct(xs) <==> x in xs
  {
    hide OwnerBefore, Compact, MergeSort;
    MergeSortSorts(xs);
    CompactAscends(MergeSort(xs));
    forall x ensures x in MergeSort(xs) <==> x in xs {
      assert x in multiset(MergeSort(xs)) <==> x in multiset(xs);
    }
  }

  /** distinct, in place: sorts the owners, then closes up each run of equal ones; the first n are what it returns. */
  method DistinctInPlace(a: array<Owner>) returns (n: nat)
    modifies a
    ensures n <= a.Length && a[..n] == Distinct(old(a[..]))
  {
    hide OwnerBefore, MergeSort, Merge, Compact;
    ghost var was := a[..];
    assert a[0..a.Length] == was;
    SortOwners(a, 0, a.Length);
    ghost var sorted := a[..];
    assert sorted == a[0..a.Length] == MergeSort(was);
    n := CompactInPlace(a);
  }

  lemma {:induction false} CompactAppends(xs: seq<Owner>, x: Owner)
    ensures xs != [] && xs[|xs| - 1] == x ==> Compact(xs + [x]) == Compact(xs)
    ensures xs == [] || xs[|xs| - 1] != x ==> Compact(xs + [x]) == Compact(xs) + [x]
    ensures xs != [] ==> Compact(xs) != [] && Compact(xs)[|Compact(xs)| - 1] == xs[|xs| - 1]
  {
    if |xs| == 0 {
      assert [] + [x] == [x];
    } else if |xs| == 1 {
      assert (xs + [x])[1..] == [x];
    } else {
      assert (xs + [x])[1..] == xs[1..] + [x];
      CompactAppends(xs[1..], x);
    }
  }

  method CompactInPlace(a: array<Owner>) returns (n: nat)
    modifies a
    ensures n <= a.Length && a[..n] == Compact(old(a[..]))
  {
    hide OwnerBefore, Compact;
    ghost var was := a[..];
    n := 0;
    CompactNothing();
    for k := 0 to a.Length
      invariant n <= k && a[k..] == was[k..]
      invariant k > 0 ==> n > 0
      invariant a[..n] == Compact(was[..k])
    {
      CompactAppends(was[..k], was[k]);
      assert was[..k + 1] == was[..k] + [was[k]];
      assert a[k] == was[k] by {
        assert a[k..][0] == was[k..][0];
      }
      if k == 0 || a[n - 1] != a[k] {
        a[n] := a[k];
        n := n + 1;
      }
      assert a[k + 1..] == was[k + 1..];
    }
    assert was[..a.Length] == was;
  }

  lemma CompactNothing()
    ensures Compact([]) == []
  {
  }
}

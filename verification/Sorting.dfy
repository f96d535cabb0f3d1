/** Sorting with repeats dropped, as the engine's canonical lists are built: slices.SortFunc, then slices.Compact. */
module Sorting {

  /** A strict order. It need not be total: two values may render alike. */
  ghost predicate StrictOrder<T(!new)>(before: (T, T) -> bool) {
    && (forall a :: !before(a, a))
    && (forall a, b, c :: before(a, b) && before(b, c) ==> before(a, c))
  }

  /** Strictly ascending, so without repeats. */
  predicate Ascending<T>(before: (T, T) -> bool, xs: seq<T>) {
    forall i, j | 0 <= i < j < |xs| :: before(xs[i], xs[j])
  }

  /** Every two different values of xs are ordered one way or the other. */
  ghost predicate TotalOn<T(!new)>(before: (T, T) -> bool, xs: seq<T>) {
    forall a, b | a in xs && b in xs :: a == b || before(a, b) || before(b, a)
  }

  function Insert<T>(before: (T, T) -> bool, x: T, xs: seq<T>): seq<T> {
    if xs == [] then [x]
    else if before(x, xs[0]) then [x] + xs
    else if before(xs[0], x) then [xs[0]] + Insert(before, x, xs[1..])
    else xs
  }

  function SortUnique<T>(before: (T, T) -> bool, xs: seq<T>): seq<T> {
    if xs == [] then [] else Insert(before, xs[0], SortUnique(before, xs[1..]))
  }

  lemma {:induction false} InsertAscending<T(!new)>(before: (T, T) -> bool, x: T, xs: seq<T>)
    requires StrictOrder(before) && Ascending(before, xs)
    ensures Ascending(before, Insert(before, x, xs))
    ensures forall y :: y in Insert(before, x, xs) ==> y == x || y in xs
    ensures forall y :: y in xs ==> y in Insert(before, x, xs)
    ensures x in Insert(before, x, xs) || exists y :: y in xs && !before(x, y) && !before(y, x)
  {
    if xs == [] {
    } else if before(x, xs[0]) {
    } else if before(xs[0], x) {
      InsertAscending(before, x, xs[1..]);
      var tail := Insert(before, x, xs[1..]);
      assert xs == [xs[0]] + xs[1..];
      forall y | y in tail ensures before(xs[0], y) {
        if y != x {
          var j :| 0 <= j < |xs[1..]| && xs[1..][j] == y;
          assert xs[j + 1] == y;
        }
      }
    } else {
      assert xs[0] in xs;
    }
  }

  /** Sorting gives an ascending list of values of the input, and all of them where no two are tied. */
  lemma {:induction false} SortUniqueAscending<T(!new)>(before: (T, T) -> bool, xs: seq<T>)
    requires StrictOrder(before)
    ensures Ascending(before, SortUnique(before, xs))
    ensures forall y :: y in SortUnique(before, xs) ==> y in xs
    ensures TotalOn(before, xs) ==> forall y :: y in xs ==> y in SortUnique(before, xs)
  {
    if xs != [] {
      SortUniqueAscending(before, xs[1..]);
      InsertAscending(before, xs[0], SortUnique(before, xs[1..]));
      assert xs == [xs[0]] + xs[1..];
    }
  }

  /** An ascending list is determined by the values it holds. */
  lemma {:induction false} AscendingUnique<T(!new)>(before: (T, T) -> bool, xs: seq<T>, ys: seq<T>)
    requires StrictOrder(before)
    requires Ascending(before, xs) && Ascending(before, ys)
    requires forall v :: v in xs <==> v in ys
    ensures xs == ys
  {
    if |xs| > 0 { assert xs[0] in xs; }
    if |ys| > 0 { assert ys[0] in ys; }
    if |xs| > 0 && |ys| > 0 {
      assert xs[0] in ys && ys[0] in xs;
      assert xs[0] == ys[0];
      forall v ensures v in xs[1..] <==> v in ys[1..] {
        if v in xs[1..] {
          var i :| 0 <= i < |xs[1..]| && xs[1..][i] == v;
          assert before(xs[0], xs[i + 1]);
          assert v in ys;
        }
        if v in ys[1..] {
          var i :| 0 <= i < |ys[1..]| && ys[1..][i] == v;
          assert before(ys[0], ys[i + 1]);
          assert v in xs;
        }
      }
      AscendingUnique(before, xs[1..], ys[1..]);
    }
  }

  /** Sorting an ascending list changes nothing, and sorting depends only on which values are listed. */
  lemma SortUniqueCanonical<T(!new)>(before: (T, T) -> bool, xs: seq<T>, ys: seq<T>)
    requires StrictOrder(before) && TotalOn(before, xs)
    requires forall v :: v in xs <==> v in ys
    ensures SortUnique(before, xs) == SortUnique(before, ys)
    ensures Ascending(before, ys) ==> SortUnique(before, xs) == ys
  {
    SortUniqueAscending(before, xs);
    SortUniqueAscending(before, ys);
    AscendingUnique(before, SortUnique(before, xs), SortUnique(before, ys));
    if Ascending(before, ys) {
      AscendingUnique(before, SortUnique(before, xs), ys);
    }
  }
}

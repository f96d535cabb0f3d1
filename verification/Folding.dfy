/** joinAll folds a list as a balanced tree; the answer is the left fold's (internal/parse/aws/condition.go). */
module Folding {

  /** op keeps to the values good holds of, and associates on them. */
  ghost predicate AssociativeOn<T(!new)>(op: (T, T) -> T, good: T -> bool) {
    && (forall a, b | good(a) && good(b) :: good(op(a, b)))
    && (forall a, b, c | good(a) && good(b) && good(c) :: op(op(a, b), c) == op(a, op(b, c)))
  }

  function FoldLeft<T>(op: (T, T) -> T, items: seq<T>): T
    requires |items| >= 1
    decreases |items|
  {
    if |items| == 1 then items[0] else FoldLeft(op, [op(items[0], items[1])] + items[2..])
  }

  ghost function FoldRight<T>(op: (T, T) -> T, items: seq<T>): T
    requires |items| >= 1
  {
    if |items| == 1 then items[0] else op(items[0], FoldRight(op, items[1..]))
  }

  /** One level of the tree: neighbours joined, a last one without a neighbour kept. */
  function Paired<T>(op: (T, T) -> T, items: seq<T>): (merged: seq<T>)
    ensures |merged| == (|items| + 1) / 2
  {
    if |items| <= 1 then items else [op(items[0], items[1])] + Paired(op, items[2..])
  }

  lemma {:induction false} FoldRightGood<T(!new)>(op: (T, T) -> T, good: T -> bool, items: seq<T>)
    requires AssociativeOn(op, good) && |items| >= 1 && forall x | x in items :: good(x)
    ensures good(FoldRight(op, items))
  {
    if |items| > 1 {
      FoldRightGood(op, good, items[1..]);
    }
  }

  lemma {:induction false} LeftIsRight<T(!new)>(op: (T, T) -> T, good: T -> bool, items: seq<T>)
    requires AssociativeOn(op, good) && |items| >= 1 && forall x | x in items :: good(x)
    ensures FoldLeft(op, items) == FoldRight(op, items)
    decreases |items|
  {
    if |items| > 1 {
      var next := [op(items[0], items[1])] + items[2..];
      LeftIsRight(op, good, next);
      assert next[1..] == items[2..] && items[1..][1..] == items[2..];
      if |items| > 2 {
        FoldRightGood(op, good, items[2..]);
        assert FoldRight(op, next) == op(op(items[0], items[1]), FoldRight(op, items[2..]));
        assert FoldRight(op, items[1..]) == op(items[1], FoldRight(op, items[2..]));
      }
    }
  }

  lemma {:induction false} PairingKeepsTheFold<T(!new)>(op: (T, T) -> T, good: T -> bool, items: seq<T>)
    requires AssociativeOn(op, good) && |items| >= 1 && forall x | x in items :: good(x)
    ensures forall x | x in Paired(op, items) :: good(x)
    ensures FoldRight(op, Paired(op, items)) == FoldRight(op, items)
    decreases |items|
  {
    if |items| > 2 {
      PairingKeepsTheFold(op, good, items[2..]);
      FoldRightGood(op, good, items[2..]);
      assert Paired(op, items)[1..] == Paired(op, items[2..]);
      assert items[1..][1..] == items[2..];
      assert FoldRight(op, items[1..]) == op(items[1], FoldRight(op, items[2..]));
    } else if |items| == 2 {
      assert Paired(op, items) == [op(items[0], items[1])];
    }
  }

  /** The balanced fold is the left fold, whatever the number of items. */
  method JoinAll<T(!new)>(all: seq<T>, op: (T, T) -> T, ghost good: T -> bool) returns (joined: T)
    requires |all| >= 1 && AssociativeOn(op, good) && forall x | x in all :: good(x)
    ensures joined == FoldLeft(op, all) && good(joined)
  {
    hide AssociativeOn;
    var items := all;
    while |items| > 1
      invariant |items| >= 1 && (forall x | x in items :: good(x)) && FoldRight(op, items) == FoldRight(op, all)
      decreases |items|
    {
      var merged := [];
      var i := 0;
      while i < |items|
        invariant 0 <= i <= |items| + 1
        invariant i <= |items| ==> merged + Paired(op, items[i..]) == Paired(op, items)
        invariant i > |items| ==> merged == Paired(op, items)
      {
        if i + 1 < |items| {
          assert items[i..][2..] == items[i + 2..];
          assert (merged + [op(items[i], items[i + 1])]) + Paired(op, items[i + 2..])
              == merged + ([op(items[i], items[i + 1])] + Paired(op, items[i + 2..]));
          merged := merged + [op(items[i], items[i + 1])];
        } else {
          assert items[i..] == [items[i]];
          merged := merged + [items[i]];
        }
        i := i + 2;
      }
      PairingKeepsTheFold(op, good, items);
      assert merged + [] == merged;
      items := merged;
    }
    LeftIsRight(op, good, all);
    assert items[0] in items;
    joined := items[0];
  }
}

/** Strings as sequences of Unicode scalar values, in lexicographic order. */
module Strings {
  import opened Sorting

  datatype Option<+T> = None | Some(value: T)

  /** The order strings.Compare gives: UTF-8 keeps the order of the scalar values it encodes. */
  predicate Before(a: string, b: string) {
    b != "" && (a == "" || a[0] < b[0] || (a[0] == b[0] && Before(a[1..], b[1..])))
  }

  lemma {:induction false} BeforeTransitive(a: string, b: string, c: string)
    requires Before(a, b) && Before(b, c)
    ensures Before(a, c)
  {
    if a != "" && a[0] == b[0] == c[0] {
      BeforeTransitive(a[1..], b[1..], c[1..]);
    }
  }

  lemma {:induction false} BeforeIrreflexive(a: string)
    ensures !Before(a, a)
  {
    if a != "" {
      BeforeIrreflexive(a[1..]);
    }
  }

  lemma {:induction false} BeforeTotal(a: string, b: string)
    ensures a == b || Before(a, b) || Before(b, a)
  {
    if a != "" && b != "" && a[0] == b[0] {
      BeforeTotal(a[1..], b[1..]);
      assert a == [a[0]] + a[1..] && b == [b[0]] + b[1..];
    }
  }

  lemma BeforeOrder(xs: seq<string>)
    ensures StrictOrder(Before) && TotalOn(Before, xs)
  {
    forall a ensures !Before(a, a) { BeforeIrreflexive(a); }
    forall a, b, c | Before(a, b) && Before(b, c) ensures Before(a, c) { BeforeTransitive(a, b, c); }
    forall a, b ensures a == b || Before(a, b) || Before(b, a) { BeforeTotal(a, b); }
  }

  /** strings.Join. */
  function Join(parts: seq<string>, sep: string): string {
    if |parts| == 0 then ""
    else if |parts| == 1 then parts[0]
    else parts[0] + sep + Join(parts[1..], sep)
  }

  lemma Reassociated(a: string, b: string, c: string)
    ensures (a + b) + c == a + (b + c)
  {
  }

  /** Parts joined, and what follows them: the first part, and behind its separator the others. */
  lemma JoinOpens(parts: seq<string>, sep: string, tail: string)
    requires parts != []
    ensures Join(parts, sep) + tail == parts[0] + if |parts| == 1 then tail else sep + (Join(parts[1..], sep) + tail)
  {
    if |parts| > 1 {
      var more := Join(parts[1..], sep);
      Reassociated(parts[0], sep, more);
      Reassociated(parts[0], sep + more, tail);
      Reassociated(sep, more, tail);
    }
  }

  lemma {:induction false} JoinAppend(parts: seq<string>, sep: string, part: string)
    ensures Join(parts + [part], sep) == Join(parts, sep) + (if parts == [] then "" else sep) + part
  {
    if |parts| > 1 {
      assert (parts + [part])[1..] == parts[1..] + [part];
      JoinAppend(parts[1..], sep, part);
      Reassociated(parts[0] + sep, Join(parts[1..], sep), sep);
      Reassociated(parts[0] + sep, Join(parts[1..], sep) + sep, part);
    } else if |parts| == 1 {
      assert (parts + [part])[1..] == [part];
    }
  }

  lemma StartsWithSelf(prefix: string, rest: string)
    ensures prefix <= prefix + rest && (prefix + rest)[|prefix|..] == rest
  {
  }

  lemma DiffersAt(text: string, prefix: string, i: nat := 0)
    requires i < |text| && i < |prefix| && text[i] != prefix[i]
    ensures !(prefix <= text)
  {
  }

  /** Of two beginnings of one text, one begins with the other. */
  lemma BeginningsCompare(a: string, b: string, text: string)
    ensures a <= text && b <= text ==> a <= b || b <= a
  {
    if a <= text && b <= text {
      assert a == text[..|a|] && b == text[..|b|];
      assert |a| <= |b| ==> b[..|a|] == a;
      assert |b| <= |a| ==> a[..|b|] == b;
    }
  }

  /** Where the first colon stands, or the text's length. */
  function Colon(text: string): (i: nat)
    ensures i <= |text| && ':' !in text[..i] && (i < |text| ==> text[i] == ':')
  {
    if text == "" || text[0] == ':' then 0 else 1 + Colon(text[1..])
  }

  lemma {:induction false} ColonStays(short: string, long: string)
    requires short <= long && Colon(short) < |short|
    ensures Colon(long) == Colon(short)
  {
    if short[0] != ':' {
      ColonStays(short[1..], long[1..]);
    }
  }
}

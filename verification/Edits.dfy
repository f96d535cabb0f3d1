/** Cutting one element out of a policy's bytes (internal/parse/aws/edit.go). */
module Edits {
  import opened Strings
  import opened Quoting
  import opened Layouts
  import Encoding

  // ---- Paths ----

  /** A path to an element: the index of a child at each level, the last the element's own. */
  predicate IsPath(v: Value, path: seq<nat>)
    decreases |path|
  {
    path != [] && v.Container? && path[0] < |v.elements|
    && (|path| == 1 || IsPath(v.elements[path[0]].value, path[1..]))
  }

  /** The tree without the element a path leads to. */
  function Without(j: Json, path: seq<nat>): Json
    decreases |path|
  {
    if path == [] || j.Leaf? || path[0] >= |j.children| then j
    else if |path| == 1 then j.(children := j.children[..path[0]] + j.children[path[0] + 1..])
    else
      var child := j.children[path[0]];
      j.(children := j.children[path[0] := (child.0, Without(child.1, path[1..]))])
  }

  // ---- Cutting an element ----

  /** The bytes that go with element i of c: the element and the separator beside it, or all between the delimiters. */
  function CutFrom(c: Value, i: nat): int
    requires c.Container? && i < |c.elements|
  {
    if |c.elements| == 1 then c.start + 1
    else if i < |c.elements| - 1 then c.elements[i].start
    else c.elements[i - 1].value.end
  }

  function CutTo(c: Value, i: nat): int
    requires c.Container? && i < |c.elements|
  {
    if |c.elements| == 1 then c.end - 1
    else if i < |c.elements| - 1 then c.elements[i + 1].start
    else c.elements[i].value.end
  }

  /** raw without what stands from from to to. */
  function Cut(raw: string, from: int, to: int): string
    requires 0 <= from <= to <= |raw|
  {
    raw[..from] + raw[to..]
  }

  /** Where each element of a container starts and ends. */
  method Elements(v: Value) returns (starts: seq<int>, ends: seq<int>)
    requires v.Container?
    ensures |starts| == |ends| == |v.elements|
    ensures forall i | 0 <= i < |v.elements| :: starts[i] == v.elements[i].start && ends[i] == v.elements[i].value.end
  {
    starts, ends := [], [];
    for n := 0 to |v.elements|
      invariant |starts| == |ends| == n
      invariant forall i | 0 <= i < n :: starts[i] == v.elements[i].start && ends[i] == v.elements[i].value.end
    {
      starts, ends := starts + [v.elements[n].start], ends + [v.elements[n].value.end];
    }
  }

  method CutElement(raw: string, c: Value, i: nat) returns (out: string)
    requires c.Container? && Lays(raw, c) && i < |c.elements|
    ensures c.start < CutFrom(c, i) <= CutTo(c, i) < c.end && out == Cut(raw, CutFrom(c, i), CutTo(c, i))
  {
    CutStaysInside(raw, c, i);
    var starts, ends := Elements(c);
    var from, to := starts[i], ends[i];
    if |starts| == 1 {
      from, to := c.start + 1, c.end - 1;
    } else if i < |starts| - 1 {
      to := starts[i + 1];
    } else {
      from := ends[i - 1];
    }
    out := raw[..from] + raw[to..];
  }

  lemma CutStaysInside(raw: string, c: Value, i: nat)
    requires c.Container? && Lays(raw, c) && i < |c.elements|
    ensures 0 <= c.start < CutFrom(c, i) <= CutTo(c, i) < c.end <= |raw|
    ensures forall j | 0 <= j < i :: c.elements[j].value.end <= CutFrom(c, i)
    ensures forall j | i < j < |c.elements| :: CutTo(c, i) <= c.elements[j].start
  {
    Laid(raw, c);
    ElementsInside(raw, c);
    forall j | 0 <= j < i ensures c.elements[j].value.end <= CutFrom(c, i) {
      assert j < i - 1 ==> c.elements[j].value.end <= c.elements[i - 1].start;
    }
    forall j | i < j < |c.elements| ensures CutTo(c, i) <= c.elements[j].start {
      assert i + 1 < j ==> c.elements[i + 1].value.end <= c.elements[j].start;
    }
  }

  // ---- The tree after the cut ----

  /** The container a path leads into. */
  function Holder(v: Value, path: seq<nat>): (c: Value)
    requires IsPath(v, path)
    ensures c.Container? && path[|path| - 1] < |c.elements|
    decreases |path|
  {
    if |path| == 1 then v else Holder(v.elements[path[0]].value, path[1..])
  }

  /** Where the bytes that go with the element a path leads to start. */
  function From(v: Value, path: seq<nat>): int
    requires IsPath(v, path)
  {
    CutFrom(Holder(v, path), path[|path| - 1])
  }

  /** Where they end. */
  function To(v: Value, path: seq<nat>): int
    requires IsPath(v, path)
  {
    CutTo(Holder(v, path), path[|path| - 1])
  }

  /** The tree without the element a path leads to, what stands behind the cut moved up. */
  function Shrunk(v: Value, path: seq<nat>): Value
    requires IsPath(v, path)
    decreases |path|
  {
    var k, d := path[0], To(v, path) - From(v, path);
    var behind := MovedElements(v.elements[k + 1..], -d);
    if |path| == 1 then Container(v.start, v.end - d, v.isObject, v.elements[..k] + behind)
    else
      var e := v.elements[k];
      Container(v.start, v.end - d, v.isObject, v.elements[..k] + [Element(e.start, e.name, Shrunk(e.value, path[1..]))] + behind)
  }

  lemma {:induction false} MovedByNothing(v: Value)
    ensures Moved(v, 0) == v
    decreases v, 1
  {
    if v.Container? {
      ElementsMovedByNothing(v.elements);
    }
  }

  lemma {:induction false} ElementsMovedByNothing(elements: seq<Element>)
    ensures MovedElements(elements, 0) == elements
    decreases elements, 0
  {
    if elements != [] {
      MovedByNothing(elements[0].value);
      ElementsMovedByNothing(elements[1..]);
    }
  }

  lemma SameBesideCut(raw: string, from: int, to: int, a: int, b: int)
    requires 0 <= from <= to <= |raw| && 0 <= a <= b <= |raw|
    ensures b <= from ==> Same(raw, Cut(raw, from, to), a, b, 0)
    ensures to <= a ==> Same(raw, Cut(raw, from, to), a, b, from - to)
  {
    var other := Cut(raw, from, to);
    if b <= from {
      assert other[a..b] == raw[a..b];
    }
    if to <= a {
      forall k | a <= k < b ensures other[k + (from - to)] == raw[k] {
        assert other[k + (from - to)] == raw[to..][k - to];
      }
      assert other[a + (from - to)..b + (from - to)] == raw[a..b];
    }
  }

  /** An element before the cut stays; one behind it moves up. */
  lemma ElementBesideCut(raw: string, from: int, to: int, isObject: bool, e: Element)
    requires 0 <= from <= to <= |raw| && LaysElement(raw, isObject, e)
    ensures e.value.end <= from ==> LaysElement(Cut(raw, from, to), isObject, e)
    ensures to <= e.start ==> LaysElement(Cut(raw, from, to), isObject, MovedElement(e, from - to))
  {
    StartsBeforeValue(raw, isObject, e);
    hide LaysElement, Same, Cut;
    SameBesideCut(raw, from, to, e.start, e.value.end);
    if e.value.end <= from {
      ElementLaysWhereverItStands(raw, Cut(raw, from, to), isObject, e, 0);
      MovedByNothing(e.value);
    }
    if to <= e.start {
      ElementLaysWhereverItStands(raw, Cut(raw, from, to), isObject, e, from - to);
    }
  }

  /** The gap between two elements that are neighbours again once what stood between them is cut, or that always were. */
  lemma GapBesideCut(raw: string, from: int, to: int, a: int, b: int, mark: char)
    requires 0 <= from <= to <= |raw| && 0 <= a <= b <= |raw| && Gap(Part(raw, a, b), mark)
    ensures b <= from ==> Gap(Part(Cut(raw, from, to), a, b), mark)
    ensures to <= a ==> Gap(Part(Cut(raw, from, to), a - (to - from), b - (to - from)), mark)
  {
    PartBesideCut(raw, from, to, a, b);
  }

  lemma PartBesideCut(raw: string, from: int, to: int, a: int, b: int)
    requires 0 <= from <= to <= |raw| && 0 <= a <= b <= |raw|
    ensures b <= from ==> Part(Cut(raw, from, to), a, b) == Part(raw, a, b)
    ensures to <= a ==> Part(Cut(raw, from, to), a - (to - from), b - (to - from)) == Part(raw, a, b)
  {
    SameBesideCut(raw, from, to, a, b);
  }

  lemma DelimitersStay(raw: string, from: int, to: int, c: Value)
    requires c.Container? && 0 <= c.start < from <= to < c.end <= |raw|
    ensures var other := Cut(raw, from, to);
            other[c.start] == raw[c.start] && c.end - (to - from) <= |other| && other[c.end - (to - from) - 1] == raw[c.end - 1]
  {
  }

  // ---- One level ----

  /** Without element i, a container is laid out as it was. */
  lemma OneCutLays(raw: string, c: Value, i: nat)
    requires c.Container? && Lays(raw, c) && i < |c.elements|
    ensures var from, to := CutFrom(c, i), CutTo(c, i);
            0 <= c.start < from <= to < c.end <= |raw| && Lays(Cut(raw, from, to), Shrunk(c, [i]))
  {
    hide Edge, Between, LaysElement, Cut, CutFrom, CutTo, Shrunk, Lays;
    CutStaysInside(raw, c, i);
    Laid(raw, c);
    DelimitersStay(raw, CutFrom(c, i), CutTo(c, i), c);
    OneCutElements(raw, c, i);
    OneCutEdge(raw, c, i);
    OneCutBetween(raw, c, i);
    OneCutShape(c, i);
    Assembled(Cut(raw, CutFrom(c, i), CutTo(c, i)), Shrunk(c, [i]));
  }

  /** A container is laid out when its delimiters, its elements and what stands between them are. */
  lemma Assembled(raw: string, c: Value)
    requires c.Container? && 0 <= c.start < c.end - 1 < |raw|
    requires raw[c.start] == (if c.isObject then '{' else '[') && raw[c.end - 1] == (if c.isObject then '}' else ']')
    requires Edge(raw, c) && Between(raw, c.elements) && forall e | e in c.elements :: LaysElement(raw, c.isObject, e)
    ensures Lays(raw, c)
  {
  }

  lemma OneCutShape(c: Value, i: nat)
    requires c.Container? && i < |c.elements|
    ensures var d, s := CutTo(c, i) - CutFrom(c, i), Shrunk(c, [i]);
            s == Container(c.start, c.end - d, c.isObject, c.elements[..i] + MovedElements(c.elements[i + 1..], -d))
            && |s.elements| == |c.elements| - 1
            && forall j | 0 <= j < |s.elements| ::
                 s.elements[j] == if j < i then c.elements[j] else MovedElement(c.elements[j + 1], -d)
  {
    hide MovedElement, CutFrom, CutTo, Shrunk;
    OneCutParts(c, i);
    var s, d := Shrunk(c, [i]), CutTo(c, i) - CutFrom(c, i);
    forall j | 0 <= j < |s.elements| ensures s.elements[j] == if j < i then c.elements[j] else MovedElement(c.elements[j + 1], -d) {
      MovedAt(c.elements, i + 1, j - i, -d);
    }
  }

  lemma OneCutParts(c: Value, i: nat)
    requires c.Container? && i < |c.elements|
    ensures var d := CutTo(c, i) - CutFrom(c, i);
            Shrunk(c, [i]) == Container(c.start, c.end - d, c.isObject, c.elements[..i] + MovedElements(c.elements[i + 1..], -d))
  {
    hide MovedElements, CutFrom, CutTo;
  }

  lemma MovedAt(elements: seq<Element>, from: nat, k: int, d: int)
    requires from <= |elements|
    ensures 0 <= k < |elements| - from ==> MovedElements(elements[from..], d)[k] == MovedElement(elements[from + k], d)
  {
    hide MovedElement;
  }

  lemma OneCutElements(raw: string, c: Value, i: nat)
    requires c.Container? && Lays(raw, c) && i < |c.elements|
    ensures var from, to := CutFrom(c, i), CutTo(c, i);
            0 <= from <= to <= |raw| && forall e | e in Shrunk(c, [i]).elements :: LaysElement(Cut(raw, from, to), c.isObject, e)
  {
    hide LaysElement, Lays, Cut, CutFrom, CutTo, Shrunk, MovedElement, MovedElements;
    CutStaysInside(raw, c, i);
    ElementsInside(raw, c);
    OneCutShape(c, i);
    var from, to, s := CutFrom(c, i), CutTo(c, i), Shrunk(c, [i]);
    forall e | e in s.elements ensures LaysElement(Cut(raw, from, to), c.isObject, e) {
      var j :| 0 <= j < |s.elements| && s.elements[j] == e;
      ElementBesideCut(raw, from, to, c.isObject, c.elements[if j < i then j else j + 1]);
    }
  }

  /** Where element j of the container without element i stands. */
  lemma OneCutBounds(c: Value, i: nat, j: nat)
    requires c.Container? && i < |c.elements| && j < |c.elements| - 1
    ensures var d, s := CutTo(c, i) - CutFrom(c, i), Shrunk(c, [i]).elements;
            |s| == |c.elements| - 1
            && s[j].start == (if j < i then c.elements[j].start else c.elements[j + 1].start - d)
            && s[j].value.end == (if j < i then c.elements[j].value.end else c.elements[j + 1].value.end - d)
  {
    hide CutTo, CutFrom, Shrunk, MovedElement, MovedElements, Plain;
    OneCutShape(c, i);
    MovedBy(c.elements[j + 1], CutFrom(c, i) - CutTo(c, i));
  }

  /** Element j stands inside its container, before the next, with a comma between them. */
  lemma ElementInside(raw: string, c: Value, j: nat)
    requires c.Container? && Lays(raw, c) && j < |c.elements|
    ensures 0 <= c.start < c.elements[j].start < c.elements[j].value.end < c.end <= |raw|
    ensures j + 1 < |c.elements| ==>
              c.elements[j].value.end <= c.elements[j + 1].start
              && Gap(Part(raw, c.elements[j].value.end, c.elements[j + 1].start), ',')
  {
    hide Gap, Part;
    ElementsInside(raw, c);
    Laid(raw, c);
  }

  lemma OneCutFront(raw: string, c: Value, i: nat)
    requires c.Container? && Lays(raw, c) && i < |c.elements| && |c.elements| > 1
    ensures var from, to, s := CutFrom(c, i), CutTo(c, i), Shrunk(c, [i]);
            0 <= from <= to <= |raw| && s.Container? && s.elements != [] && s.start + 1 <= s.elements[0].start
            && Blank(Part(Cut(raw, from, to), s.start + 1, s.elements[0].start))
  {
    hide Cut, Part, Blank, Lays, Between, LaysElement, MovedElements, MovedElement, CutFrom, CutTo;
    OneCutFrontStart(c, i);
    CutStaysInside(raw, c, i);
    Laid(raw, c);
    ElementInside(raw, c, 0);
    FrontBeforeCut(raw, c, i);
    PartBesideCut(raw, CutFrom(c, i), CutTo(c, i), c.start + 1, c.elements[0].start);
  }

  lemma OneCutFrontStart(c: Value, i: nat)
    requires c.Container? && i < |c.elements| && |c.elements| > 1
    ensures Shrunk(c, [i]).Container? && Shrunk(c, [i]).start == c.start && |Shrunk(c, [i]).elements| == |c.elements| - 1
    ensures Shrunk(c, [i]).elements[0].start == c.elements[0].start
  {
    OneCutBounds(c, i, 0);
    hide Shrunk;
    OneCutShape(c, i);
  }

  lemma FrontBeforeCut(raw: string, c: Value, i: nat)
    requires c.Container? && Lays(raw, c) && i < |c.elements| && |c.elements| > 1
    ensures c.elements[0].start <= CutFrom(c, i)
  {
    hide Lays, LaysElement;
    ElementsInside(raw, c);
    assert i > 0 ==> c.elements[0].value.end <= c.elements[i].start;
    assert i > 1 ==> c.elements[0].value.end <= c.elements[i - 1].start;
  }

  lemma OneCutBack(raw: string, c: Value, i: nat)
    requires c.Container? && Lays(raw, c) && i < |c.elements| && |c.elements| > 1
    ensures var from, to, s := CutFrom(c, i), CutTo(c, i), Shrunk(c, [i]);
            0 <= from <= to <= |raw| && s.Container? && |s.elements| == |c.elements| - 1
            && s.elements[|s.elements| - 1].value.end <= s.end - 1
            && Blank(Part(Cut(raw, from, to), s.elements[|s.elements| - 1].value.end, s.end - 1))
  {
    hide Cut, Part, Blank, Lays, Between, LaysElement, MovedElements, MovedElement;
    CutStaysInside(raw, c, i);
    Laid(raw, c);
    var n := |c.elements|;
    OneCutBounds(c, i, n - 2);
    ElementInside(raw, c, n - 1);
    BackBesideCut(raw, c, i);
    hide CutFrom, CutTo, Edge;
    OneCutShape(c, i);
  }

  lemma BackBesideCut(raw: string, c: Value, i: nat)
    requires c.Container? && Lays(raw, c) && i < |c.elements| && |c.elements| > 1
    ensures var from, to, last, d := CutFrom(c, i), CutTo(c, i), c.elements[|c.elements| - 1].value.end, CutTo(c, i) - CutFrom(c, i);
            0 <= from <= to <= |raw|
            && Blank(Part(Cut(raw, from, to), (if i < |c.elements| - 1 then last - d else from), c.end - 1 - d))
  {
    hide Cut, Part, Blank;
    CutStaysInside(raw, c, i);
    Laid(raw, c);
    ElementInside(raw, c, |c.elements| - 1);
    PartBesideCut(raw, CutFrom(c, i), CutTo(c, i), c.elements[|c.elements| - 1].value.end, c.end - 1);
  }

  lemma OneCutEdge(raw: string, c: Value, i: nat)
    requires c.Container? && Lays(raw, c) && i < |c.elements|
    ensures var from, to := CutFrom(c, i), CutTo(c, i);
            0 <= from <= to <= |raw| && Edge(Cut(raw, from, to), Shrunk(c, [i]))
  {
    hide Cut, Part, Blank, Lays, Between;
    CutStaysInside(raw, c, i);
    if |c.elements| == 1 {
      EmptyPartIsBlank(Cut(raw, CutFrom(c, i), CutTo(c, i)), c.start + 1);
    } else {
      hide Shrunk, CutFrom, CutTo;
      OneCutFront(raw, c, i);
      OneCutBack(raw, c, i);
    }
  }

  lemma EmptyPartIsBlank(raw: string, at: int)
    ensures Blank(Part(raw, at, at))
  {
  }

  lemma OneCutComma(raw: string, c: Value, i: nat, j: nat)
    requires c.Container? && Lays(raw, c) && i < |c.elements| && j + 2 < |c.elements|
    ensures var from, to, s := CutFrom(c, i), CutTo(c, i), Shrunk(c, [i]).elements;
            0 <= from <= to <= |raw| && |s| == |c.elements| - 1 && s[j].value.end <= s[j + 1].start
            && Gap(Part(Cut(raw, from, to), s[j].value.end, s[j + 1].start), ',')
  {
    hide Cut, Part, Gap, Lays;
    CutStaysInside(raw, c, i);
    OneCutBounds(c, i, j);
    OneCutBounds(c, i, j + 1);
    var p := if j < i then j else j + 1;
    ElementInside(raw, c, p);
    ElementInside(raw, c, p + 1);
    GapBesideCut(raw, CutFrom(c, i), CutTo(c, i), c.elements[p].value.end, c.elements[p + 1].start, ',');
  }

  lemma OneCutBetween(raw: string, c: Value, i: nat)
    requires c.Container? && Lays(raw, c) && i < |c.elements|
    ensures var from, to := CutFrom(c, i), CutTo(c, i);
            0 <= from <= to <= |raw| && Between(Cut(raw, from, to), Shrunk(c, [i]).elements)
  {
    CutStaysInside(raw, c, i);
    OneCutShape(c, i);
    hide Cut, Part, Gap, Lays, Shrunk, CutFrom, CutTo, MovedElement;
    var from, to, s := CutFrom(c, i), CutTo(c, i), Shrunk(c, [i]).elements;
    forall j | 0 <= j < |s| - 1
      ensures s[j].value.end <= s[j + 1].start && Gap(Part(Cut(raw, from, to), s[j].value.end, s[j + 1].start), ',')
    {
      OneCutComma(raw, c, i, j);
    }
  }

  // ---- Deeper ----

  /** The cut is inside the value, and inside each value on the way down. */
  lemma {:induction false} CutInside(raw: string, v: Value, path: seq<nat>)
    requires IsPath(v, path) && Lays(raw, v)
    ensures 0 <= v.start < From(v, path) <= To(v, path) < v.end <= |raw|
    decreases |path|
  {
    if |path| == 1 {
      CutStaysInside(raw, v, path[0]);
    } else {
      var e := v.elements[path[0]];
      ElementsInside(raw, v);
      Deeper(raw, v, path);
      CutInside(raw, e.value, path[1..]);
    }
  }

  /** One step down a path: the child is laid out, and the cut is the same one. */
  lemma Deeper(raw: string, v: Value, path: seq<nat>)
    requires IsPath(v, path) && Lays(raw, v) && |path| > 1
    ensures var e := v.elements[path[0]];
            LaysElement(raw, v.isObject, e) && Lays(raw, e.value) && v.start < e.start <= e.value.start && e.value.end < v.end
            && IsPath(e.value, path[1..]) && From(e.value, path[1..]) == From(v, path) && To(e.value, path[1..]) == To(v, path)
  {
    hide CutFrom, CutTo;
    ElementsInside(raw, v);
    assert v.elements[path[0]] in v.elements;
    assert path[1..][|path[1..]| - 1] == path[|path| - 1];
  }

  lemma DeepShape(v: Value, path: seq<nat>)
    requires IsPath(v, path) && |path| > 1
    ensures var s, k, d := Shrunk(v, path), path[0], To(v, path) - From(v, path);
            s.Container? && s.start == v.start && s.end == v.end - d && s.isObject == v.isObject && |s.elements| == |v.elements|
            && forall j | 0 <= j < |s.elements| ::
                 s.elements[j] == if j < k then v.elements[j]
                                  else if j == k then Element(v.elements[k].start, v.elements[k].name, Shrunk(v.elements[k].value, path[1..]))
                                  else MovedElement(v.elements[j], -d)
  {
    hide From, To, MovedElement, Holder;
  }

  lemma ShrunkEnds(v: Value, path: seq<nat>)
    requires IsPath(v, path)
    ensures Shrunk(v, path).start == v.start && Shrunk(v, path).end == v.end - (To(v, path) - From(v, path))
    ensures Shrunk(v, path).Container? && Shrunk(v, path).isObject == v.isObject
  {
  }

  /** Where element j stands once something inside element path[0] is cut. */
  lemma DeepBounds(raw: string, v: Value, path: seq<nat>, j: nat)
    requires IsPath(v, path) && Lays(raw, v) && |path| > 1 && j < |v.elements|
    ensures var s, d := Shrunk(v, path), To(v, path) - From(v, path);
            s.Container? && |s.elements| == |v.elements|
            && s.elements[j].start == v.elements[j].start - (if j > path[0] then d else 0)
            && s.elements[j].value.end == v.elements[j].value.end - (if j >= path[0] then d else 0)
            && (j == path[0] ==> s.elements[j].value.start == v.elements[j].value.start)
  {
    hide From, To, Shrunk, Lays, LaysElement, Holder, MovedElement;
    DeepShape(v, path);
    if j == path[0] {
      Deeper(raw, v, path);
      ShrunkEnds(v.elements[j].value, path[1..]);
    } else if j > path[0] {
      MovedBy(v.elements[j], From(v, path) - To(v, path));
    }
  }

  lemma MovedBy(e: Element, d: int)
    ensures MovedElement(e, d).start == e.start + d && MovedElement(e, d).name == e.name
    ensures Plain(MovedElement(e, d).value) == Plain(e.value) && MovedElement(e, d).value.end == e.value.end + d
  {
    MovedIsPlain(e.value, d);
  }

  /** The elements before the one on the path end before the cut; those after it start after. */
  lemma DeepSides(raw: string, v: Value, path: seq<nat>, j: nat)
    requires IsPath(v, path) && Lays(raw, v) && |path| > 1 && j < |v.elements|
    ensures j < path[0] ==> v.elements[j].value.end <= From(v, path)
    ensures j == path[0] ==> v.elements[j].value.start < From(v, path) <= To(v, path) < v.elements[j].value.end
    ensures j > path[0] ==> To(v, path) <= v.elements[j].start
  {
    Deeper(raw, v, path);
    CutInside(raw, v.elements[path[0]].value, path[1..]);
    hide From, To, Lays, LaysElement, Holder;
    ElementsInside(raw, v);
  }

  lemma DeepEdge(raw: string, v: Value, path: seq<nat>)
    requires IsPath(v, path) && Lays(raw, v) && |path| > 1
    ensures 0 <= From(v, path) <= To(v, path) <= |raw| && Shrunk(v, path).Container?
            && Edge(Cut(raw, From(v, path), To(v, path)), Shrunk(v, path))
  {
    hide Cut, Part, Blank, Lays, Between, From, To, Shrunk, LaysElement, MovedElement;
    var n, from, to := |v.elements|, From(v, path), To(v, path);
    CutInside(raw, v, path);
    Laid(raw, v);
    ShrunkEnds(v, path);
    DeepBounds(raw, v, path, 0);
    DeepBounds(raw, v, path, n - 1);
    ElementInside(raw, v, 0);
    ElementInside(raw, v, n - 1);
    DeepFront(raw, v, path);
    PartBesideCut(raw, from, to, v.start + 1, v.elements[0].start);
    PartBesideCut(raw, from, to, v.elements[n - 1].value.end, v.end - 1);
  }

  lemma DeepFront(raw: string, v: Value, path: seq<nat>)
    requires IsPath(v, path) && Lays(raw, v) && |path| > 1
    ensures v.elements[0].start <= From(v, path) && To(v, path) <= v.elements[|v.elements| - 1].value.end
  {
    hide From, To, Holder, LaysElement, Lays;
    DeepSides(raw, v, path, path[0]);
    ElementsInside(raw, v);
    assert path[0] > 0 ==> v.elements[0].value.end <= v.elements[path[0]].start;
    assert path[0] < |v.elements| - 1 ==> v.elements[path[0]].value.end <= v.elements[|v.elements| - 1].start;
  }

  lemma DeepComma(raw: string, v: Value, path: seq<nat>, j: nat)
    requires IsPath(v, path) && Lays(raw, v) && |path| > 1 && j + 1 < |v.elements|
    ensures var from, to, s := From(v, path), To(v, path), Shrunk(v, path);
            0 <= from <= to <= |raw| && s.Container? && |s.elements| == |v.elements|
            && s.elements[j].value.end <= s.elements[j + 1].start
            && Gap(Part(Cut(raw, from, to), s.elements[j].value.end, s.elements[j + 1].start), ',')
  {
    hide Cut, Part, Gap, Lays, From, To, Shrunk, LaysElement, Holder;
    CutInside(raw, v, path);
    DeepBounds(raw, v, path, j);
    DeepBounds(raw, v, path, j + 1);
    DeepSides(raw, v, path, j);
    DeepSides(raw, v, path, j + 1);
    ElementInside(raw, v, j);
    ElementInside(raw, v, j + 1);
    DeepStart(raw, v, path, j + 1);
    GapBesideCut(raw, From(v, path), To(v, path), v.elements[j].value.end, v.elements[j + 1].start, ',');
  }

  lemma DeepStart(raw: string, v: Value, path: seq<nat>, j: nat)
    requires IsPath(v, path) && Lays(raw, v) && |path| > 1 && j < |v.elements|
    ensures j <= path[0] ==> v.elements[j].start <= From(v, path)
  {
    hide From, To, Holder, LaysElement, Lays;
    DeepSides(raw, v, path, j);
    ElementsInside(raw, v);
  }

  lemma DeepBetween(raw: string, v: Value, path: seq<nat>)
    requires IsPath(v, path) && Lays(raw, v) && |path| > 1
    ensures var from, to := From(v, path), To(v, path);
            0 <= from <= to <= |raw| && Shrunk(v, path).Container? && Between(Cut(raw, from, to), Shrunk(v, path).elements)
  {
    CutInside(raw, v, path);
    DeepShape(v, path);
    hide Cut, Part, Gap, Lays, Shrunk, From, To, MovedElement;
    var from, to, s := From(v, path), To(v, path), Shrunk(v, path).elements;
    forall j | 0 <= j < |s| - 1
      ensures s[j].value.end <= s[j + 1].start && Gap(Part(Cut(raw, from, to), s[j].value.end, s[j + 1].start), ',')
    {
      DeepComma(raw, v, path, j);
    }
  }

  /** The name of the element on the path, and the colon behind it, stand before the cut. */
  lemma NameStays(raw: string, e: Element, from: int, to: int, w: Value)
    requires Names(raw, e) && 0 <= e.value.start <= from <= to <= |raw| && w.start == e.value.start
    ensures Names(Cut(raw, from, to), Element(e.start, e.name, w))
  {
    hide Encoding.ReadJson, Gap;
    var k :| 0 <= e.start < k <= e.value.start <= |raw|
      && Encoding.ReadJson(raw[e.start..k]) == Found(e.name, "") && Gap(raw[k..e.value.start], ':');
    var other := Cut(raw, from, to);
    assert other[e.start..k] == raw[e.start..k] && other[k..w.start] == raw[k..e.value.start];
  }

  lemma DeepElement(raw: string, v: Value, path: seq<nat>, j: nat)
    requires IsPath(v, path) && Lays(raw, v) && |path| > 1 && j < |v.elements|
    requires 0 <= From(v, path) <= To(v, path) <= |raw|
    requires Lays(Cut(raw, From(v, path), To(v, path)), Shrunk(v.elements[path[0]].value, path[1..]))
    ensures Shrunk(v, path).Container? && |Shrunk(v, path).elements| == |v.elements|
    ensures LaysElement(Cut(raw, From(v, path), To(v, path)), v.isObject, Shrunk(v, path).elements[j])
  {
    hide From, To, Lays, LaysElement, Holder, Shrunk, Cut, MovedElement;
    DeepShape(v, path);
    ElementLaid(raw, v, j);
    DeepSides(raw, v, path, j);
    if j == path[0] {
      DeepElementOnPath(raw, v, path);
    } else {
      ElementBesideCut(raw, From(v, path), To(v, path), v.isObject, v.elements[j]);
    }
  }

  lemma ElementLaid(raw: string, v: Value, j: nat)
    requires v.Container? && Lays(raw, v) && j < |v.elements|
    ensures LaysElement(raw, v.isObject, v.elements[j])
    ensures 0 <= v.elements[j].start <= v.elements[j].value.start
  {
    hide LaysElement;
    ElementsInside(raw, v);
  }

  lemma DeepElementOnPath(raw: string, v: Value, path: seq<nat>)
    requires IsPath(v, path) && Lays(raw, v) && |path| > 1
    requires 0 <= From(v, path) <= To(v, path) <= |raw|
    requires Lays(Cut(raw, From(v, path), To(v, path)), Shrunk(v.elements[path[0]].value, path[1..]))
    ensures var e := v.elements[path[0]];
            LaysElement(Cut(raw, From(v, path), To(v, path)), v.isObject, Element(e.start, e.name, Shrunk(e.value, path[1..])))
  {
    hide From, To, Lays, Holder, Shrunk, Cut, Names;
    var e := v.elements[path[0]];
    ElementLaid(raw, v, path[0]);
    DeepSides(raw, v, path, path[0]);
    ShrunkEnds(e.value, path[1..]);
    if v.isObject {
      NameStays(raw, e, From(v, path), To(v, path), Shrunk(e.value, path[1..]));
    }
  }

  /**
   * A value laid out in some bytes, and a path to an element in it: the bytes without what goes with that
   * element lay out the value without the element, and every other element as it was.
   */
  lemma {:induction false} CutLays(raw: string, v: Value, path: seq<nat>)
    requires IsPath(v, path) && Lays(raw, v)
    ensures 0 <= v.start < From(v, path) <= To(v, path) < v.end <= |raw|
    ensures Lays(Cut(raw, From(v, path), To(v, path)), Shrunk(v, path))
    decreases |path|
  {
    CutInside(raw, v, path);
    if |path| == 1 {
      assert path == [path[0]];
      OneCutLays(raw, v, path[0]);
    } else {
      Deeper(raw, v, path);
      CutLays(raw, v.elements[path[0]].value, path[1..]);
      DeepLays(raw, v, path);
    }
  }

  lemma DeepLays(raw: string, v: Value, path: seq<nat>)
    requires IsPath(v, path) && Lays(raw, v) && |path| > 1
    requires 0 <= From(v, path) <= To(v, path) <= |raw|
    requires Lays(Cut(raw, From(v, path), To(v, path)), Shrunk(v.elements[path[0]].value, path[1..]))
    ensures Lays(Cut(raw, From(v, path), To(v, path)), Shrunk(v, path))
  {
    hide Edge, Between, LaysElement, Cut, From, To, Shrunk, Lays, Holder, MovedElement, Part, Blank, IsPath;
    DeepDelimiters(raw, v, path);
    DeepElements(raw, v, path);
    DeepEdge(raw, v, path);
    DeepBetween(raw, v, path);
    Assembled(Cut(raw, From(v, path), To(v, path)), Shrunk(v, path));
  }

  lemma DeepDelimiters(raw: string, v: Value, path: seq<nat>)
    requires IsPath(v, path) && Lays(raw, v)
    ensures 0 <= From(v, path) <= To(v, path) <= |raw|
    ensures var other, s := Cut(raw, From(v, path), To(v, path)), Shrunk(v, path);
            && s.Container? && s.isObject == v.isObject && 0 <= s.start < s.end - 1 < |other|
            && other[s.start] == (if s.isObject then '{' else '[') && other[s.end - 1] == (if s.isObject then '}' else ']')
  {
    hide Edge, Between, From, To, Shrunk, Lays, Holder;
    CutInside(raw, v, path);
    Laid(raw, v);
    DelimitersStay(raw, From(v, path), To(v, path), v);
    ShrunkEnds(v, path);
  }

  lemma DeepElements(raw: string, v: Value, path: seq<nat>)
    requires IsPath(v, path) && Lays(raw, v) && |path| > 1
    requires 0 <= From(v, path) <= To(v, path) <= |raw|
    requires Lays(Cut(raw, From(v, path), To(v, path)), Shrunk(v.elements[path[0]].value, path[1..]))
    ensures Shrunk(v, path).Container?
    ensures forall e | e in Shrunk(v, path).elements :: LaysElement(Cut(raw, From(v, path), To(v, path)), v.isObject, e)
  {
    hide LaysElement, Cut, From, To, Shrunk, Lays, Holder, MovedElement;
    DeepShape(v, path);
    var s := Shrunk(v, path);
    forall e | e in s.elements ensures LaysElement(Cut(raw, From(v, path), To(v, path)), v.isObject, e) {
      var j :| 0 <= j < |s.elements| && s.elements[j] == e;
      DeepElement(raw, v, path, j);
    }
  }

  // ---- The tree the bytes lay out ----

  lemma {:induction false} PlainElementAt(isObject: bool, elements: seq<Element>, i: nat)
    requires i < |elements|
    ensures PlainElements(isObject, elements)[i] == (if isObject then elements[i].name else "", Plain(elements[i].value))
    decreases elements
  {
    if i > 0 {
      PlainElementAt(isObject, elements[1..], i - 1);
    }
  }

  /** Without an element, a tree is the same tree without it. */
  lemma {:induction false} ShrunkIsWithout(v: Value, path: seq<nat>)
    requires IsPath(v, path)
    ensures Plain(Shrunk(v, path)) == Without(Plain(v), path)
    decreases |path|
  {
    if |path| == 1 {
      assert path == [path[0]];
      OneLess(v, path[0]);
    } else {
      ShrunkIsWithout(v.elements[path[0]].value, path[1..]);
      OneSmaller(v, path);
    }
  }

  lemma OneLess(v: Value, i: nat)
    requires v.Container? && i < |v.elements|
    ensures Plain(Shrunk(v, [i])) == Without(Plain(v), [i])
  {
    hide Shrunk, PlainElements;
    OneCutShape(v, i);
    var s, all := Shrunk(v, [i]), PlainElements(v.isObject, v.elements);
    var now, want := PlainElements(v.isObject, s.elements), all[..i] + all[i + 1..];
    forall j | 0 <= j < |s.elements| ensures now[j] == want[j] {
      OneLessAt(v, i, j);
    }
    assert now == want;
  }

  lemma OneLessAt(v: Value, i: nat, j: nat)
    requires v.Container? && i < |v.elements| && j < |v.elements| - 1
    ensures Shrunk(v, [i]).Container? && |Shrunk(v, [i]).elements| == |v.elements| - 1
    ensures PlainElements(v.isObject, Shrunk(v, [i]).elements)[j] == PlainElements(v.isObject, v.elements)[if j < i then j else j + 1]
  {
    hide Shrunk, PlainElements, MovedElement, MovedElements, CutFrom, CutTo, Plain;
    OneCutShape(v, i);
    PlainElementAt(v.isObject, Shrunk(v, [i]).elements, j);
    PlainElementAt(v.isObject, v.elements, if j < i then j else j + 1);
    MovedBy(v.elements[j + 1], CutFrom(v, i) - CutTo(v, i));
  }

  lemma OneSmaller(v: Value, path: seq<nat>)
    requires IsPath(v, path) && |path| > 1
    requires Plain(Shrunk(v.elements[path[0]].value, path[1..])) == Without(Plain(v.elements[path[0]].value), path[1..])
    ensures Plain(Shrunk(v, path)) == Without(Plain(v), path)
  {
    hide Shrunk, PlainElements, From, To, Holder;
    DeepShape(v, path);
    var s, all, k := Shrunk(v, path), PlainElements(v.isObject, v.elements), path[0];
    var now, want := PlainElements(v.isObject, s.elements), all[k := (all[k].0, Without(all[k].1, path[1..]))];
    forall j | 0 <= j < |s.elements| ensures now[j] == want[j] {
      OneSmallerAt(v, path, j);
    }
    assert now == want;
  }

  lemma OneSmallerAt(v: Value, path: seq<nat>, j: nat)
    requires IsPath(v, path) && |path| > 1 && j < |v.elements|
    requires Plain(Shrunk(v.elements[path[0]].value, path[1..])) == Without(Plain(v.elements[path[0]].value), path[1..])
    ensures Shrunk(v, path).Container? && |Shrunk(v, path).elements| == |v.elements|
    ensures var was := PlainElements(v.isObject, v.elements)[j];
            PlainElements(v.isObject, Shrunk(v, path).elements)[j] == if j == path[0] then (was.0, Without(was.1, path[1..])) else was
  {
    hide Shrunk, PlainElements, From, To, Holder, MovedElement, Without, Plain;
    DeepShape(v, path);
    PlainElementAt(v.isObject, Shrunk(v, path).elements, j);
    PlainElementAt(v.isObject, v.elements, j);
    MovedBy(v.elements[j], From(v, path) - To(v, path));
  }

  // ---- Removing a principal ----

  predicate IsObject(v: Value) {
    v.Container? && v.isObject
  }

  predicate IsList(v: Value) {
    v.Container? && !v.isObject
  }

  predicate IsText(v: Value, text: string) {
    v.Scalar? && v.isString && v.text == text
  }

  /** A string written at [start, end). */
  predicate At(v: Value, start: int, end: int) {
    v.Scalar? && v.isString && v.start == start && v.end == end
  }

  predicate Reaches(v: Value, path: seq<nat>)
    decreases |path|
  {
    path == [] || (v.Container? && path[0] < |v.elements| && Reaches(v.elements[path[0]].value, path[1..]))
  }

  function ValueAt(v: Value, path: seq<nat>): Value
    requires Reaches(v, path)
    decreases |path|
  {
    if path == [] then v else ValueAt(v.elements[path[0]].value, path[1..])
  }

  /** A statement is an object a Statement member holds, alone or in a list. */
  predicate StatementAt(root: Value, sp: seq<nat>) {
    && IsObject(root) && 1 <= |sp| <= 2 && sp[0] < |root.elements| && root.elements[sp[0]].name == "Statement"
    && var v := root.elements[sp[0]].value;
       if |sp| == 1 then IsObject(v) else IsList(v) && sp[1] < |v.elements| && IsObject(v.elements[sp[1]].value)
  }

  /** A principal string is a Principal member, a member of its object, or an item of such a member's list. */
  predicate Locates(s: Value, pp: seq<nat>, start: int, end: int) {
    && IsObject(s) && 1 <= |pp| <= 3 && pp[0] < |s.elements| && s.elements[pp[0]].name == "Principal"
    && var v := s.elements[pp[0]].value;
       if |pp| == 1 then At(v, start, end)
       else
         && IsObject(v) && pp[1] < |v.elements|
         && var w := v.elements[pp[1]].value;
            if |pp| == 2 then At(w, start, end)
            else IsList(w) && pp[2] < |w.elements| && At(w.elements[pp[2]].value, start, end)
  }

  function StatementOf(root: Value, sp: seq<nat>): Value
    requires StatementAt(root, sp)
  {
    if |sp| == 1 then root.elements[sp[0]].value else root.elements[sp[0]].value.elements[sp[1]].value
  }

  predicate PrincipalAt(root: Value, sp: seq<nat>, pp: seq<nat>, start: int, end: int) {
    StatementAt(root, sp) && Locates(StatementOf(root, sp), pp, start, end)
  }

  /** The statement says Allow, says so once, and has no NotPrincipal member: losing a principal lets nobody else in. */
  predicate MayRemove(s: Value)
    requires s.Container?
  {
    && (exists i | 0 <= i < |s.elements| :: s.elements[i].name == "Effect" && IsText(s.elements[i].value, "Allow"))
    && (forall i, j | 0 <= i < j < |s.elements| :: s.elements[i].name == "Effect" ==> s.elements[j].name != "Effect")
    && (forall i | 0 <= i < |s.elements| :: s.elements[i].name != "NotPrincipal")
  }

  /** Two strings written at one place are one string: the bytes name at most one principal. */
  lemma {:induction false} OnePlaceOneString(raw: string, v: Value, p: seq<nat>, q: seq<nat>)
    requires Lays(raw, v) && Reaches(v, p) && Reaches(v, q)
    requires ValueAt(v, p).Scalar? && ValueAt(v, q).Scalar?
    requires ValueAt(v, p).start == ValueAt(v, q).start && ValueAt(v, p).end == ValueAt(v, q).end
    ensures p == q
    decreases |p|
  {
    if p != [] && q != [] {
      ElementsInside(raw, v);
      ReachedInside(raw, v.elements[p[0]].value, p[1..]);
      ReachedInside(raw, v.elements[q[0]].value, q[1..]);
      assert p[0] == q[0];
      OnePlaceOneString(raw, v.elements[p[0]].value, p[1..], q[1..]);
      assert p == [p[0]] + p[1..] && q == [q[0]] + q[1..];
    }
  }

  lemma {:induction false} ReachedInside(raw: string, v: Value, p: seq<nat>)
    requires Lays(raw, v) && Reaches(v, p)
    ensures Lays(raw, ValueAt(v, p)) && v.start <= ValueAt(v, p).start && ValueAt(v, p).end <= v.end
    decreases |p|
  {
    if p != [] {
      ElementsInside(raw, v);
      ReachedInside(raw, v.elements[p[0]].value, p[1..]);
    }
  }

  /** The last step of a path goes into what the steps before it reach. */
  lemma {:induction false} HolderIsReached(v: Value, p: seq<nat>, x: nat)
    requires Reaches(v, p) && ValueAt(v, p).Container? && x < |ValueAt(v, p).elements|
    ensures IsPath(v, p + [x]) && Holder(v, p + [x]) == ValueAt(v, p)
    decreases |p|
  {
    if p != [] {
      assert (p + [x])[1..] == p[1..] + [x];
      HolderIsReached(v.elements[p[0]].value, p[1..], x);
    }
  }

  /** A principal's path from the root reaches its statement, what holds it in the statement, and its string. */
  lemma PrincipalReached(root: Value, sp: seq<nat>, pp: seq<nat>, start: int, end: int)
    requires PrincipalAt(root, sp, pp, start, end)
    ensures Reaches(root, sp) && ValueAt(root, sp) == StatementOf(root, sp)
    ensures Reaches(root, sp + pp) && At(ValueAt(root, sp + pp), start, end)
    ensures Reaches(root, sp + [pp[0]]) && ValueAt(root, sp + [pp[0]]) == StatementOf(root, sp).elements[pp[0]].value
    ensures |pp| > 1 ==> Reaches(root, sp + pp[..2])
                         && ValueAt(root, sp + pp[..2]) == StatementOf(root, sp).elements[pp[0]].value.elements[pp[1]].value
  {
    StatementReached(root, sp);
    StringReached(StatementOf(root, sp), pp, start, end);
    hide Reaches, ValueAt, StatementAt, Locates;
    ReachedThrough(root, sp, pp);
    ReachedThrough(root, sp, [pp[0]]);
    if |pp| > 1 {
      ReachedThrough(root, sp, pp[..2]);
    }
  }

  lemma Steps(v: Value, a: nat, b: nat)
    requires v.Container? && a < |v.elements|
    ensures Reaches(v, [a]) && ValueAt(v, [a]) == v.elements[a].value
    ensures v.elements[a].value.Container? && b < |v.elements[a].value.elements| ==>
              Reaches(v, [a, b]) && ValueAt(v, [a, b]) == v.elements[a].value.elements[b].value
  {
    var w := v.elements[a].value;
    assert [a][1..] == [] && [a, b][1..] == [b];
    if w.Container? && b < |w.elements| {
      assert [b][1..] == [] && Reaches(w, [b]) && ValueAt(w, [b]) == w.elements[b].value;
    }
  }

  lemma StatementReached(root: Value, sp: seq<nat>)
    requires StatementAt(root, sp)
    ensures Reaches(root, sp) && ValueAt(root, sp) == StatementOf(root, sp)
  {
    hide Reaches, ValueAt;
    Steps(root, sp[0], if |sp| == 2 then sp[1] else 0);
    assert sp == if |sp| == 1 then [sp[0]] else [sp[0], sp[1]];
  }

  lemma StringReached(s: Value, pp: seq<nat>, start: int, end: int)
    requires Locates(s, pp, start, end)
    ensures Reaches(s, pp) && At(ValueAt(s, pp), start, end)
    ensures Reaches(s, [pp[0]]) && ValueAt(s, [pp[0]]) == s.elements[pp[0]].value
    ensures |pp| > 1 ==> Reaches(s, pp[..2]) && ValueAt(s, pp[..2]) == s.elements[pp[0]].value.elements[pp[1]].value
  {
    hide Reaches, ValueAt;
    Steps(s, pp[0], if |pp| > 1 then pp[1] else 0);
    if |pp| == 1 {
      assert pp == [pp[0]];
    } else {
      assert pp[..2] == [pp[0], pp[1]];
      if |pp| == 2 {
        assert pp == pp[..2];
      } else {
        var w := s.elements[pp[0]].value.elements[pp[1]].value;
        Steps(w, pp[2], 0);
        ReachedThrough(s, pp[..2], [pp[2]]);
        assert pp == pp[..2] + [pp[2]];
      }
    }
  }

  lemma {:induction false} ReachedThrough(v: Value, p: seq<nat>, q: seq<nat>)
    requires Reaches(v, p)
    ensures Reaches(v, p + q) <==> Reaches(ValueAt(v, p), q)
    ensures Reaches(v, p + q) ==> ValueAt(v, p + q) == ValueAt(ValueAt(v, p), q)
    decreases |p|
  {
    if p == [] {
      assert p + q == q;
    } else {
      assert (p + q)[1..] == p[1..] + q;
      ReachedThrough(v.elements[p[0]].value, p[1..], q);
    }
  }

  /** One place holds one principal, so one statement is asked whether it may lose it. */
  lemma OnePrincipal(raw: string, root: Value, sp: seq<nat>, pp: seq<nat>, sp': seq<nat>, pp': seq<nat>, start: int, end: int)
    requires Lays(raw, root) && PrincipalAt(root, sp, pp, start, end) && PrincipalAt(root, sp', pp', start, end)
    ensures sp == sp' && pp == pp'
  {
    hide Lays;
    PrincipalReached(root, sp, pp, start, end);
    PrincipalReached(root, sp', pp', start, end);
    OnePlaceOneString(raw, root, sp + pp, sp' + pp');
    var all := sp + pp;
    assert all[0] == sp[0] == sp'[0];
    assert sp == all[..|sp|] && sp' == all[..|sp'|] && |sp| == |sp'|;
    assert pp == all[|sp|..] && pp' == all[|sp'|..];
  }

  datatype Removed = RemovedPrincipal | RemovedKind | RemovedStatement

  datatype Outcome = Refused | Edited(raw: string, removed: Removed)

  /** The path from a statement to the principal in the given stretch, if one is there. */
  method Locate(s: Value, start: int, end: int) returns (pp: Option<seq<nat>>)
    requires IsObject(s)
    ensures pp.Some? ==> Locates(s, pp.value, start, end)
    ensures pp.None? ==> forall q :: !Locates(s, q, start, end)
  {
    for m := 0 to |s.elements|
      invariant forall q | Locates(s, q, start, end) :: q[0] >= m
    {
      if s.elements[m].name == "Principal" {
        var v := s.elements[m].value;
        if At(v, start, end) {
          return Some([m]);
        }
        if IsObject(v) {
          for k := 0 to |v.elements|
            invariant forall q | Locates(s, q, start, end) && q[0] == m :: |q| > 1 && q[1] >= k
          {
            var w := v.elements[k].value;
            if At(w, start, end) {
              return Some([m, k]);
            }
            if IsList(w) {
              for i := 0 to |w.elements|
                invariant forall q | Locates(s, q, start, end) && q[0] == m && q[1] == k :: |q| > 2 && q[2] >= i
              {
                if At(w.elements[i].value, start, end) {
                  return Some([m, k, i]);
                }
              }
            }
          }
        }
      }
    }
    return None;
  }

  /** MayRemove, by counting the statement's members in one pass. */
  method MayRemoveFrom(s: Value) returns (may: bool)
    requires s.Container?
    ensures may == MayRemove(s)
  {
    var effects, allow, notPrincipal := 0, false, false;
    ghost var at := 0;
    for n := 0 to |s.elements|
      invariant effects == 0 ==> !allow && forall i | 0 <= i < n :: s.elements[i].name != "Effect"
      invariant effects > 0 ==> 0 <= at < n && s.elements[at].name == "Effect"
      invariant effects == 1 ==> allow == IsText(s.elements[at].value, "Allow")
      invariant effects == 1 ==> forall i | 0 <= i < n :: s.elements[i].name == "Effect" ==> i == at
      invariant effects > 1 ==> exists i, j | 0 <= i < j < n :: s.elements[i].name == "Effect" && s.elements[j].name == "Effect"
      invariant notPrincipal == exists i | 0 <= i < n :: s.elements[i].name == "NotPrincipal"
      invariant effects >= 0
    {
      if s.elements[n].name == "Effect" {
        effects := effects + 1;
        allow := IsText(s.elements[n].value, "Allow");
        at := n;
      } else if s.elements[n].name == "NotPrincipal" {
        notPrincipal := true;
      }
    }
    may := effects == 1 && allow && !notPrincipal;
  }

  /** What goes with a principal: the principal out of its list, or its kind out of Principal, or the statement. */
  ghost predicate GoesWith(root: Value, sp: seq<nat>, pp: seq<nat>, path: seq<nat>, removed: Removed) {
    && StatementAt(root, sp) && sp <= path <= sp + pp && IsPath(root, path)
    && (removed.RemovedPrincipal? <==> |path| == |sp| + 3)
    && (removed.RemovedKind? <==> |path| == |sp| + 2)
    && (removed.RemovedStatement? <==> path == sp)
    && (!removed.RemovedStatement? ==> |Holder(root, path).elements| > 1)
    // It is the least: whatever is deeper is the only element of what holds it.
    && (forall n | |path| < n <= |sp + pp| && n != |sp| + 1 ::
          IsPath(root, (sp + pp)[..n]) && |Holder(root, (sp + pp)[..n]).elements| == 1)
  }

  lemma StatementHeld(raw: string, root: Value, sp: seq<nat>)
    requires StatementAt(root, sp) && Lays(raw, root)
    ensures IsPath(root, sp) && Lays(raw, Holder(root, sp))
    ensures Holder(root, sp) == (if |sp| == 1 then root else root.elements[sp[0]].value)
  {
    hide Lays, IsPath, Holder;
    var before := sp[..|sp| - 1];
    Steps(root, sp[0], 0);
    assert before == if |sp| == 1 then [] else [sp[0]];
    assert sp == before + [sp[|sp| - 1]];
    HolderIsReached(root, before, sp[|sp| - 1]);
    ReachedInside(raw, root, before);
  }

  /** What holds each part of a principal's path. */
  lemma PartsHeld(raw: string, root: Value, sp: seq<nat>, pp: seq<nat>, start: int, end: int)
    requires PrincipalAt(root, sp, pp, start, end) && Lays(raw, root) && |pp| > 1
    ensures var kinds := StatementOf(root, sp).elements[pp[0]].value;
            && IsPath(root, sp + pp[..2]) && Holder(root, sp + pp[..2]) == kinds && Lays(raw, kinds)
            && (|pp| == 3 ==>
                  var list := kinds.elements[pp[1]].value;
                  IsPath(root, sp + pp) && Holder(root, sp + pp) == list && Lays(raw, list))
  {
    hide Lays, IsPath, Holder, StatementAt, Reaches, ValueAt, StatementOf;
    PrincipalReached(root, sp, pp, start, end);
    HeldThere(raw, root, sp + [pp[0]], pp[1]);
    assert sp + [pp[0]] + [pp[1]] == sp + pp[..2];
    if |pp| == 3 {
      HeldThere(raw, root, sp + pp[..2], pp[2]);
      assert sp + pp[..2] + [pp[2]] == sp + pp;
    }
  }

  lemma HeldThere(raw: string, root: Value, p: seq<nat>, x: nat)
    requires Lays(raw, root) && Reaches(root, p) && ValueAt(root, p).Container? && x < |ValueAt(root, p).elements|
    ensures IsPath(root, p + [x]) && Holder(root, p + [x]) == ValueAt(root, p) && Lays(raw, ValueAt(root, p))
  {
    hide Lays, Reaches, ValueAt, IsPath, Holder;
    ReachedInside(raw, root, p);
    HolderIsReached(root, p, x);
  }

  /** The text is the bytes of v in raw's place, and of no other value; where raw is a document, so is the text, of v alone. */
  ghost predicate ReadOnlyAs(raw: string, root: Value, out: string, v: Value) {
    && Lays(out, v) && (forall w | Lays(out, w) && w.start == v.start && w.end == v.end :: w == v)
    && (Document(raw, root) ==> Document(out, v) && forall w | Document(out, w) :: w == v)
  }

  /** What RemovePrincipal promises of the bytes it returns. */
  ghost predicate IsEdit(raw: string, root: Value, out: string, path: seq<nat>) {
    && IsPath(root, path)
    && 0 <= From(root, path) <= To(root, path) <= |raw| && out == Cut(raw, From(root, path), To(root, path))
    && ReadOnlyAs(raw, root, out, Shrunk(root, path)) && Plain(Shrunk(root, path)) == Without(Plain(root), path)
  }

  /** The bytes a cut leaves are read in one way: as the tree without the element. */
  lemma CutIsReadAs(raw: string, root: Value, path: seq<nat>)
    requires Lays(raw, root) && IsPath(root, path)
    ensures 0 <= From(root, path) <= To(root, path) <= |raw|
    ensures ReadOnlyAs(raw, root, Cut(raw, From(root, path), To(root, path)), Shrunk(root, path))
  {
    hide From, To, Shrunk, Lays, Cut, IsPath, Document;
    CutLays(raw, root, path);
    var out, v := Cut(raw, From(root, path), To(root, path)), Shrunk(root, path);
    forall w | Lays(out, w) && w.start == v.start && w.end == v.end ensures w == v {
      LayoutIsUnique(out, w, v);
    }
    if Document(raw, root) {
      CutIsDocument(raw, root, path);
      forall w | Document(out, w) ensures w == v {
        DocumentIsUnique(out, w, v);
      }
    }
  }

  lemma CutIsDocument(raw: string, root: Value, path: seq<nat>)
    requires Document(raw, root) && IsPath(root, path)
    ensures 0 <= From(root, path) <= To(root, path) <= |raw|
    ensures Document(Cut(raw, From(root, path), To(root, path)), Shrunk(root, path))
  {
    hide From, To, Shrunk, Lays, IsPath, Blank;
    CutLays(raw, root, path);
    ShrunkEnds(root, path);
    var out, v := Cut(raw, From(root, path), To(root, path)), Shrunk(root, path);
    assert out[..v.start] == raw[..root.start];
    assert out[v.end..] == raw[root.end..];
  }

  lemma CutIsEdit(raw: string, root: Value, path: seq<nat>)
    requires Lays(raw, root) && IsPath(root, path)
    ensures 0 <= From(root, path) <= To(root, path) <= |raw|
    ensures IsEdit(raw, root, Cut(raw, From(root, path), To(root, path)), path)
  {
    hide From, To, Shrunk, Lays, Cut, IsPath, ReadOnlyAs;
    CutIsReadAs(raw, root, path);
    ShrunkIsWithout(root, path);
  }

  /** Removes a principal located in a statement one may be removed from. */
  method Remove(raw: string, s: Value, pp: seq<nat>, holder: Value, at: nat,
                ghost root: Value, ghost sp: seq<nat>, ghost start: int, ghost end: int)
    returns (outcome: Outcome, ghost path: seq<nat>)
    requires Lays(raw, root) && PrincipalAt(root, sp, pp, start, end) && s == StatementOf(root, sp)
    requires at == sp[|sp| - 1] && holder == if |sp| == 1 then root else root.elements[sp[0]].value
    ensures outcome.Refused? <==> !MayRemove(s)
    ensures outcome.Edited? ==> IsEdit(raw, root, outcome.raw, path) && GoesWith(root, sp, pp, path, outcome.removed)
  {
    hide Lays, IsPath, Holder, IsEdit, Cut, MayRemove, GoesWith;
    path := sp;
    var may := MayRemoveFrom(s);
    if !may {
      return Refused, sp;
    }
    StatementHeld(raw, root, sp);
    if |pp| > 1 {
      PartsHeld(raw, root, sp, pp, start, end);
      var kinds := s.elements[pp[0]].value;
      var list := kinds.elements[pp[1]].value;
      if |pp| == 3 && |list.elements| > 1 {
        path := sp + pp;
        CutIsEdit(raw, root, path);
        ItemGoes(root, sp, pp);
        var out := CutElement(raw, list, pp[2]);
        return Edited(out, RemovedPrincipal), path;
      }
      if |kinds.elements| > 1 {
        path := sp + pp[..2];
        CutIsEdit(raw, root, path);
        KindGoes(root, sp, pp);
        var out := CutElement(raw, kinds, pp[1]);
        return Edited(out, RemovedKind), path;
      }
    }
    CutIsEdit(raw, root, sp);
    StatementGoes(root, sp, pp);
    var out := CutElement(raw, holder, at);
    return Edited(out, RemovedStatement), path;
  }

  lemma ItemGoes(root: Value, sp: seq<nat>, pp: seq<nat>)
    requires StatementAt(root, sp) && |pp| == 3 && IsPath(root, sp + pp) && |Holder(root, sp + pp).elements| > 1
    ensures GoesWith(root, sp, pp, sp + pp, RemovedPrincipal)
  {
    hide StatementAt, IsPath, Holder;
  }

  lemma KindGoes(root: Value, sp: seq<nat>, pp: seq<nat>)
    requires StatementAt(root, sp) && 2 <= |pp| <= 3
    requires IsPath(root, sp + pp[..2]) && |Holder(root, sp + pp[..2]).elements| > 1
    requires |pp| == 3 ==> IsPath(root, sp + pp) && |Holder(root, sp + pp).elements| == 1
    ensures GoesWith(root, sp, pp, sp + pp[..2], RemovedKind)
  {
    hide StatementAt, IsPath, Holder;
    assert |pp| == 3 ==> (sp + pp)[..|sp| + 3] == sp + pp;
    assert sp + pp[..2] <= sp + pp;
  }

  lemma StatementGoes(root: Value, sp: seq<nat>, pp: seq<nat>)
    requires StatementAt(root, sp) && 1 <= |pp| <= 3 && IsPath(root, sp)
    requires |pp| > 1 ==> IsPath(root, sp + pp[..2]) && |Holder(root, sp + pp[..2]).elements| == 1
    requires |pp| == 3 ==> IsPath(root, sp + pp) && |Holder(root, sp + pp).elements| == 1
    ensures GoesWith(root, sp, pp, sp, RemovedStatement)
  {
    hide StatementAt, IsPath, Holder;
    assert |pp| > 1 ==> (sp + pp)[..|sp| + 2] == sp + pp[..2];
    assert |pp| == 3 ==> (sp + pp)[..|sp| + 3] == sp + pp;
  }

  /**
   * The document without one principal. An edit is made exactly where the stretch is a principal of a statement one
   * may be removed from, and its bytes are read in one way: as the tree without the principal, its kind or its statement.
   */
  method RemovePrincipal(raw: string, root: Value, start: int, end: int)
    returns (outcome: Outcome, ghost sp: seq<nat>, ghost pp: seq<nat>, ghost path: seq<nat>)
    requires Lays(raw, root)
    ensures outcome.Refused? <==> forall sp, pp | PrincipalAt(root, sp, pp, start, end) :: !MayRemove(StatementOf(root, sp))
    ensures outcome.Edited? ==>
              && PrincipalAt(root, sp, pp, start, end) && MayRemove(StatementOf(root, sp))
              && GoesWith(root, sp, pp, path, outcome.removed) && IsEdit(raw, root, outcome.raw, path)
  {
    hide Lays, IsPath, Holder, IsEdit, Cut, MayRemove, GoesWith, Locates;
    sp, pp, path := [], [], [];
    if !IsObject(root) {
      return Refused, [], [], [];
    }
    for i := 0 to |root.elements|
      invariant forall sp, pp | PrincipalAt(root, sp, pp, start, end) :: sp[0] >= i
    {
      var m := root.elements[i];
      if m.name == "Statement" {
        if IsObject(m.value) {
          var found := Locate(m.value, start, end);
          if found.Some? {
            sp, pp := [i], found.value;
            outcome, path := Remove(raw, m.value, found.value, root, i, root, sp, start, end);
            OnlyStatement(raw, root, sp, pp, start, end);
            return;
          }
        } else if IsList(m.value) {
          for j := 0 to |m.value.elements|
            invariant forall sp, pp | PrincipalAt(root, sp, pp, start, end) && sp[0] == i :: |sp| == 2 && sp[1] >= j
          {
            var s := m.value.elements[j].value;
            if IsObject(s) {
              var found := Locate(s, start, end);
              if found.Some? {
                sp, pp := [i, j], found.value;
                outcome, path := Remove(raw, s, found.value, m.value, j, root, sp, start, end);
                OnlyStatement(raw, root, sp, pp, start, end);
                return;
              }
            }
          }
        }
      }
    }
    return Refused, [], [], [];
  }

  lemma OnlyStatement(raw: string, root: Value, sp: seq<nat>, pp: seq<nat>, start: int, end: int)
    requires Lays(raw, root) && PrincipalAt(root, sp, pp, start, end)
    ensures forall sp', pp' | PrincipalAt(root, sp', pp', start, end) :: sp' == sp
  {
    hide Lays;
    forall sp', pp' | PrincipalAt(root, sp', pp', start, end) ensures sp' == sp {
      OnePrincipal(raw, root, sp, pp, sp', pp', start, end);
    }
  }
}

/** How a policy's bytes are read: the tree they hold, each value with where it is written (internal/parse/aws/json.go). */
module Layouts {
  import opened Strings
  import opened Quoting
  import Encoding

  /** A parsed value with where it is written, [start, end): a scalar, or a container of elements. */
  datatype Value =
    | Scalar(start: int, end: int, isString: bool, text: string)
    | Container(start: int, end: int, isObject: bool, elements: seq<Element>)

  /** A member of an object, which starts at its name, or an item of a list, which starts where its value does. */
  datatype Element = Element(start: int, name: string, value: Value)

  // ---- How a value is laid out ----

  predicate Space(c: char) {
    c == ' ' || c == '\t' || c == '\n' || c == '\r'
  }

  predicate Blank(s: string) {
    forall c | c in s :: Space(c)
  }

  /** Space, the mark, space: a comma between two elements, or a colon behind a name. */
  ghost predicate Gap(s: string, mark: char) {
    exists i | 0 <= i < |s| :: s[i] == mark && Blank(s[..i]) && Blank(s[i + 1..])
  }

  /** raw[start..end], where that is a stretch of raw. */
  function Part(raw: string, start: int, end: int): string {
    if 0 <= start <= end <= |raw| then raw[start..end] else ""
  }

  predicate Digits(s: string) {
    s != "" && forall c | c in s :: '0' <= c <= '9'
  }

  /** A number, as section 6 of RFC 8259 writes one. */
  ghost predicate IsNumber(s: string) {
    exists minus, whole, fraction, exponent | s == minus + whole + fraction + exponent ::
      && (minus == "" || minus == "-")
      && Digits(whole) && (whole[0] == '0' ==> whole == "0")
      && (fraction == "" || (fraction[0] == '.' && Digits(fraction[1..])))
      && (exponent == "" || (exponent[0] in "eE" && |exponent| > 1 && Digits(exponent[if exponent[1] in "+-" then 2 else 1..])))
  }

  /** What a value that is no string, no object and no list is written as. */
  ghost predicate IsToken(s: string) {
    s == "null" || s == "true" || s == "false" || IsNumber(s)
  }

  /** The bytes from start to end are the value. */
  ghost predicate Lays(raw: string, v: Value)
    decreases v, 1
  {
    0 <= v.start < v.end <= |raw|
    && match v
       case Scalar(start, end, isString, text) =>
         if isString then Encoding.ReadJson(raw[start..end]) == Found(text, "") else raw[start..end] == text && IsToken(text)
       case Container(start, end, isObject, elements) =>
         raw[start] == (if isObject then '{' else '[') && start < end - 1 && raw[end - 1] == (if isObject then '}' else ']')
         && Edge(raw, v) && (forall e | e in elements :: LaysElement(raw, isObject, e)) && Between(raw, elements)
  }

  /** What stands between the delimiters and the elements. */
  ghost predicate Edge(raw: string, v: Value)
    requires v.Container?
  {
    var n := |v.elements|;
    if n == 0 then Blank(Part(raw, v.start + 1, v.end - 1))
    else
      v.start + 1 <= v.elements[0].start && v.elements[n - 1].value.end <= v.end - 1
      && Blank(Part(raw, v.start + 1, v.elements[0].start)) && Blank(Part(raw, v.elements[n - 1].value.end, v.end - 1))
  }

  /** A comma stands between each element and the next. */
  ghost predicate Between(raw: string, elements: seq<Element>) {
    forall i | 0 <= i < |elements| - 1 ::
      elements[i].value.end <= elements[i + 1].start && Gap(Part(raw, elements[i].value.end, elements[i + 1].start), ',')
  }

  ghost predicate LaysElement(raw: string, isObject: bool, e: Element)
    decreases e, 0
  {
    Lays(raw, e.value) && (if isObject then Names(raw, e) else e.start == e.value.start && e.name == "")
  }

  /** A member's name, a colon, and where its value starts. */
  ghost predicate Names(raw: string, e: Element) {
    exists k :: 0 <= e.start < k <= e.value.start <= |raw|
      && Encoding.ReadJson(raw[e.start..k]) == Found(e.name, "") && Gap(raw[k..e.value.start], ':')
  }

  // ---- The tree without its places ----

  datatype Json = Leaf(isString: bool, text: string) | Node(isObject: bool, children: seq<(string, Json)>)

  function Plain(v: Value): Json
    decreases v, 1
  {
    match v
    case Scalar(_, _, isString, text) => Leaf(isString, text)
    case Container(_, _, isObject, elements) => Node(isObject, PlainElements(isObject, elements))
  }

  function PlainElements(isObject: bool, elements: seq<Element>): (children: seq<(string, Json)>)
    ensures |children| == |elements|
    decreases elements, 0
  {
    if elements == [] then []
    else [(if isObject then elements[0].name else "", Plain(elements[0].value))] + PlainElements(isObject, elements[1..])
  }

  // ---- Moving a value ----

  function Moved(v: Value, d: int): Value
    decreases v, 1
  {
    match v
    case Scalar(start, end, isString, text) => Scalar(start + d, end + d, isString, text)
    case Container(start, end, isObject, elements) => Container(start + d, end + d, isObject, MovedElements(elements, d))
  }

  function MovedElement(e: Element, d: int): Element
    decreases e, 2
  {
    Element(e.start + d, e.name, Moved(e.value, d))
  }

  function MovedElements(elements: seq<Element>, d: int): (moved: seq<Element>)
    ensures |moved| == |elements|
    ensures forall i | 0 <= i < |elements| :: moved[i] == MovedElement(elements[i], d)
    decreases elements, 3
  {
    if elements == [] then [] else [MovedElement(elements[0], d)] + MovedElements(elements[1..], d)
  }

  lemma {:induction false} MovedIsPlain(v: Value, d: int)
    ensures Plain(Moved(v, d)) == Plain(v) && Moved(v, d).start == v.start + d && Moved(v, d).end == v.end + d
    decreases v, 1
  {
    if v.Container? {
      MovedElementsArePlain(v.isObject, v.elements, d);
    }
  }

  lemma {:induction false} MovedElementsArePlain(isObject: bool, elements: seq<Element>, d: int)
    ensures PlainElements(isObject, MovedElements(elements, d)) == PlainElements(isObject, elements)
    decreases elements, 0
  {
    if elements != [] {
      MovedIsPlain(elements[0].value, d);
      MovedElementsArePlain(isObject, elements[1..], d);
      assert MovedElements(elements, d)[1..] == MovedElements(elements[1..], d);
    }
  }

  /** other holds, d further on, what raw holds from start to end. */
  ghost predicate Same(raw: string, other: string, start: int, end: int, d: int) {
    0 <= start <= end <= |raw| && 0 <= start + d && end + d <= |other| && other[start + d..end + d] == raw[start..end]
  }

  lemma SubSlice(text: string, a: int, b: int, i: int, j: int)
    requires 0 <= a <= i <= j <= b <= |text|
    ensures text[a..b][i - a..j - a] == text[i..j]
  {
    var x, y := text[a..b][i - a..j - a], text[i..j];
    forall k | 0 <= k < |x| ensures x[k] == y[k] {
      assert text[a..b][i - a + k] == text[a + (i - a + k)];
    }
    assert x == y;
  }

  lemma SameWithin(raw: string, other: string, start: int, end: int, d: int, i: int, j: int)
    requires Same(raw, other, start, end, d) && start <= i <= j <= end
    ensures Same(raw, other, i, j, d) && Part(other, i + d, j + d) == Part(raw, i, j)
    ensures i < j ==> other[i + d] == raw[i] && other[j - 1 + d] == raw[j - 1]
  {
    SubSlice(raw, start, end, i, j);
    SubSlice(other, start + d, end + d, i + d, j + d);
    if i < j {
      assert raw[i..j][0] == other[i + d..j + d][0];
      assert raw[i..j][j - 1 - i] == other[i + d..j + d][j - 1 - i];
    }
  }

  /** A value laid out in some bytes is laid out wherever the same bytes stand. */
  lemma {:induction false} LaysWhereverItStands(raw: string, other: string, v: Value, d: int)
    requires Lays(raw, v) && Same(raw, other, v.start, v.end, d)
    ensures Lays(other, Moved(v, d))
    decreases v, 1
  {
    hide Encoding.ReadJson, Gap, Names, Edge, Between, Blank, LaysElement, MovedElement;
    MovedIsPlain(v, d);
    SameWithin(raw, other, v.start, v.end, d, v.start, v.end);
    if v.Container? {
      ElementsInside(raw, v);
      GapsMove(raw, other, v, d);
      var moved := MovedElements(v.elements, d);
      forall m | m in moved ensures LaysElement(other, v.isObject, m) {
        var i :| 0 <= i < |moved| && moved[i] == m;
        var e := v.elements[i];
        assert e in v.elements;
        SameWithin(raw, other, v.start, v.end, d, e.start, e.value.end);
        ElementLaysWhereverItStands(raw, other, v.isObject, e, d);
      }
    }
  }

  lemma MovedBounds(elements: seq<Element>, d: int)
    ensures forall i | 0 <= i < |elements| ::
              var m := MovedElements(elements, d)[i];
              m.start == elements[i].start + d && m.value.end == elements[i].value.end + d
  {
    forall i | 0 <= i < |elements|
      ensures var m := MovedElements(elements, d)[i];
              m.start == elements[i].start + d && m.value.end == elements[i].value.end + d
    {
      MovedIsPlain(elements[i].value, d);
    }
  }

  lemma GapsMove(raw: string, other: string, v: Value, d: int)
    requires v.Container? && Lays(raw, v) && Same(raw, other, v.start, v.end, d)
    ensures Edge(other, Moved(v, d)) && Between(other, MovedElements(v.elements, d))
  {
    ElementsInside(raw, v);
    MovedBounds(v.elements, d);
    Laid(raw, v);
    EdgeMoves(raw, other, v, d);
    BetweenMoves(raw, other, v, d);
  }

  lemma EdgeMoves(raw: string, other: string, v: Value, d: int)
    requires v.Container? && 0 <= v.start < v.end - 1 < |raw| && Edge(raw, v) && Same(raw, other, v.start, v.end, d)
    requires v.elements != [] ==> v.elements[0].start <= v.end && v.start <= v.elements[|v.elements| - 1].value.end
    ensures Edge(other, Moved(v, d))
  {
    hide Blank, Same, Part;
    MovedBounds(v.elements, d);
    var n := |v.elements|;
    if n == 0 {
      SameWithin(raw, other, v.start, v.end, d, v.start + 1, v.end - 1);
    } else {
      SameWithin(raw, other, v.start, v.end, d, v.start + 1, v.elements[0].start);
      SameWithin(raw, other, v.start, v.end, d, v.elements[n - 1].value.end, v.end - 1);
    }
  }

  lemma BetweenMoves(raw: string, other: string, v: Value, d: int)
    requires v.Container? && Between(raw, v.elements) && Same(raw, other, v.start, v.end, d)
    requires forall i | 0 <= i < |v.elements| :: v.start <= v.elements[i].start && v.elements[i].start <= v.elements[i].value.end <= v.end
    ensures Between(other, MovedElements(v.elements, d))
  {
    hide Gap, Same, Part, MovedElement;
    var elements, moved := v.elements, MovedElements(v.elements, d);
    MovedBounds(elements, d);
    forall i | 0 <= i < |moved| - 1
      ensures moved[i].value.end <= moved[i + 1].start && Gap(Part(other, moved[i].value.end, moved[i + 1].start), ',')
    {
      SameWithin(raw, other, v.start, v.end, d, elements[i].value.end, elements[i + 1].start);
    }
  }

  lemma Laid(raw: string, v: Value)
    requires v.Container? && Lays(raw, v)
    ensures 0 <= v.start < v.end - 1 < |raw| && Edge(raw, v) && Between(raw, v.elements)
    ensures raw[v.start] == (if v.isObject then '{' else '[') && raw[v.end - 1] == (if v.isObject then '}' else ']')
  {
  }

  lemma NamesMove(raw: string, other: string, e: Element, d: int)
    requires Names(raw, e) && e.value.start < e.value.end && Same(raw, other, e.start, e.value.end, d)
    ensures Names(other, MovedElement(e, d))
  {
    hide Encoding.ReadJson, Gap;
    var v := e.value;
    MovedIsPlain(v, d);
    var k :| 0 <= e.start < k <= v.start <= |raw|
      && Encoding.ReadJson(raw[e.start..k]) == Found(e.name, "") && Gap(raw[k..v.start], ':');
    SameWithin(raw, other, e.start, v.end, d, e.start, k);
    SameWithin(raw, other, e.start, v.end, d, k, v.start);
    var m := MovedElement(e, d);
    assert other[m.start..k + d] == raw[e.start..k] && other[k + d..m.value.start] == raw[k..v.start];
  }

  lemma {:induction false} ElementLaysWhereverItStands(raw: string, other: string, isObject: bool, e: Element, d: int)
    requires LaysElement(raw, isObject, e) && Same(raw, other, e.start, e.value.end, d)
    ensures LaysElement(other, isObject, MovedElement(e, d))
    decreases e, 0
  {
    var v := e.value;
    StartsBeforeValue(raw, isObject, e);
    hide Lays, Names, Same;
    MovedIsPlain(v, d);
    if isObject {
      NamesMove(raw, other, e, d);
    }
    SameWithin(raw, other, e.start, v.end, d, v.start, v.end);
    LaysWhereverItStands(raw, other, v, d);
  }

  lemma StartsBeforeValue(raw: string, isObject: bool, e: Element)
    requires LaysElement(raw, isObject, e)
    ensures 0 <= e.start <= e.value.start < e.value.end <= |raw|
  {
  }

  /** The elements of a container stand inside it, one after the other. */
  lemma ElementsInside(raw: string, v: Value)
    requires v.Container? && Lays(raw, v)
    ensures forall i | 0 <= i < |v.elements| ::
              LaysElement(raw, v.isObject, v.elements[i])
              && v.start < v.elements[i].start <= v.elements[i].value.start < v.elements[i].value.end < v.end
    ensures forall i, j | 0 <= i < j < |v.elements| :: v.elements[i].value.end <= v.elements[j].start
  {
    forall i | 0 <= i < |v.elements|
      ensures LaysElement(raw, v.isObject, v.elements[i])
      ensures v.elements[i].start <= v.elements[i].value.start < v.elements[i].value.end
    {
      assert v.elements[i] in v.elements;
      StartsBeforeValue(raw, v.isObject, v.elements[i]);
    }
    forall i, j | 0 <= i < j < |v.elements| ensures v.elements[i].value.end <= v.elements[j].start {
      InOrder(raw, v, i, j);
    }
    forall i | 0 <= i < |v.elements| ensures v.start < v.elements[i].start && v.elements[i].value.end < v.end {
      assert i > 0 ==> v.elements[0].value.end <= v.elements[i].start;
      var n := |v.elements|;
      assert i < n - 1 ==> v.elements[i].value.end <= v.elements[n - 1].start;
    }
  }

  lemma {:induction false} InOrder(raw: string, v: Value, i: nat, j: nat)
    requires v.Container? && Lays(raw, v) && i < j < |v.elements|
    ensures v.elements[i].value.end <= v.elements[j].start
    decreases j
  {
    if i < j - 1 {
      InOrder(raw, v, i, j - 1);
      assert v.elements[j - 1] in v.elements;
      StartsBeforeValue(raw, v.isObject, v.elements[j - 1]);
    }
    assert v.elements[j - 1].value.end <= v.elements[j - 1 + 1].start;
  }

  // ---- One layout ----

  /** What may stand right behind a value inside a container. */
  predicate Stops(c: char) {
    Space(c) || c == ',' || c == ']' || c == '}'
  }

  predicate EndsAt(raw: string, at: int) {
    at == |raw| || (0 <= at < |raw| && Stops(raw[at]))
  }

  predicate TokenChar(c: char) {
    '0' <= c <= '9' || 'a' <= c <= 'z' || c in "+-.E"
  }

  lemma TokensAreWords(s: string)
    requires IsToken(s)
    ensures s != "" && forall c | c in s :: TokenChar(c)
  {
    hide IsNumber;
    if s != "null" && s != "true" && s != "false" {
      NumbersAreWords(s);
    }
  }

  lemma NumbersAreWords(s: string)
    requires IsNumber(s)
    ensures s != "" && forall c | c in s :: TokenChar(c)
  {
    var minus, whole, fraction, exponent :| s == minus + whole + fraction + exponent
      && (minus == "" || minus == "-")
      && Digits(whole) && (whole[0] == '0' ==> whole == "0")
      && (fraction == "" || (fraction[0] == '.' && Digits(fraction[1..])))
      && (exponent == "" || (exponent[0] in "eE" && |exponent| > 1 && Digits(exponent[if exponent[1] in "+-" then 2 else 1..])));
    assert fraction != "" ==> fraction == [fraction[0]] + fraction[1..];
    if exponent != "" {
      var k := if exponent[1] in "+-" then 2 else 1;
      assert exponent == exponent[..k] + exponent[k..];
      forall c | c in exponent[..k] ensures TokenChar(c) {
        assert c == exponent[0] || c == exponent[1];
      }
    }
  }

  /** The first byte of a value tells what it is. */
  lemma ValueStarts(raw: string, v: Value)
    requires Lays(raw, v)
    ensures 0 <= v.start < v.end <= |raw| && !Stops(raw[v.start])
    ensures raw[v.start] == '"' <==> v.Scalar? && v.isString
    ensures raw[v.start] == '{' <==> v.Container? && v.isObject
    ensures raw[v.start] == '[' <==> v.Container? && !v.isObject
  {
    hide IsToken, Edge, Between, LaysElement;
    if v.Scalar? {
      var s := raw[v.start..v.end];
      assert raw[v.start] == s[0];
      if !v.isString {
        TokensAreWords(s);
        assert s[0] in s;
      } else {
        hide Encoding.ReadJsonTail;
      }
    }
  }

  lemma ElementStarts(raw: string, isObject: bool, e: Element)
    requires LaysElement(raw, isObject, e)
    ensures 0 <= e.start < |raw| && !Stops(raw[e.start])
  {
    hide Lays, Encoding.ReadJsonTail;
    if isObject {
      var k :| 0 <= e.start < k <= e.value.start <= |raw|
        && Encoding.ReadJson(raw[e.start..k]) == Found(e.name, "") && Gap(raw[k..e.value.start], ':');
      assert raw[e.start] == raw[e.start..k][0];
    } else {
      ValueStarts(raw, e.value);
    }
  }

  /** A string ends where it is first closed. */
  lemma StringsAlike(raw: string, start: int, end: int, end': int, text: string, text': string)
    requires 0 <= start <= end <= |raw| && start <= end' <= |raw|
    requires Encoding.ReadJson(raw[start..end]) == Found(text, "") && Encoding.ReadJson(raw[start..end']) == Found(text', "")
    ensures end == end' && text == text'
  {
    hide Encoding.ReadJson;
    if end <= end' {
      FirstClosed(raw, start, end, end');
    } else {
      FirstClosed(raw, start, end', end);
    }
  }

  lemma FirstClosed(raw: string, start: int, end: int, end': int)
    requires 0 <= start <= end <= end' <= |raw|
    requires Encoding.ReadJson(raw[start..end]).Found? && Encoding.ReadJson(raw[start..end]).rest == ""
    ensures Encoding.ReadJson(raw[start..end']) == Found(Encoding.ReadJson(raw[start..end]).value, raw[end..end'])
  {
    hide Encoding.ReadJson;
    assert raw[start..end] + raw[end..end'] == raw[start..end'];
    Encoding.ReadJsonExtends(raw[start..end], raw[end..end']);
  }

  /** Space ends where something else first stands. */
  lemma SpacesAlike(raw: string, from: int, to: int, to': int)
    requires 0 <= from <= to < |raw| && from <= to' < |raw|
    requires Blank(raw[from..to]) && Blank(raw[from..to']) && !Space(raw[to]) && !Space(raw[to'])
    ensures to == to'
  {
    hide Blank, Space;
    if to < to' {
      BlankThere(raw, from, to', to);
    } else if to' < to {
      BlankThere(raw, from, to, to');
    }
  }

  lemma BlankThere(raw: string, from: int, to: int, at: int)
    requires 0 <= from <= at < to <= |raw| && Blank(raw[from..to])
    ensures Space(raw[at])
  {
    assert raw[from..to][at - from] == raw[at];
  }

  /** A gap holds its mark behind space alone. */
  lemma MarkIn(raw: string, from: int, to: int, mark: char) returns (m: int)
    requires 0 <= from <= to < |raw| && Gap(raw[from..to], mark) && !Space(raw[to])
    ensures from <= m < to && raw[m] == mark && Blank(raw[from..m]) && Blank(raw[m + 1..to])
  {
    var s := raw[from..to];
    var i :| 0 <= i < |s| && s[i] == mark && Blank(s[..i]) && Blank(s[i + 1..]);
    m := from + i;
    assert s[..i] == raw[from..m] && s[i + 1..] == raw[m + 1..to];
  }

  lemma GapsAlike(raw: string, from: int, to: int, to': int, mark: char)
    requires 0 <= from <= to < |raw| && from <= to' < |raw| && !Space(mark)
    requires Gap(raw[from..to], mark) && Gap(raw[from..to'], mark) && !Space(raw[to]) && !Space(raw[to'])
    ensures to == to'
  {
    hide Gap, Blank;
    var m := MarkIn(raw, from, to, mark);
    var m' := MarkIn(raw, from, to', mark);
    SpacesAlike(raw, from, m, m');
    SpacesAlike(raw, m + 1, to, to');
  }

  /** Where the search for element n of a container starts. */
  function Reach(c: Value, n: nat): int
    requires c.Container? && n <= |c.elements|
  {
    if n == 0 then c.start + 1 else c.elements[n - 1].value.end
  }

  /** What is found from there: the element, behind a comma where one stands before it, or the closing delimiter. */
  lemma FoundAt(raw: string, c: Value, n: nat)
    requires c.Container? && Lays(raw, c) && n <= |c.elements|
    ensures 0 <= Reach(c, n) < |raw|
    ensures n == |c.elements| ==> Reach(c, n) < c.end && Blank(raw[Reach(c, n)..c.end - 1])
    ensures n < |c.elements| ==> Reach(c, n) <= c.elements[n].start < |raw| && !Stops(raw[c.elements[n].start])
    ensures n < |c.elements| ==> var gap := raw[Reach(c, n)..c.elements[n].start]; if n == 0 then Blank(gap) else Gap(gap, ',')
  {
    hide Blank, Gap, LaysElement, Lays;
    Laid(raw, c);
    if c.elements != [] {
      ElementsInside(raw, c);
    }
    if n < |c.elements| {
      ElementStarts(raw, c.isObject, c.elements[n]);
      assert n > 0 ==> c.elements[n - 1].value.end <= c.elements[n - 1 + 1].start;
    }
  }

  /** Behind each element stands space, a comma or the closing delimiter. */
  lemma ElementEnds(raw: string, c: Value, n: nat)
    requires c.Container? && Lays(raw, c) && n < |c.elements|
    ensures EndsAt(raw, c.elements[n].value.end)
  {
    hide Blank, Gap, LaysElement, Lays;
    FoundAt(raw, c, n + 1);
    Laid(raw, c);
    var at := Reach(c, n + 1);
    if n + 1 == |c.elements| {
      BlankOrThere(raw, at, c.end - 1);
    } else {
      var m := MarkIn(raw, at, c.elements[n + 1].start, ',');
      BlankOrThere(raw, at, m);
    }
  }

  lemma BlankOrThere(raw: string, from: int, to: int)
    requires 0 <= from <= to < |raw| && Blank(raw[from..to])
    ensures from == to || Space(raw[from])
  {
    if from < to {
      assert raw[from..to][0] == raw[from];
    }
  }

  /** Two layouts of containers that start at one place agree on every element both have. */
  lemma {:induction false} ElementsAlike(raw: string, v: Value, w: Value, n: nat)
    requires Lays(raw, v) && Lays(raw, w) && v.Container? && w.Container? && v.start == w.start && v.isObject == w.isObject
    requires n <= |v.elements| && n <= |w.elements|
    ensures v.elements[..n] == w.elements[..n]
    decreases v, 0, n
  {
    hide Lays, LaysElement, Blank, Gap, Stops;
    if n > 0 {
      ElementsAlike(raw, v, w, n - 1);
      assert n > 1 ==> v.elements[n - 2] == v.elements[..n - 1][n - 2] && w.elements[n - 2] == w.elements[..n - 1][n - 2];
      assert Reach(v, n - 1) == Reach(w, n - 1);
      SameStart(raw, v, w, n - 1);
      ElementsInside(raw, v);
      ElementsInside(raw, w);
      ElementEnds(raw, v, n - 1);
      ElementEnds(raw, w, n - 1);
      ElementAlike(raw, v, v.elements[n - 1], w.elements[n - 1]);
      assert v.elements[..n] == v.elements[..n - 1] + [v.elements[n - 1]];
      assert w.elements[..n] == w.elements[..n - 1] + [w.elements[n - 1]];
    }
  }

  lemma SameStart(raw: string, v: Value, w: Value, n: nat)
    requires Lays(raw, v) && Lays(raw, w) && v.Container? && w.Container?
    requires n < |v.elements| && n < |w.elements| && Reach(v, n) == Reach(w, n)
    ensures v.elements[n].start == w.elements[n].start
  {
    hide Lays, Blank, Gap, Reach;
    FoundAt(raw, v, n);
    FoundAt(raw, w, n);
    if n == 0 {
      SpacesAlike(raw, Reach(v, n), v.elements[n].start, w.elements[n].start);
    } else {
      GapsAlike(raw, Reach(v, n), v.elements[n].start, w.elements[n].start, ',');
    }
  }

  lemma {:induction false} ElementAlike(raw: string, v: Value, e: Element, f: Element)
    requires v.Container? && e in v.elements
    requires LaysElement(raw, v.isObject, e) && LaysElement(raw, v.isObject, f) && e.start == f.start
    requires EndsAt(raw, e.value.end) && EndsAt(raw, f.value.end)
    ensures e == f
    decreases v, 0, 0
  {
    NamesAlike(raw, v.isObject, e, f);
    hide Lays, LaysElement, EndsAt;
    LaidValue(raw, v.isObject, e);
    LaidValue(raw, v.isObject, f);
    ValuesAlike(raw, e.value, f.value);
  }

  lemma LaidValue(raw: string, isObject: bool, e: Element)
    requires LaysElement(raw, isObject, e)
    ensures Lays(raw, e.value)
  {
  }

  lemma NamesAlike(raw: string, isObject: bool, e: Element, f: Element)
    requires LaysElement(raw, isObject, e) && LaysElement(raw, isObject, f) && e.start == f.start
    ensures e.name == f.name && e.value.start == f.value.start
  {
    hide Lays, Encoding.ReadJson, Gap;
    if isObject {
      var k :| 0 <= e.start < k <= e.value.start <= |raw|
        && Encoding.ReadJson(raw[e.start..k]) == Found(e.name, "") && Gap(raw[k..e.value.start], ':');
      var l :| 0 <= f.start < l <= f.value.start <= |raw|
        && Encoding.ReadJson(raw[f.start..l]) == Found(f.name, "") && Gap(raw[l..f.value.start], ':');
      StringsAlike(raw, e.start, k, l, e.name, f.name);
      ValueStarts(raw, e.value);
      ValueStarts(raw, f.value);
      GapsAlike(raw, k, e.value.start, f.value.start, ':');
    }
  }

  /** And they have as many elements, and end at one place. */
  lemma ContainersAlike(raw: string, v: Value, w: Value)
    requires Lays(raw, v) && Lays(raw, w) && v.Container? && w.Container? && v.start == w.start && v.isObject == w.isObject
    requires |v.elements| <= |w.elements| && v.elements == w.elements[..|v.elements|]
    ensures v == w
  {
    hide Lays, Blank, Gap;
    hide Stops;
    var n := |v.elements|;
    assert n > 0 ==> w.elements[n - 1] == v.elements[n - 1];
    assert Reach(w, n) == Reach(v, n);
    NoMoreElements(raw, v, w);
    FoundAt(raw, v, n);
    FoundAt(raw, w, n);
    Laid(raw, v);
    Laid(raw, w);
    SpacesAlike(raw, Reach(v, n), v.end - 1, w.end - 1);
    assert w.elements[..n] == w.elements;
  }

  /** Where one layout finds the closing delimiter, the other finds no element. */
  lemma NoMoreElements(raw: string, v: Value, w: Value)
    requires Lays(raw, v) && Lays(raw, w) && v.Container? && w.Container?
    requires |v.elements| <= |w.elements| && Reach(v, |v.elements|) == Reach(w, |v.elements|)
    ensures |v.elements| == |w.elements|
  {
    hide Lays, Blank, Gap, Reach;
    var n := |v.elements|;
    FoundAt(raw, v, n);
    FoundAt(raw, w, n);
    Laid(raw, v);
    var at := Reach(v, n);
    if n < |w.elements| {
      if n == 0 {
        SpacesAlike(raw, at, v.end - 1, w.elements[n].start);
      } else {
        var m := MarkIn(raw, at, w.elements[n].start, ',');
        SpacesAlike(raw, at, v.end - 1, m);
      }
    }
  }

  lemma ScalarsAlike(raw: string, v: Value, w: Value)
    requires Lays(raw, v) && Lays(raw, w) && v.start == w.start && v.Scalar? && w.Scalar? && v.isString == w.isString
    requires v.end == w.end || (EndsAt(raw, v.end) && EndsAt(raw, w.end))
    ensures v == w
  {
    hide Encoding.ReadJson, IsToken, EndsAt;
    if v.isString {
      StringsAlike(raw, v.start, v.end, w.end, v.text, w.text);
    } else {
      TokensAreWords(v.text);
      TokensAreWords(w.text);
      if v.end < w.end {
        WordGoesOn(raw, w, v.end);
      } else if w.end < v.end {
        WordGoesOn(raw, v, w.end);
      }
    }
  }

  lemma WordGoesOn(raw: string, v: Value, at: int)
    requires v.Scalar? && 0 <= v.start <= at < v.end <= |raw| && raw[v.start..v.end] == v.text
    requires forall c | c in v.text :: TokenChar(c)
    ensures !EndsAt(raw, at)
  {
    assert v.text[at - v.start] == raw[at];
    assert raw[at] in v.text;
    WordsDoNotStop(raw[at]);
  }

  lemma WordsDoNotStop(c: char)
    requires TokenChar(c)
    ensures !Stops(c)
  {
  }

  /** Values that start at one place, and end there or where a value can end, are one value. */
  lemma {:induction false} ValuesAlike(raw: string, v: Value, w: Value)
    requires Lays(raw, v) && Lays(raw, w) && v.start == w.start
    requires v.end == w.end || (EndsAt(raw, v.end) && EndsAt(raw, w.end))
    ensures v == w
    decreases v, 1, 0
  {
    hide Lays, EndsAt;
    ValueStarts(raw, v);
    ValueStarts(raw, w);
    if v.Scalar? {
      ScalarsAlike(raw, v, w);
    } else if |v.elements| <= |w.elements| {
      ElementsAlike(raw, v, w, |v.elements|);
      assert v.elements[..|v.elements|] == v.elements;
      ContainersAlike(raw, v, w);
    } else {
      ElementsAlike(raw, v, w, |w.elements|);
      assert w.elements[..|w.elements|] == w.elements;
      ContainersAlike(raw, w, v);
    }
  }

  /** The same bytes are laid out in one way: a stretch of them holds one value, whatever is read of it. */
  lemma LayoutIsUnique(raw: string, v: Value, w: Value)
    requires Lays(raw, v) && Lays(raw, w) && v.start == w.start && v.end == w.end
    ensures v == w
  {
    hide Lays;
    ValuesAlike(raw, v, w);
  }

  /** The whole text is one value, with nothing but space around it. */
  ghost predicate Document(raw: string, v: Value) {
    Lays(raw, v) && Blank(raw[..v.start]) && Blank(raw[v.end..])
  }

  /** A text is a document in one way at most. */
  lemma DocumentIsUnique(raw: string, v: Value, w: Value)
    requires Document(raw, v) && Document(raw, w)
    ensures v == w
  {
    hide Lays, Blank, Stops;
    ValueStarts(raw, v);
    ValueStarts(raw, w);
    assert raw[..v.start] == raw[0..v.start] && raw[..w.start] == raw[0..w.start];
    NoStopIsNoSpace(raw[v.start]);
    NoStopIsNoSpace(raw[w.start]);
    SpacesAlike(raw, 0, v.start, w.start);
    BlankEnds(raw, v.end);
    BlankEnds(raw, w.end);
    ValuesAlike(raw, v, w);
  }

  lemma NoStopIsNoSpace(c: char)
    requires !Stops(c)
    ensures !Space(c)
  {
  }

  lemma BlankEnds(raw: string, at: int)
    requires 0 <= at <= |raw| && Blank(raw[at..])
    ensures EndsAt(raw, at)
  {
    if at < |raw| {
      assert raw[at..][0] == raw[at];
    }
  }
}

/** Canonical JSON: sorted keys, no signed zero, no non-finite numbers.
    Models canonicalJson and sha256CanonicalJson of packages/core/src/v12UnlinkableSchemas.ts. The
    printing of strings and numbers and the comparison of keys are parameters. */
module CanonicalJson {
  import opened Wrappers
  import opened Utf8Text

  /** A JavaScript string. */
  type Text = seq<Unit>

  /** A JavaScript number: a finite one other than -0 by its 64-bit pattern, so that 0 is zero. */
  datatype JsNumber = Finite(pattern: nat) | MinusZero | NonFinite

  /** The entries of an object are in the order of Object.entries. */
  datatype Json =
    | Null
    | Bool(value: bool)
    | Num(number: JsNumber)
    | Str(text: Text)
    | Arr(items: seq<Json>)
    | Obj(entries: seq<Entry>)

  datatype Entry = Entry(key: Text, value: Json)

  datatype Printers = Printers(quote: Text -> Text, number: nat -> Text, compare: (Text, Text) -> int)

  datatype JsonError = NumberNotFinite

  const QUOTE: Unit := 0x22
  const COMMA: Unit := 0x2c
  const COLON: Unit := 0x3a
  const OPEN_BRACKET: Unit := 0x5b
  const CLOSE_BRACKET: Unit := 0x5d
  const OPEN_BRACE: Unit := 0x7b
  const CLOSE_BRACE: Unit := 0x7d
  const NULL_TEXT: Text := [0x6e, 0x75, 0x6c, 0x6c]
  const TRUE_TEXT: Text := [0x74, 0x72, 0x75, 0x65]
  const FALSE_TEXT: Text := [0x66, 0x61, 0x6c, 0x73, 0x65]

  /** The characters of a printed number. */
  predicate NumberUnit(c: Unit) {
    0x30 <= c <= 0x39 || c == 0x2d || c == 0x2b || c == 0x2e || c == 0x65
  }

  // What is assumed of the parameters.

  /** Printed strings start with a quote, and a text starts with at most one of them. */
  ghost predicate SelfDelimiting(quote: Text -> Text) {
    && (forall s: Text :: quote(s) != [] && quote(s)[0] == QUOTE)
    && (forall s: Text, t: Text, x: Text, y: Text :: quote(s) + x == quote(t) + y ==> s == t)
  }

  ghost predicate PrintsNumbers(number: nat -> Text) {
    && (forall a: nat :: number(a) != [] && forall c :: c in number(a) ==> NumberUnit(c))
    && (forall a: nat, b: nat :: number(a) == number(b) ==> a == b)
  }

  /** The comparison is a total preorder: what Array.prototype.sort needs. */
  ghost predicate Consistent(compare: (Text, Text) -> int) {
    && (forall a: Text, b: Text :: compare(a, b) <= 0 || compare(b, a) <= 0)
    && (forall a: Text, b: Text :: compare(a, b) < 0 <==> compare(b, a) > 0)
    && (forall a: Text, b: Text, c: Text :: compare(a, b) <= 0 && compare(b, c) <= 0 ==> compare(a, c) <= 0)
  }

  ghost predicate Good(p: Printers) {
    SelfDelimiting(p.quote) && PrintsNumbers(p.number) && Consistent(p.compare)
  }

  // Sorting the entries.

  function Insert(e: Entry, s: seq<Entry>, compare: (Text, Text) -> int): seq<Entry> {
    if s == [] || compare(e.key, s[0].key) <= 0 then [e] + s else [s[0]] + Insert(e, s[1..], compare)
  }

  /** The stable sort by key. */
  function Sort(s: seq<Entry>, compare: (Text, Text) -> int): seq<Entry> {
    if s == [] then [] else Insert(s[0], Sort(s[1..], compare), compare)
  }

  lemma {:induction false} InsertMembers(e: Entry, s: seq<Entry>, compare: (Text, Text) -> int)
    ensures multiset(Insert(e, s, compare)) == multiset(s) + multiset{e}
  {
    if s == [] || compare(e.key, s[0].key) <= 0 {
    } else {
      InsertMembers(e, s[1..], compare);
      assert s == [s[0]] + s[1..];
    }
  }

  /** Sorting only reorders. */
  lemma {:induction false} SortMembers(s: seq<Entry>, compare: (Text, Text) -> int)
    ensures multiset(Sort(s, compare)) == multiset(s)
  {
    if s == [] {
    } else {
      SortMembers(s[1..], compare);
      InsertMembers(s[0], Sort(s[1..], compare), compare);
      assert s == [s[0]] + s[1..];
    }
  }

  lemma SortSameEntries(s: seq<Entry>, compare: (Text, Text) -> int)
    ensures forall e :: e in Sort(s, compare) <==> e in s
  {
    SortMembers(s, compare);
    forall e
      ensures e in Sort(s, compare) <==> e in s
    {
      assert e in Sort(s, compare) <==> e in multiset(Sort(s, compare));
      assert e in s <==> e in multiset(s);
    }
  }

  predicate SortedBy(s: seq<Entry>, compare: (Text, Text) -> int) {
    forall i, j :: 0 <= i < j < |s| ==> compare(s[i].key, s[j].key) <= 0
  }

  /** A key is not after any of some entries. */
  predicate AtMostAll(key: Text, s: seq<Entry>, compare: (Text, Text) -> int) {
    forall f :: f in s ==> compare(key, f.key) <= 0
  }

  lemma SortedCons(e: Entry, s: seq<Entry>, compare: (Text, Text) -> int)
    requires AtMostAll(e.key, s, compare) && SortedBy(s, compare)
    ensures SortedBy([e] + s, compare)
  {
  }

  lemma SortedHead(s: seq<Entry>, compare: (Text, Text) -> int)
    requires s != [] && SortedBy(s, compare)
    ensures AtMostAll(s[0].key, s[1..], compare) && SortedBy(s[1..], compare)
  {
  }

  /** A key not after the first entry of a sorted list is not after any. */
  lemma BeforeHead(key: Text, s: seq<Entry>, compare: (Text, Text) -> int)
    requires Consistent(compare) && SortedBy(s, compare) && s != [] && compare(key, s[0].key) <= 0
    ensures AtMostAll(key, s, compare)
  {
  }

  lemma AtMostInserted(key: Text, e: Entry, s: seq<Entry>, compare: (Text, Text) -> int)
    requires AtMostAll(key, s, compare) && compare(key, e.key) <= 0
    ensures AtMostAll(key, Insert(e, s, compare), compare)
  {
  }

  lemma {:induction false} InsertSorted(e: Entry, s: seq<Entry>, compare: (Text, Text) -> int)
    requires Consistent(compare) && SortedBy(s, compare)
    ensures SortedBy(Insert(e, s, compare), compare)
  {
    if s == [] {
    } else if compare(e.key, s[0].key) <= 0 {
      BeforeHead(e.key, s, compare);
      SortedCons(e, s, compare);
    } else {
      SortedHead(s, compare);
      InsertSorted(e, s[1..], compare);
      AtMostInserted(s[0].key, e, s[1..], compare);
      SortedCons(s[0], Insert(e, s[1..], compare), compare);
    }
  }

  lemma {:induction false} SortSorted(s: seq<Entry>, compare: (Text, Text) -> int)
    requires Consistent(compare)
    ensures SortedBy(Sort(s, compare), compare)
  {
    if s == [] {
    } else {
      SortSorted(s[1..], compare);
      InsertSorted(s[0], Sort(s[1..], compare), compare);
    }
  }

  // The function.

  /** The value printed for a finite number: Object.is(value, -0) ? 0 : value. */
  function Printed(n: JsNumber): nat
    requires !n.NonFinite?
  {
    if n.MinusZero? then 0 else n.pattern
  }

  /** `texts.join(",")`. */
  function Join(texts: seq<Text>): Text {
    if texts == [] then []
    else if |texts| == 1 then texts[0]
    else texts[0] + [COMMA] + Join(texts[1..])
  }

  ghost predicate Below(s: seq<Entry>, whole: Json) {
    forall e :: e in s ==> e.value < whole
  }

  lemma SortBelow(entries: seq<Entry>, compare: (Text, Text) -> int)
    ensures Below(Sort(entries, compare), Obj(entries))
  {
    SortSameEntries(entries, compare);
  }

  function Canonical(v: Json, p: Printers): Result<Text, JsonError>
    decreases v, 1, 0
  {
    match v
    case Null => Success(NULL_TEXT)
    case Bool(b) => Success(if b then TRUE_TEXT else FALSE_TEXT)
    case Str(s) => Success(p.quote(s))
    case Num(n) => if n.NonFinite? then Failure(NumberNotFinite) else Success(p.number(Printed(n)))
    case Arr(items) => (
      match CanonicalItems(items, v, p)
      case Failure(e) => Failure(e)
      case Success(texts) => Success([OPEN_BRACKET] + Join(texts) + [CLOSE_BRACKET])
    )
    case Obj(entries) => (
      SortBelow(entries, p.compare);
      match CanonicalMembers(Sort(entries, p.compare), v, p)
      case Failure(e) => Failure(e)
      case Success(texts) => Success([OPEN_BRACE] + Join(texts) + [CLOSE_BRACE])
    )
  }

  function CanonicalItems(items: seq<Json>, ghost whole: Json, p: Printers): Result<seq<Text>, JsonError>
    requires forall i :: 0 <= i < |items| ==> items[i] < whole
    decreases whole, 0, |items|
  {
    if items == [] then Success([])
    else
      match Canonical(items[0], p)
      case Failure(e) => Failure(e)
      case Success(first) => (
        match CanonicalItems(items[1..], whole, p)
        case Failure(e) => Failure(e)
        case Success(rest) => Success([first] + rest)
      )
  }

  function CanonicalMembers(s: seq<Entry>, ghost whole: Json, p: Printers): Result<seq<Text>, JsonError>
    requires Below(s, whole)
    decreases whole, 0, |s|
  {
    if s == [] then Success([])
    else
      match Canonical(s[0].value, p)
      case Failure(e) => Failure(e)
      case Success(first) => (
        match CanonicalMembers(s[1..], whole, p)
        case Failure(e) => Failure(e)
        case Success(rest) => Success([p.quote(s[0].key) + [COLON] + first] + rest)
      )
  }
}

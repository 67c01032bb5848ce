/** What canonical JSON text means: two values have the same text exactly when they are equal up to
    the order of keys and the sign of zero. About canonicalJson of packages/core/src/v12UnlinkableSchemas.ts. */
module CanonicalMeaning {
  import opened Wrappers
  import opened Collections
  import opened CanonicalJson
  import opened Utf8Text

  /** No number in the value is infinite or not a number. */
  predicate AllFinite(v: Json) {
    match v
    case Num(n) => !n.NonFinite?
    case Arr(items) => forall i :: 0 <= i < |items| ==> AllFinite(items[i])
    case Obj(entries) => forall i :: 0 <= i < |entries| ==> AllFinite(entries[i].value)
    case _ => true
  }

  predicate DistinctKeys(s: seq<Entry>) {
    forall i, j :: 0 <= i < j < |s| ==> s[i].key != s[j].key
  }

  /** As JavaScript objects, no object repeats a key. */
  predicate WellKeyed(v: Json) {
    match v
    case Arr(items) => forall i :: 0 <= i < |items| ==> WellKeyed(items[i])
    case Obj(entries) => DistinctKeys(entries) && forall i :: 0 <= i < |entries| ==> WellKeyed(entries[i].value)
    case _ => true
  }

  predicate SameNumber(a: JsNumber, b: JsNumber) {
    if a.NonFinite? || b.NonFinite? then a == b else Printed(a) == Printed(b)
  }

  /** Equal up to the order of keys and the sign of zero. */
  ghost predicate Same(v: Json, w: Json) {
    match (v, w)
    case (Null, Null) => true
    case (Bool(a), Bool(b)) => a == b
    case (Num(a), Num(b)) => SameNumber(a, b)
    case (Str(a), Str(b)) => a == b
    case (Arr(a), Arr(b)) => |a| == |b| && forall i :: 0 <= i < |a| ==> Same(a[i], b[i])
    case (Obj(a), Obj(b)) =>
      (forall i :: 0 <= i < |a| ==> HasSame(a[i], b)) && (forall j :: 0 <= j < |b| ==> HasKey(a, b[j].key))
    case _ => false
  }

  ghost predicate HasSame(e: Entry, b: seq<Entry>) {
    exists j :: 0 <= j < |b| && e.key == b[j].key && Same(e.value, b[j].value)
  }

  ghost predicate HasKey(a: seq<Entry>, key: Text) {
    exists i :: 0 <= i < |a| && a[i].key == key
  }

  // When the function throws.

  /** The texts of a list of values, unless one of them fails. */
  ghost predicate TextsOf(r: Result<seq<Text>, JsonError>, items: seq<Json>, p: Printers) {
    && (r.Success? <==> forall i :: 0 <= i < |items| ==> Canonical(items[i], p).Success?)
    && (r.Success? ==> |r.value| == |items|)
    && (r.Success? ==> forall i :: 0 <= i < |items| ==> r.value[i] == Canonical(items[i], p).value)
  }

  lemma {:induction false} ItemsOutcome(items: seq<Json>, whole: Json, p: Printers)
    requires forall i :: 0 <= i < |items| ==> items[i] < whole
    ensures TextsOf(CanonicalItems(items, whole, p), items, p)
  {
    if items != [] {
      ItemsOutcome(items[1..], whole, p);
      assert items == [items[0]] + items[1..];
    }
  }

  function MemberText(key: Text, value: Text, p: Printers): Text {
    p.quote(key) + [COLON] + value
  }

  ghost predicate MembersOf(r: Result<seq<Text>, JsonError>, s: seq<Entry>, p: Printers) {
    && (r.Success? <==> forall i :: 0 <= i < |s| ==> Canonical(s[i].value, p).Success?)
    && (r.Success? ==> |r.value| == |s|)
    && (r.Success? ==>
      forall i :: 0 <= i < |s| ==> r.value[i] == MemberText(s[i].key, Canonical(s[i].value, p).value, p))
  }

  lemma {:induction false} MembersOutcome(s: seq<Entry>, whole: Json, p: Printers)
    requires Below(s, whole)
    ensures MembersOf(CanonicalMembers(s, whole, p), s, p)
  {
    if s != [] {
      MembersOutcome(s[1..], whole, p);
      assert s == [s[0]] + s[1..];
    }
  }

  /** The function throws exactly on a number that is not finite, at any depth. */
  lemma {:induction false} SucceedsIffFinite(v: Json, p: Printers)
    ensures Canonical(v, p).Success? <==> AllFinite(v)
  {
    match v
    case Arr(items) =>
      ItemsOutcome(items, v, p);
      forall i | 0 <= i < |items|
        ensures Canonical(items[i], p).Success? <==> AllFinite(items[i])
      {
        SucceedsIffFinite(items[i], p);
      }
    case Obj(entries) =>
      var s := Sort(entries, p.compare);
      SortBelow(entries, p.compare);
      MembersOutcome(s, v, p);
      SortSameEntries(entries, p.compare);
      forall i | 0 <= i < |entries|
        ensures Canonical(entries[i].value, p).Success? <==> AllFinite(entries[i].value)
      {
        SucceedsIffFinite(entries[i].value, p);
      }
      assert forall e :: e in entries ==> (Canonical(e.value, p).Success? <==> AllFinite(e.value));
      assert forall i :: 0 <= i < |entries| ==> entries[i] in s;
      assert forall i :: 0 <= i < |s| ==> s[i] in entries;
    case _ =>
  }

  function TextOf(v: Json, p: Printers): Text
    requires AllFinite(v)
  {
    SucceedsIffFinite(v, p);
    Canonical(v, p).value
  }

  function ItemTexts(items: seq<Json>, p: Printers): (texts: seq<Text>)
    requires forall i :: 0 <= i < |items| ==> AllFinite(items[i])
  {
    seq(|items|, i requires 0 <= i < |items| => TextOf(items[i], p))
  }

  predicate FiniteEntries(s: seq<Entry>) {
    forall i :: 0 <= i < |s| ==> AllFinite(s[i].value)
  }

  function MemberTexts(s: seq<Entry>, p: Printers): (texts: seq<Text>)
    requires FiniteEntries(s)
  {
    seq(|s|, i requires 0 <= i < |s| => MemberText(s[i].key, TextOf(s[i].value, p), p))
  }

  lemma TextOfArr(items: seq<Json>, p: Printers)
    requires AllFinite(Arr(items))
    ensures TextOf(Arr(items), p) == [OPEN_BRACKET] + Join(ItemTexts(items, p)) + [CLOSE_BRACKET]
  {
    ItemsOutcome(items, Arr(items), p);
    SucceedsIffFinite(Arr(items), p);
    assert CanonicalItems(items, Arr(items), p).value == ItemTexts(items, p);
  }

  lemma SortedFinite(entries: seq<Entry>, p: Printers)
    requires FiniteEntries(entries)
    ensures FiniteEntries(Sort(entries, p.compare))
  {
    var s := Sort(entries, p.compare);
    SortSameEntries(entries, p.compare);
    assert forall i :: 0 <= i < |s| ==> s[i] in entries;
  }

  lemma TextOfObj(entries: seq<Entry>, p: Printers)
    requires FiniteEntries(entries)
    ensures AllFinite(Obj(entries)) && FiniteEntries(Sort(entries, p.compare))
    ensures TextOf(Obj(entries), p)
         == [OPEN_BRACE] + Join(MemberTexts(Sort(entries, p.compare), p)) + [CLOSE_BRACE]
  {
    var v, s := Obj(entries), Sort(entries, p.compare);
    SortedFinite(entries, p);
    SortBelow(entries, p.compare);
    MembersOutcome(s, v, p);
    SucceedsIffFinite(v, p);
    assert CanonicalMembers(s, v, p).value == MemberTexts(s, p);
  }

  // Texts can be told apart.

  /** What may follow a value inside a text. */
  predicate Terminated(x: Text) {
    x == [] || x[0] == COMMA || x[0] == CLOSE_BRACKET || x[0] == CLOSE_BRACE
  }

  /** Two texts that can be told apart even when more text follows. */
  ghost predicate Splits(s: Text, t: Text) {
    forall x: Text, y: Text :: Terminated(x) && Terminated(y) && s + x == t + y ==> s == t
  }

  lemma SplitsAt(s: Text, t: Text, x: Text, y: Text)
    requires Splits(s, t) && Terminated(x) && Terminated(y) && s + x == t + y
    ensures s == t && x == y
  {
    assert s == t;
    assert (s + x)[|s|..] == x && (t + y)[|t|..] == y;
  }

  lemma StripFirst(c: Unit, d: Unit, x: Text, y: Text)
    requires [c] + x == [d] + y
    ensures c == d && x == y
  {
    assert ([c] + x)[0] == c && ([d] + y)[0] == d;
    assert ([c] + x)[1..] == x && ([d] + y)[1..] == y;
  }

  /** How the text of a value starts. */
  predicate StartsAs(v: Json, c: Unit) {
    match v
    case Null => c == 0x6e
    case Bool(b) => c == if b then 0x74 else 0x66
    case Num(_) => NumberUnit(c)
    case Str(_) => c == QUOTE
    case Arr(_) => c == OPEN_BRACKET
    case Obj(_) => c == OPEN_BRACE
  }

  lemma FirstUnit(v: Json, p: Printers)
    requires Good(p) && AllFinite(v)
    ensures TextOf(v, p) != [] && StartsAs(v, TextOf(v, p)[0])
  {
    match v
    case Arr(items) => TextOfArr(items, p);
    case Obj(entries) => TextOfObj(entries, p);
    case _ =>
  }

  /** The text of a list with its closing bracket and what follows. */
  function Closed(texts: seq<Text>, close: Unit, x: Text): Text {
    Join(texts) + [close] + x
  }

  /** What follows the first text of a list. */
  function AfterFirst(texts: seq<Text>, close: Unit, x: Text): Text {
    if texts == [] then [close] + x else [COMMA] + Closed(texts, close, x)
  }

  lemma ClosedSplit(texts: seq<Text>, close: Unit, x: Text)
    requires texts != []
    ensures Closed(texts, close, x) == texts[0] + AfterFirst(texts[1..], close, x)
  {
  }

  ghost predicate NoneStartsWith(texts: seq<Text>, close: Unit) {
    forall i :: 0 <= i < |texts| ==> texts[i] != [] && texts[i][0] != close
  }

  ghost predicate AllSplit(a: seq<Text>, b: seq<Text>) {
    forall i, j :: 0 <= i < |a| && 0 <= j < |b| ==> Splits(a[i], b[j])
  }

  /** A list can be read back from its joined text. */
  lemma {:induction false} ListSplits(a: seq<Text>, b: seq<Text>, close: Unit, x: Text, y: Text)
    requires close == CLOSE_BRACKET || close == CLOSE_BRACE
    requires NoneStartsWith(a, close) && NoneStartsWith(b, close) && AllSplit(a, b)
    requires Closed(a, close, x) == Closed(b, close, y)
    ensures a == b && x == y
    decreases |a|, 1
  {
    if a == [] || b == [] {
      EmptyListSplits(a, b, close, x, y);
    } else {
      ClosedSplit(a, close, x);
      ClosedSplit(b, close, y);
      SplitsAt(a[0], b[0], AfterFirst(a[1..], close, x), AfterFirst(b[1..], close, y));
      RestSplits(a, b, close, x, y);
      assert a == [a[0]] + a[1..] && b == [b[0]] + b[1..];
    }
  }

  lemma FirstOfClosed(texts: seq<Text>, close: Unit, x: Text)
    requires NoneStartsWith(texts, close)
    ensures Closed(texts, close, x) != []
    ensures Closed(texts, close, x)[0] == if texts == [] then close else texts[0][0]
  {
  }

  lemma EmptyListSplits(a: seq<Text>, b: seq<Text>, close: Unit, x: Text, y: Text)
    requires a == [] || b == []
    requires NoneStartsWith(a, close) && NoneStartsWith(b, close)
    requires Closed(a, close, x) == Closed(b, close, y)
    ensures a == b && x == y
  {
    FirstOfClosed(a, close, x);
    FirstOfClosed(b, close, y);
    assert a == [] && b == [];
    assert [] + [close] + x == [close] + x && [] + [close] + y == [close] + y;
    StripFirst(close, close, x, y);
  }

  lemma {:induction false} RestSplits(a: seq<Text>, b: seq<Text>, close: Unit, x: Text, y: Text)
    requires a != [] && b != [] && (close == CLOSE_BRACKET || close == CLOSE_BRACE)
    requires NoneStartsWith(a, close) && NoneStartsWith(b, close) && AllSplit(a, b)
    requires AfterFirst(a[1..], close, x) == AfterFirst(b[1..], close, y)
    ensures a[1..] == b[1..] && x == y
    decreases |a|, 0
  {
    if a[1..] == [] && b[1..] == [] {
      StripFirst(close, close, x, y);
    } else if a[1..] == [] {
      StripFirst(close, COMMA, x, Closed(b[1..], close, y));
      assert false;
    } else if b[1..] == [] {
      StripFirst(COMMA, close, Closed(a[1..], close, x), y);
      assert false;
    } else {
      StripFirst(COMMA, COMMA, Closed(a[1..], close, x), Closed(b[1..], close, y));
      ListSplits(a[1..], b[1..], close, x, y);
    }
  }

  lemma NextUnit(s: Text, t: Text, x: Text, y: Text)
    requires |s| < |t| && s + x == t + y
    ensures x != [] && x[0] == t[|s|] && x[0] in t
  {
    assert (s + x)[|s|] == x[0] && (t + y)[|s|] == t[|s|];
  }

  lemma NumberNotShorter(s: Text, t: Text, x: Text, y: Text)
    requires forall c :: c in t ==> NumberUnit(c)
    requires Terminated(x) && s + x == t + y
    ensures |s| >= |t|
  {
    if |s| < |t| {
      NextUnit(s, t, x, y);
    }
  }

  lemma NumberSplits(s: Text, t: Text, x: Text, y: Text)
    requires (forall c :: c in s ==> NumberUnit(c)) && (forall c :: c in t ==> NumberUnit(c))
    requires Terminated(x) && Terminated(y) && s + x == t + y
    ensures s == t
  {
    NumberNotShorter(s, t, x, y);
    NumberNotShorter(t, s, y, x);
    assert (s + x)[..|s|] == s && (t + y)[..|t|] == t;
  }

  lemma MemberSplits(k: Text, v: Text, l: Text, w: Text, x: Text, y: Text, p: Printers)
    requires Good(p) && MemberText(k, v, p) + x == MemberText(l, w, p) + y
    ensures k == l && v + x == w + y
  {
    ConcatAssociates(p.quote(k), [COLON] + v, x);
    ConcatAssociates(p.quote(l), [COLON] + w, y);
    ConcatAssociates(p.quote(k), [COLON], v);
    ConcatAssociates(p.quote(l), [COLON], w);
    assert k == l;
    assert (MemberText(k, v, p) + x)[|p.quote(k)|..] == [COLON] + v + x;
    assert (MemberText(l, w, p) + y)[|p.quote(l)|..] == [COLON] + w + y;
    ConcatAssociates([COLON], v, x);
    ConcatAssociates([COLON], w, y);
    StripFirst(COLON, COLON, v + x, w + y);
  }

  lemma ItemsStart(items: seq<Json>, p: Printers)
    requires Good(p) && AllFinite(Arr(items))
    ensures NoneStartsWith(ItemTexts(items, p), CLOSE_BRACKET)
  {
    forall i | 0 <= i < |items|
      ensures TextOf(items[i], p) != [] && TextOf(items[i], p)[0] != CLOSE_BRACKET
    {
      FirstUnit(items[i], p);
    }
  }

  lemma MembersStart(s: seq<Entry>, p: Printers)
    requires Good(p) && FiniteEntries(s)
    ensures NoneStartsWith(MemberTexts(s, p), CLOSE_BRACE)
  {
  }

  /** The text of a value can be told apart from any other, whatever follows. */
  lemma {:induction false} TextSplits(v: Json, w: Json, p: Printers)
    requires Good(p) && AllFinite(v) && AllFinite(w)
    ensures Splits(TextOf(v, p), TextOf(w, p))
    decreases v, 2
  {
    forall x: Text, y: Text | Terminated(x) && Terminated(y) && TextOf(v, p) + x == TextOf(w, p) + y
      ensures TextOf(v, p) == TextOf(w, p)
    {
      FirstUnit(v, p);
      FirstUnit(w, p);
      assert (TextOf(v, p) + x)[0] == TextOf(v, p)[0] && (TextOf(w, p) + y)[0] == TextOf(w, p)[0];
      match v
      case Num(_) => NumberSplits(TextOf(v, p), TextOf(w, p), x, y);
      case Str(_) => assert p.quote(v.text) + x == p.quote(w.text) + y;
      case Arr(_) =>
        ArrSplits(v.items, w.items, x, y, p);
        TextOfArr(v.items, p);
        TextOfArr(w.items, p);
      case Obj(_) =>
        ObjSplits(v.entries, w.entries, x, y, p);
        TextOfObj(v.entries, p);
        TextOfObj(w.entries, p);
      case _ =>
    }
  }

  lemma {:induction false} ArrSplits(a: seq<Json>, b: seq<Json>, x: Text, y: Text, p: Printers)
    requires Good(p) && AllFinite(Arr(a)) && AllFinite(Arr(b))
    requires TextOf(Arr(a), p) + x == TextOf(Arr(b), p) + y
    ensures ItemTexts(a, p) == ItemTexts(b, p)
    decreases Arr(a), 1
  {
    var s, t := ItemTexts(a, p), ItemTexts(b, p);
    forall i, j | 0 <= i < |s| && 0 <= j < |t|
      ensures Splits(s[i], t[j])
    {
      TextSplits(a[i], b[j], p);
    }
    ItemsStart(a, p);
    ItemsStart(b, p);
    TextOfArr(a, p);
    TextOfArr(b, p);
    OpenedSplits(OPEN_BRACKET, s, t, CLOSE_BRACKET, x, y);
  }

  /** A bracketed list can be read back. */
  lemma OpenedSplits(open: Unit, s: seq<Text>, t: seq<Text>, close: Unit, x: Text, y: Text)
    requires close == CLOSE_BRACKET || close == CLOSE_BRACE
    requires NoneStartsWith(s, close) && NoneStartsWith(t, close) && AllSplit(s, t)
    requires [open] + Join(s) + [close] + x == [open] + Join(t) + [close] + y
    ensures s == t
  {
    assert [open] + Join(s) + [close] + x == [open] + Closed(s, close, x);
    assert [open] + Join(t) + [close] + y == [open] + Closed(t, close, y);
    StripFirst(open, open, Closed(s, close, x), Closed(t, close, y));
    ListSplits(s, t, close, x, y);
  }

  lemma {:induction false} ObjSplits(a: seq<Entry>, b: seq<Entry>, x: Text, y: Text, p: Printers)
    requires Good(p) && FiniteEntries(a) && FiniteEntries(b)
    requires AllFinite(Obj(a)) && AllFinite(Obj(b)) && TextOf(Obj(a), p) + x == TextOf(Obj(b), p) + y
    ensures FiniteEntries(Sort(a, p.compare)) && FiniteEntries(Sort(b, p.compare))
    ensures MemberTexts(Sort(a, p.compare), p) == MemberTexts(Sort(b, p.compare), p)
    decreases Obj(a), 1
  {
    var m, n := Sort(a, p.compare), Sort(b, p.compare);
    TextOfObj(a, p);
    TextOfObj(b, p);
    SortBelow(a, p.compare);
    var s, t := MemberTexts(m, p), MemberTexts(n, p);
    forall i, j | 0 <= i < |s| && 0 <= j < |t|
      ensures Splits(s[i], t[j])
    {
      assert m[i] in m;
      TextSplits(m[i].value, n[j].value, p);
      MemberTextsSplit(m[i], n[j], p);
    }
    MembersStart(m, p);
    MembersStart(n, p);
    OpenedSplits(OPEN_BRACE, s, t, CLOSE_BRACE, x, y);
  }

  lemma MemberTextsSplit(e: Entry, f: Entry, p: Printers)
    requires Good(p) && AllFinite(e.value) && AllFinite(f.value)
    requires Splits(TextOf(e.value, p), TextOf(f.value, p))
    ensures Splits(MemberText(e.key, TextOf(e.value, p), p), MemberText(f.key, TextOf(f.value, p), p))
  {
    var v, w := TextOf(e.value, p), TextOf(f.value, p);
    forall x: Text, y: Text | Terminated(x) && Terminated(y) && MemberText(e.key, v, p) + x == MemberText(f.key, w, p) + y
      ensures MemberText(e.key, v, p) == MemberText(f.key, w, p)
    {
      MemberSplits(e.key, v, f.key, w, x, y, p);
    }
  }

  /** Values with the same text are the same value. */
  lemma {:induction false} EqualTextsAreSame(v: Json, w: Json, p: Printers)
    requires Good(p) && AllFinite(v) && AllFinite(w) && TextOf(v, p) == TextOf(w, p)
    ensures Same(v, w)
    decreases v, 2
  {
    FirstUnit(v, p);
    FirstUnit(w, p);
    match v
    case Num(a) => assert p.number(Printed(a)) == p.number(Printed(w.number));
    case Str(a) => assert p.quote(a) + [] == p.quote(w.text) + [];
    case Arr(a) =>
      ArrSplits(a, w.items, [], [], p);
      forall i | 0 <= i < |a|
        ensures Same(a[i], w.items[i])
      {
        assert ItemTexts(a, p)[i] == ItemTexts(w.items, p)[i];
        EqualTextsAreSame(a[i], w.items[i], p);
      }
    case Obj(a) =>
      ObjSplits(a, w.entries, [], [], p);
      EqualMembersAreSame(a, w.entries, p);
    case _ =>
  }

  lemma {:induction false} EqualMembersAreSame(a: seq<Entry>, b: seq<Entry>, p: Printers)
    requires Good(p) && FiniteEntries(a) && FiniteEntries(b)
    requires FiniteEntries(Sort(a, p.compare)) && FiniteEntries(Sort(b, p.compare))
    requires MemberTexts(Sort(a, p.compare), p) == MemberTexts(Sort(b, p.compare), p)
    ensures Same(Obj(a), Obj(b))
    decreases Obj(a), 1
  {
    var m, n := Sort(a, p.compare), Sort(b, p.compare);
    SortSameEntries(a, p.compare);
    SortSameEntries(b, p.compare);
    SortBelow(a, p.compare);
    assert |m| == |MemberTexts(m, p)| && |n| == |MemberTexts(n, p)|;
    forall k | 0 <= k < |m|
      ensures m[k].key == n[k].key && Same(m[k].value, n[k].value)
    {
      var s, t := MemberTexts(m, p)[k], MemberTexts(n, p)[k];
      MemberSplits(m[k].key, TextOf(m[k].value, p), n[k].key, TextOf(n[k].value, p), [], [], p);
      assert TextOf(m[k].value, p) + [] == TextOf(m[k].value, p) && TextOf(n[k].value, p) + [] == TextOf(n[k].value, p);
      assert m[k] in m;
      EqualTextsAreSame(m[k].value, n[k].value, p);
    }
    AlignedAreSame(a, b, m, n);
  }

  /** Lists that agree place by place, however they were ordered before, are the same object. */
  lemma AlignedAreSame(a: seq<Entry>, b: seq<Entry>, m: seq<Entry>, n: seq<Entry>)
    requires (forall e :: e in m <==> e in a) && (forall e :: e in n <==> e in b) && |m| == |n|
    requires forall k :: 0 <= k < |m| ==> m[k].key == n[k].key && Same(m[k].value, n[k].value)
    ensures Same(Obj(a), Obj(b))
  {
    forall i | 0 <= i < |a|
      ensures HasSame(a[i], b)
    {
      assert a[i] in m;
      var k :| 0 <= k < |m| && m[k] == a[i];
      assert n[k] in b;
      var j :| 0 <= j < |b| && b[j] == n[k];
      assert a[i].key == b[j].key && Same(a[i].value, b[j].value);
    }
    forall j | 0 <= j < |b|
      ensures HasKey(a, b[j].key)
    {
      assert b[j] in n;
      var k :| 0 <= k < |n| && n[k] == b[j];
      assert m[k] in a;
      var i :| 0 <= i < |a| && a[i] == m[k];
      assert a[i].key == b[j].key;
    }
  }

  // The same value has the same text.

  function Keys(s: seq<Entry>): seq<Text> {
    seq(|s|, i requires 0 <= i < |s| => s[i].key)
  }

  predicate SortedKeys(k: seq<Text>, compare: (Text, Text) -> int) {
    forall i, j :: 0 <= i < j < |k| ==> compare(k[i], k[j]) <= 0
  }

  predicate Distinct(k: seq<Text>) {
    forall i, j :: 0 <= i < j < |k| ==> k[i] != k[j]
  }

  /** No two different keys of a list compare equal. */
  predicate NoneTied(k: seq<Text>, compare: (Text, Text) -> int) {
    forall i, j :: 0 <= i < |k| && 0 <= j < |k| && compare(k[i], k[j]) == 0 ==> k[i] == k[j]
  }

  /** No object at any depth holds two different keys that compare equal. */
  predicate NoTies(v: Json, compare: (Text, Text) -> int) {
    match v
    case Arr(items) => forall i :: 0 <= i < |items| ==> NoTies(items[i], compare)
    case Obj(entries) =>
      NoneTied(Keys(entries), compare) && forall i :: 0 <= i < |entries| ==> NoTies(entries[i].value, compare)
    case _ => true
  }

  /** Two sorted lists of the same keys are the same list, when no two of the keys are tied. */
  lemma {:induction false} SortedKeysAlign(k: seq<Text>, l: seq<Text>, compare: (Text, Text) -> int)
    requires Consistent(compare) && NoneTied(k, compare)
    requires SortedKeys(k, compare) && SortedKeys(l, compare) && Distinct(k) && Distinct(l)
    requires forall key :: key in k <==> key in l
    ensures k == l
  {
    SameKeysEmpty(k, l);
    if k == [] {
    } else {
      assert k[0] in l;
      LeastKeys(k, l, compare);
      forall key
        ensures key in k[1..] <==> key in l[1..]
      {
        assert key in k[1..] <==> key in k && key != k[0];
        assert key in l[1..] <==> key in l && key != l[0];
      }
      SortedKeysAlign(k[1..], l[1..], compare);
      assert k == [k[0]] + k[1..] && l == [l[0]] + l[1..];
    }
  }

  lemma SameKeysEmpty(k: seq<Text>, l: seq<Text>)
    requires forall key :: key in k <==> key in l
    ensures k == [] <==> l == []
  {
    if k != [] {
      assert k[0] in l;
    }
    if l != [] {
      assert l[0] in k;
    }
  }

  lemma LeastKeys(k: seq<Text>, l: seq<Text>, compare: (Text, Text) -> int)
    requires Consistent(compare) && NoneTied(k, compare)
    requires SortedKeys(k, compare) && SortedKeys(l, compare) && k != [] && l != []
    requires forall key :: key in k <==> key in l
    ensures k[0] == l[0]
  {
    assert k[0] in l && l[0] in k;
    var i :| 0 <= i < |k| && k[i] == l[0];
    var j :| 0 <= j < |l| && l[j] == k[0];
    if i > 0 && j > 0 {
      assert compare(k[0], k[i]) <= 0 && compare(l[0], l[j]) <= 0;
      assert compare(k[0], l[0]) == 0;
    }
  }

  predicate FreshKey(key: Text, s: seq<Entry>) {
    forall e :: e in s ==> e.key != key
  }

  lemma FreshInserted(key: Text, e: Entry, s: seq<Entry>, compare: (Text, Text) -> int)
    requires FreshKey(key, s) && key != e.key
    ensures FreshKey(key, Insert(e, s, compare))
  {
  }

  lemma DistinctCons(e: Entry, s: seq<Entry>)
    requires DistinctKeys(s) && FreshKey(e.key, s)
    ensures DistinctKeys([e] + s)
  {
  }

  lemma DistinctHead(s: seq<Entry>)
    requires DistinctKeys(s) && s != []
    ensures DistinctKeys(s[1..]) && FreshKey(s[0].key, s[1..])
  {
  }

  lemma {:induction false} InsertDistinct(e: Entry, s: seq<Entry>, compare: (Text, Text) -> int)
    requires DistinctKeys(s) && FreshKey(e.key, s)
    ensures DistinctKeys(Insert(e, s, compare))
  {
    if s == [] || compare(e.key, s[0].key) <= 0 {
      DistinctCons(e, s);
    } else {
      DistinctHead(s);
      InsertDistinct(e, s[1..], compare);
      FreshInserted(s[0].key, e, s[1..], compare);
      DistinctCons(s[0], Insert(e, s[1..], compare));
    }
  }

  lemma {:induction false} SortDistinct(s: seq<Entry>, compare: (Text, Text) -> int)
    requires DistinctKeys(s)
    ensures DistinctKeys(Sort(s, compare))
  {
    if s == [] {
    } else {
      DistinctHead(s);
      SortDistinct(s[1..], compare);
      SortSameEntries(s[1..], compare);
      InsertDistinct(s[0], Sort(s[1..], compare), compare);
    }
  }

  lemma SameObjectsSameKeys(a: seq<Entry>, b: seq<Entry>)
    requires Same(Obj(a), Obj(b))
    ensures forall key :: HasKey(a, key) <==> HasKey(b, key)
  {
    forall key
      ensures HasKey(a, key) <==> HasKey(b, key)
    {
      if HasKey(a, key) {
        var i :| 0 <= i < |a| && a[i].key == key;
        assert HasSame(a[i], b);
      }
      if HasKey(b, key) {
        var j :| 0 <= j < |b| && b[j].key == key;
        assert HasKey(a, b[j].key);
      }
    }
  }

  /** Sorting two objects that are the same lines their entries up. */
  lemma SortsAlign(a: seq<Entry>, b: seq<Entry>, p: Printers)
    requires Good(p) && NoneTied(Keys(a), p.compare) && DistinctKeys(a) && DistinctKeys(b) && Same(Obj(a), Obj(b))
    ensures Keys(Sort(a, p.compare)) == Keys(Sort(b, p.compare))
  {
    SortSorted(a, p.compare);
    SortSorted(b, p.compare);
    SortDistinct(a, p.compare);
    SortDistinct(b, p.compare);
    KeysOfSort(a, p.compare);
    KeysOfSort(b, p.compare);
    SameObjectsSameKeys(a, b);
    SortNoneTied(a, p.compare);
    SortedKeysAlign(Keys(Sort(a, p.compare)), Keys(Sort(b, p.compare)), p.compare);
  }

  lemma SortNoneTied(a: seq<Entry>, compare: (Text, Text) -> int)
    requires NoneTied(Keys(a), compare)
    ensures NoneTied(Keys(Sort(a, compare)), compare)
  {
    var k := Keys(Sort(a, compare));
    KeysOfSort(a, compare);
    forall i, j | 0 <= i < |k| && 0 <= j < |k| && compare(k[i], k[j]) == 0
      ensures k[i] == k[j]
    {
      assert HasKey(a, k[i]) && HasKey(a, k[j]);
      var x :| 0 <= x < |a| && a[x].key == k[i];
      var y :| 0 <= y < |a| && a[y].key == k[j];
      assert Keys(a)[x] == k[i] && Keys(a)[y] == k[j];
    }
  }

  lemma KeysOfSort(a: seq<Entry>, compare: (Text, Text) -> int)
    ensures forall key :: key in Keys(Sort(a, compare)) <==> HasKey(a, key)
  {
    var m := Sort(a, compare);
    SortSameEntries(a, compare);
    forall key
      ensures key in Keys(m) <==> HasKey(a, key)
    {
      if key in Keys(m) {
        var i :| 0 <= i < |m| && Keys(m)[i] == key;
        assert m[i] in a;
      }
      if HasKey(a, key) {
        var i :| 0 <= i < |a| && a[i].key == key;
        assert a[i] in m;
        var j :| 0 <= j < |m| && m[j] == a[i];
        assert Keys(m)[j] == key;
      }
    }
  }

  /** The same value, up to key order and signed zero, has the same text. */
  lemma {:induction false} SameHasEqualTexts(v: Json, w: Json, p: Printers)
    requires Good(p) && NoTies(v, p.compare) && AllFinite(v) && AllFinite(w) && WellKeyed(v) && WellKeyed(w)
    requires Same(v, w)
    ensures TextOf(v, p) == TextOf(w, p)
    decreases v, 2
  {
    match v
    case Arr(a) =>
      forall i | 0 <= i < |a|
        ensures TextOf(a[i], p) == TextOf(w.items[i], p)
      {
        SameHasEqualTexts(a[i], w.items[i], p);
      }
      TextOfArr(a, p);
      TextOfArr(w.items, p);
      assert ItemTexts(a, p) == ItemTexts(w.items, p);
    case Obj(a) => SameMembersHaveEqualTexts(a, w.entries, p);
    case _ =>
  }

  lemma {:induction false} SameMembersHaveEqualTexts(a: seq<Entry>, b: seq<Entry>, p: Printers)
    requires Good(p) && NoTies(Obj(a), p.compare) && AllFinite(Obj(a)) && AllFinite(Obj(b))
    requires WellKeyed(Obj(a)) && WellKeyed(Obj(b)) && Same(Obj(a), Obj(b))
    ensures TextOf(Obj(a), p) == TextOf(Obj(b), p)
    decreases Obj(a), 1
  {
    var m, n := Sort(a, p.compare), Sort(b, p.compare);
    SortsAlign(a, b, p);
    TextOfObj(a, p);
    TextOfObj(b, p);
    SortBelow(a, p.compare);
    assert |m| == |Keys(m)| && |n| == |Keys(n)|;
    forall k | 0 <= k < |m|
      ensures MemberTexts(m, p)[k] == MemberTexts(n, p)[k]
    {
      assert Keys(m)[k] == m[k].key && Keys(n)[k] == n[k].key;
      assert m[k] in m;
      AlignedEntryIsSame(a, b, m[k], n[k], p);
      SortSameEntries(a, p.compare);
      assert m[k] in a;
      SameHasEqualTexts(m[k].value, n[k].value, p);
    }
    assert MemberTexts(m, p) == MemberTexts(n, p);
  }

  /** With distinct keys, entries of the same key hold the same value. */
  lemma AlignedEntryIsSame(a: seq<Entry>, b: seq<Entry>, e: Entry, f: Entry, p: Printers)
    requires WellKeyed(Obj(a)) && WellKeyed(Obj(b)) && Same(Obj(a), Obj(b))
    requires e in Sort(a, p.compare) && f in Sort(b, p.compare) && e.key == f.key
    ensures Same(e.value, f.value) && WellKeyed(e.value) && WellKeyed(f.value)
  {
    SortSameEntries(a, p.compare);
    SortSameEntries(b, p.compare);
    var i :| 0 <= i < |a| && a[i] == e;
    assert HasSame(a[i], b);
    var j :| 0 <= j < |b| && e.key == b[j].key && Same(e.value, b[j].value);
    var k :| 0 <= k < |b| && b[k] == f;
    assert j == k;
  }

  // A value with tied keys has another text too.

  lemma {:induction false} SameReflexive(v: Json)
    ensures Same(v, v)
  {
    match v
    case Arr(a) =>
      forall i | 0 <= i < |a|
        ensures Same(a[i], a[i])
      {
        SameReflexive(a[i]);
      }
    case Obj(a) =>
      forall i | 0 <= i < |a|
        ensures HasSame(a[i], a) && HasKey(a, a[i].key)
      {
        SameReflexive(a[i].value);
        assert a[i].key == a[i].key && Same(a[i].value, a[i].value);
      }
    case _ =>
  }

  /** One key comes before another in a list of entries. */
  ghost predicate KeyBefore(s: seq<Entry>, k: Text, l: Text) {
    exists i, j :: 0 <= i < j < |s| && s[i].key == k && s[j].key == l
  }

  lemma KeyBeforeTail(e: Entry, s: seq<Entry>, k: Text, l: Text)
    requires KeyBefore(s, k, l)
    ensures KeyBefore([e] + s, k, l)
  {
    var i, j :| 0 <= i < j < |s| && s[i].key == k && s[j].key == l;
    assert ([e] + s)[i + 1].key == k && ([e] + s)[j + 1].key == l;
  }

  lemma KeyBeforeHead(e: Entry, s: seq<Entry>, f: Entry)
    requires f in s
    ensures KeyBefore([e] + s, e.key, f.key)
  {
    var j :| 0 <= j < |s| && s[j] == f;
    assert ([e] + s)[0].key == e.key && ([e] + s)[j + 1].key == f.key;
  }

  lemma InsertSameEntries(e: Entry, s: seq<Entry>, compare: (Text, Text) -> int)
    ensures forall f :: f in Insert(e, s, compare) <==> f == e || f in s
  {
    InsertMembers(e, s, compare);
    forall f
      ensures f in Insert(e, s, compare) <==> f == e || f in s
    {
      assert f in Insert(e, s, compare) <==> f in multiset(Insert(e, s, compare));
      assert f in s <==> f in multiset(s);
    }
  }

  /** An entry is inserted before every entry that it is not after. */
  lemma {:induction false} InsertsBefore(e: Entry, s: seq<Entry>, f: Entry, compare: (Text, Text) -> int)
    requires f in s && compare(e.key, f.key) <= 0
    ensures KeyBefore(Insert(e, s, compare), e.key, f.key)
  {
    if compare(e.key, s[0].key) <= 0 {
      KeyBeforeHead(e, s, f);
    } else {
      InsertsBefore(e, s[1..], f, compare);
      KeyBeforeTail(s[0], Insert(e, s[1..], compare), e.key, f.key);
    }
  }

  lemma {:induction false} InsertKeepsBefore(e: Entry, s: seq<Entry>, k: Text, l: Text, compare: (Text, Text) -> int)
    requires KeyBefore(s, k, l)
    ensures KeyBefore(Insert(e, s, compare), k, l)
  {
    var i, j :| 0 <= i < j < |s| && s[i].key == k && s[j].key == l;
    if compare(e.key, s[0].key) <= 0 {
      KeyBeforeTail(e, s, k, l);
    } else if i == 0 {
      InsertSameEntries(e, s[1..], compare);
      assert s[1..][j - 1] == s[j];
      KeyBeforeHead(s[0], Insert(e, s[1..], compare), s[j]);
    } else {
      assert s[1..][i - 1].key == k && s[1..][j - 1].key == l;
      InsertKeepsBefore(e, s[1..], k, l, compare);
      KeyBeforeTail(s[0], Insert(e, s[1..], compare), k, l);
    }
  }

  /** The sort is stable. */
  lemma {:induction false} SortKeepsBefore(s: seq<Entry>, i: nat, j: nat, compare: (Text, Text) -> int)
    requires i < j < |s| && compare(s[i].key, s[j].key) <= 0
    ensures KeyBefore(Sort(s, compare), s[i].key, s[j].key)
  {
    if i == 0 {
      SortSameEntries(s[1..], compare);
      assert s[1..][j - 1] == s[j];
      InsertsBefore(s[0], Sort(s[1..], compare), s[j], compare);
    } else {
      SortKeepsBefore(s[1..], i - 1, j - 1, compare);
      InsertKeepsBefore(s[0], Sort(s[1..], compare), s[i].key, s[j].key, compare);
    }
  }

  function Swapped(a: seq<Entry>, i: nat, j: nat): seq<Entry>
    requires i < j < |a|
  {
    a[i := a[j]][j := a[i]]
  }

  /** Objects whose entries agree under some pairing are the same. */
  lemma PairedAreSame(a: seq<Entry>, b: seq<Entry>, partner: nat -> nat)
    requires |a| == |b| && forall k :: 0 <= k < |a| ==> partner(k) < |a| && partner(partner(k)) == k
    requires forall k :: 0 <= k < |a| ==> a[k].key == b[partner(k)].key && Same(a[k].value, b[partner(k)].value)
    ensures Same(Obj(a), Obj(b))
  {
    forall j | 0 <= j < |b|
      ensures HasKey(a, b[j].key)
    {
      assert a[partner(j)].key == b[partner(partner(j))].key;
    }
  }

  lemma SwappedIsValue(a: seq<Entry>, i: nat, j: nat)
    requires i < j < |a| && AllFinite(Obj(a)) && WellKeyed(Obj(a))
    ensures AllFinite(Obj(Swapped(a, i, j))) && WellKeyed(Obj(Swapped(a, i, j)))
  {
  }

  lemma SwappedIsSame(a: seq<Entry>, i: nat, j: nat)
    requires i < j < |a|
    ensures Same(Obj(a), Obj(Swapped(a, i, j)))
  {
    forall k | 0 <= k < |a|
      ensures Same(a[k].value, a[k].value)
    {
      SameReflexive(a[k].value);
    }
    PairedAreSame(a, Swapped(a, i, j), k => if k == i then j else if k == j then i else k);
  }

  /** Objects of one text have their keys in one order after sorting. */
  lemma EqualTextsEqualKeys(a: seq<Entry>, b: seq<Entry>, p: Printers)
    requires Good(p) && AllFinite(Obj(a)) && AllFinite(Obj(b)) && TextOf(Obj(a), p) == TextOf(Obj(b), p)
    ensures FiniteEntries(Sort(a, p.compare)) && FiniteEntries(Sort(b, p.compare))
    ensures |Sort(a, p.compare)| == |Sort(b, p.compare)|
    ensures forall k :: 0 <= k < |Sort(a, p.compare)| ==>
      && Sort(a, p.compare)[k].key == Sort(b, p.compare)[k].key
      && TextOf(Sort(a, p.compare)[k].value, p) == TextOf(Sort(b, p.compare)[k].value, p)
  {
    ObjSplits(a, b, [], [], p);
    var m, n := Sort(a, p.compare), Sort(b, p.compare);
    var s, t := MemberTexts(m, p), MemberTexts(n, p);
    assert |m| == |s| && |n| == |t|;
    forall k | 0 <= k < |m|
      ensures m[k].key == n[k].key && TextOf(m[k].value, p) == TextOf(n[k].value, p)
    {
      assert s[k] == t[k];
      MemberSplits(m[k].key, TextOf(m[k].value, p), n[k].key, TextOf(n[k].value, p), [], [], p);
      assert TextOf(m[k].value, p) + [] == TextOf(m[k].value, p) && TextOf(n[k].value, p) + [] == TextOf(n[k].value, p);
    }
  }

  /** Distinct keys are in one order only. */
  lemma OneOrder(m: seq<Entry>, k: Text, l: Text)
    requires DistinctKeys(m) && KeyBefore(m, k, l)
    ensures !KeyBefore(m, l, k)
  {
  }

  lemma SameKeysSameOrder(m: seq<Entry>, n: seq<Entry>, k: Text, l: Text)
    requires |m| == |n| && (forall c :: 0 <= c < |m| ==> m[c].key == n[c].key) && KeyBefore(n, k, l)
    ensures KeyBefore(m, k, l)
  {
    var i, j :| 0 <= i < j < |n| && n[i].key == k && n[j].key == l;
    assert m[i].key == k && m[j].key == l;
  }

  /** Swapping two tied keys changes the text. */
  lemma SwappedHasOtherText(a: seq<Entry>, i: nat, j: nat, p: Printers)
    requires Good(p) && i < j < |a| && p.compare(a[i].key, a[j].key) == 0
    requires AllFinite(Obj(a)) && WellKeyed(Obj(a)) && AllFinite(Obj(Swapped(a, i, j)))
    ensures TextOf(Obj(a), p) != TextOf(Obj(Swapped(a, i, j)), p)
  {
    var b := Swapped(a, i, j);
    var m, n := Sort(a, p.compare), Sort(b, p.compare);
    SortKeepsBefore(a, i, j, p.compare);
    SortKeepsBefore(b, i, j, p.compare);
    SortDistinct(a, p.compare);
    OneOrder(m, a[i].key, a[j].key);
    if TextOf(Obj(a), p) == TextOf(Obj(b), p) {
      EqualTextsEqualKeys(a, b, p);
      SameKeysSameOrder(m, n, a[j].key, a[i].key);
    }
  }

  /** Objects of one text that differ in one value have one text there. */
  lemma EntryTextsEqual(a: seq<Entry>, i: nat, w: Json, p: Printers)
    requires Good(p) && i < |a| && AllFinite(Obj(a)) && WellKeyed(Obj(a)) && AllFinite(w)
    requires AllFinite(Obj(a[i := Entry(a[i].key, w)]))
    requires TextOf(Obj(a), p) == TextOf(Obj(a[i := Entry(a[i].key, w)]), p)
    ensures TextOf(a[i].value, p) == TextOf(w, p)
  {
    var b := a[i := Entry(a[i].key, w)];
    var m, n := Sort(a, p.compare), Sort(b, p.compare);
    EqualTextsEqualKeys(a, b, p);
    SortSameEntries(a, p.compare);
    SortSameEntries(b, p.compare);
    assert a[i] in m;
    var k :| 0 <= k < |m| && m[k] == a[i];
    assert n[k] in b;
    var j :| 0 <= j < |b| && b[j] == n[k];
    assert b[j].key == a[j].key;
    assert j == i;
  }

  lemma EntryIsValue(a: seq<Entry>, i: nat, w: Json)
    requires i < |a| && AllFinite(Obj(a)) && WellKeyed(Obj(a)) && AllFinite(w) && WellKeyed(w)
    ensures AllFinite(Obj(a[i := Entry(a[i].key, w)])) && WellKeyed(Obj(a[i := Entry(a[i].key, w)]))
  {
  }

  lemma EntryIsSame(a: seq<Entry>, i: nat, w: Json)
    requires i < |a| && Same(a[i].value, w)
    ensures Same(Obj(a), Obj(a[i := Entry(a[i].key, w)]))
  {
    var b := a[i := Entry(a[i].key, w)];
    forall k | 0 <= k < |a|
      ensures Same(a[k].value, b[k].value)
    {
      SameReflexive(a[k].value);
    }
    PairedAreSame(a, b, k => k);
  }

  lemma ItemIsSame(a: seq<Json>, i: nat, w: Json)
    requires i < |a| && AllFinite(Arr(a)) && WellKeyed(Arr(a)) && AllFinite(w) && WellKeyed(w) && Same(a[i], w)
    ensures AllFinite(Arr(a[i := w])) && WellKeyed(Arr(a[i := w])) && Same(Arr(a), Arr(a[i := w]))
  {
    var b := a[i := w];
    forall k | 0 <= k < |a|
      ensures Same(a[k], b[k])
    {
      SameReflexive(a[k]);
    }
  }

  /** Arrays of one text have one text at each place. */
  lemma ItemTextsEqual(a: seq<Json>, b: seq<Json>, i: nat, p: Printers)
    requires Good(p) && AllFinite(Arr(a)) && AllFinite(Arr(b)) && i < |a| && i < |b|
    requires TextOf(Arr(a), p) == TextOf(Arr(b), p)
    ensures TextOf(a[i], p) == TextOf(b[i], p)
  {
    ArrSplits(a, b, [], [], p);
    assert ItemTexts(a, p)[i] == ItemTexts(b, p)[i];
  }

  /** The same value, up to key order and signed zero, with another text. */
  ghost predicate IsTwin(v: Json, w: Json, p: Printers)
    requires AllFinite(v)
  {
    AllFinite(w) && WellKeyed(w) && Same(v, w) && TextOf(v, p) != TextOf(w, p)
  }

  lemma {:induction false} TiedHasTwin(v: Json, p: Printers) returns (w: Json)
    requires Good(p) && AllFinite(v) && WellKeyed(v) && !NoTies(v, p.compare)
    ensures IsTwin(v, w, p)
    decreases v
  {
    match v
    case Arr(a) =>
      var i :| 0 <= i < |a| && !NoTies(a[i], p.compare);
      var item := TiedHasTwin(a[i], p);
      ItemIsSame(a, i, item);
      w := Arr(a[i := item]);
      if TextOf(v, p) == TextOf(w, p) {
        ItemTextsEqual(a, w.items, i, p);
      }
    case Obj(a) =>
      if NoneTied(Keys(a), p.compare) {
        var i :| 0 <= i < |a| && !NoTies(a[i].value, p.compare);
        var value := TiedHasTwin(a[i].value, p);
        EntryIsValue(a, i, value);
        EntryIsSame(a, i, value);
        w := Obj(a[i := Entry(a[i].key, value)]);
        if TextOf(v, p) == TextOf(w, p) {
          EntryTextsEqual(a, i, value, p);
        }
      } else {
        var i, j := FindTie(a, p.compare);
        SwappedIsValue(a, i, j);
        SwappedIsSame(a, i, j);
        SwappedHasOtherText(a, i, j, p);
        w := Obj(Swapped(a, i, j));
      }
  }

  lemma FindTie(a: seq<Entry>, compare: (Text, Text) -> int) returns (i: nat, j: nat)
    requires Consistent(compare) && !NoneTied(Keys(a), compare)
    ensures i < j < |a| && compare(a[i].key, a[j].key) == 0
  {
    var k := Keys(a);
    var x, y :| 0 <= x < |k| && 0 <= y < |k| && compare(k[x], k[y]) == 0 && k[x] != k[y];
    i, j := if x < y then x else y, if x < y then y else x;
  }

  // The theorems.

  /** A value without ties has the canonical text of another exactly when they are the same value. */
  lemma EqualTextsIffSame(v: Json, w: Json, p: Printers)
    requires Good(p) && NoTies(v, p.compare) && AllFinite(v) && AllFinite(w) && WellKeyed(v) && WellKeyed(w)
    ensures TextOf(v, p) == TextOf(w, p) <==> Same(v, w)
  {
    if Same(v, w) {
      SameHasEqualTexts(v, w, p);
    } else if TextOf(v, p) == TextOf(w, p) {
      EqualTextsAreSame(v, w, p);
    }
  }

  /** The same for the bytes that are hashed. */
  lemma EqualBytesIffSame(v: Json, w: Json, p: Printers)
    requires Good(p) && NoTies(v, p.compare) && AllFinite(v) && AllFinite(w) && WellKeyed(v) && WellKeyed(w)
    ensures Utf8(TextOf(v, p)) == Utf8(TextOf(w, p)) <==> Same(v, w)
  {
    EqualTextsIffSame(v, w, p);
    if Utf8(TextOf(v, p)) == Utf8(TextOf(w, p)) {
      Utf8IsInjective(TextOf(v, p), TextOf(w, p));
    }
  }

  /** The order of a value's keys does not matter to its text. */
  ghost predicate IgnoresKeyOrder(v: Json, p: Printers)
    requires AllFinite(v)
  {
    forall w :: AllFinite(w) && WellKeyed(w) && Same(v, w) ==> TextOf(v, p) == TextOf(w, p)
  }

  /** Key order is ignored for a value exactly when no object in it holds two different keys that compare
      equal. */
  lemma IgnoresKeyOrderIffNoTies(v: Json, p: Printers)
    requires Good(p) && AllFinite(v) && WellKeyed(v)
    ensures IgnoresKeyOrder(v, p) <==> NoTies(v, p.compare)
  {
    if NoTies(v, p.compare) {
      forall w | AllFinite(w) && WellKeyed(w) && Same(v, w)
        ensures TextOf(v, p) == TextOf(w, p)
      {
        SameHasEqualTexts(v, w, p);
      }
    } else {
      var w := TiedHasTwin(v, p);
      assert IsTwin(v, w, p);
    }
  }
}

/** Canonical text is JSON: the grammar of RFC 8259, without whitespace.
    About canonicalJson of packages/core/src/v12UnlinkableSchemas.ts. The printing of strings and numbers is a
    parameter. */
module CanonicalGrammar {
  import opened Wrappers
  import opened Collections
  import opened CanonicalJson
  import opened CanonicalMeaning
  import opened Utf8Text

  /** The code units of a text are these characters. */
  predicate Spells(t: Text, s: string) {
    |t| == |s| && forall i :: 0 <= i < |s| ==> t[i] == s[i] as int
  }

  /** Some texts between two brackets, with commas between them: sections 4 and 5. */
  ghost predicate IsList(t: Text, open: string, parts: seq<Text>, close: string)
    decreases |parts|
  {
    exists first: Text, rest: Text :: t == first + rest && Spells(first, open) && IsRest(rest, parts, close)
  }

  /** What follows the opening bracket, or a comma. */
  ghost predicate IsRest(t: Text, parts: seq<Text>, close: string)
    decreases |parts|
  {
    if parts == [] then Spells(t, close)
    else
      exists rest: Text :: t == parts[0] + rest
        && if |parts| == 1 then Spells(rest, close)
           else |rest| > 0 && Spells(rest[..1], ",") && IsRest(rest[1..], parts[1..], close)
  }

  /** The member of an object: section 4. */
  ghost predicate IsMember(t: Text, key: Text, value: Text, p: Printers) {
    exists colon: Text :: t == p.quote(key) + colon + value && Spells(colon, ":")
  }

  /** The text is JSON text of the value; the members of an object may be in any order. */
  ghost predicate IsJson(t: Text, v: Json, p: Printers)
    decreases v
  {
    match v
    case Null => Spells(t, "null")
    case Bool(b) => Spells(t, if b then "true" else "false")
    case Str(s) => t == p.quote(s)
    case Num(n) => !n.NonFinite? && t == p.number(if n.MinusZero? then 0 else n.pattern)
    case Arr(items) =>
      exists parts: seq<Text> :: |parts| == |items| && IsList(t, "[", parts, "]")
        && forall i :: 0 <= i < |items| ==> IsJson(parts[i], items[i], p)
    case Obj(entries) =>
      exists m: seq<Entry>, values: seq<Text>, parts: seq<Text> ::
        && multiset(m) == multiset(entries) && |values| == |parts| == |m| && IsList(t, "{", parts, "}")
        && forall i :: 0 <= i < |m| ==>
          m[i] in entries && IsMember(parts[i], m[i].key, values[i], p) && IsJson(values[i], m[i].value, p)
  }

  lemma {:induction false} JoinIsRest(parts: seq<Text>, close: Unit, name: string)
    requires parts != [] && Spells([close], name)
    ensures IsRest(Join(parts) + [close], parts, name)
    decreases |parts|
  {
    if |parts| == 1 {
      assert Join(parts) + [close] == parts[0] + [close];
    } else {
      var rest := [COMMA] + (Join(parts[1..]) + [close]);
      JoinIsRest(parts[1..], close, name);
      ConcatAssociates(parts[0], [COMMA], Join(parts[1..]));
      ConcatAssociates(parts[0], [COMMA] + Join(parts[1..]), [close]);
      ConcatAssociates([COMMA], Join(parts[1..]), [close]);
      assert Join(parts) + [close] == parts[0] + rest;
      assert rest[1..] == Join(parts[1..]) + [close] && rest[..1] == [COMMA];
      assert Spells(rest[..1], ",");
    }
  }

  lemma BracketedIsList(open: Unit, parts: seq<Text>, close: Unit, openName: string, closeName: string)
    requires Spells([open], openName) && Spells([close], closeName)
    ensures IsList([open] + Join(parts) + [close], openName, parts, closeName)
  {
    ConcatAssociates([open], Join(parts), [close]);
    if parts == [] {
      assert Join(parts) + [close] == [close];
    } else {
      JoinIsRest(parts, close, closeName);
    }
    assert IsRest(Join(parts) + [close], parts, closeName);
  }

  lemma ArrIsJson(items: seq<Json>, p: Printers)
    requires AllFinite(Arr(items)) && forall i :: 0 <= i < |items| ==> IsJson(TextOf(items[i], p), items[i], p)
    ensures IsJson(TextOf(Arr(items), p), Arr(items), p)
  {
    var t, parts := TextOf(Arr(items), p), ItemTexts(items, p);
    TextOfArr(items, p);
    BracketedIsList(OPEN_BRACKET, parts, CLOSE_BRACKET, "[", "]");
    assert |parts| == |items| && IsList(t, "[", parts, "]");
  }

  lemma ObjIsJson(entries: seq<Entry>, m: seq<Entry>, values: seq<Text>, p: Printers)
    requires FiniteEntries(entries) && m == Sort(entries, p.compare) && FiniteEntries(m) && |values| == |m|
    requires forall i :: 0 <= i < |m| ==>
      m[i] in entries && values[i] == TextOf(m[i].value, p) && IsJson(values[i], m[i].value, p)
    ensures AllFinite(Obj(entries)) && IsJson(TextOf(Obj(entries), p), Obj(entries), p)
  {
    TextOfObj(entries, p);
    SortMembers(entries, p.compare);
    var t, parts := TextOf(Obj(entries), p), MemberTexts(m, p);
    BracketedIsList(OPEN_BRACE, parts, CLOSE_BRACE, "{", "}");
    forall i | 0 <= i < |m|
      ensures IsMember(parts[i], m[i].key, values[i], p)
    {
      MemberTextIsMember(m[i].key, values[i], p);
    }
    ShowsObject(t, entries, m, values, parts, p);
  }

  lemma ShowsObject(
    t: Text, entries: seq<Entry>, m: seq<Entry>, values: seq<Text>, parts: seq<Text>, p: Printers)
    requires multiset(m) == multiset(entries) && |values| == |parts| == |m| && IsList(t, "{", parts, "}")
    requires forall i :: 0 <= i < |m| ==>
      m[i] in entries && IsMember(parts[i], m[i].key, values[i], p) && IsJson(values[i], m[i].value, p)
    ensures IsJson(t, Obj(entries), p)
  {
  }

  /** The canonical text of a value is JSON text of it, at every nesting. */
  lemma {:induction false} CanonicalIsJson(v: Json, p: Printers)
    requires AllFinite(v)
    ensures IsJson(TextOf(v, p), v, p)
    decreases v
  {
    match v
    case Arr(items) =>
      forall i | 0 <= i < |items|
        ensures IsJson(TextOf(items[i], p), items[i], p)
      {
        CanonicalIsJson(items[i], p);
      }
      ArrIsJson(items, p);
    case Obj(entries) =>
      var m := Sort(entries, p.compare);
      SortedFinite(entries, p);
      SortSameEntries(entries, p.compare);
      var values := seq(|m|, i requires 0 <= i < |m| => TextOf(m[i].value, p));
      forall i | 0 <= i < |m|
        ensures m[i] in entries && IsJson(values[i], m[i].value, p)
      {
        assert m[i] in m;
        CanonicalIsJson(m[i].value, p);
      }
      ObjIsJson(entries, m, values, p);
    case _ =>
  }

  lemma MemberTextIsMember(key: Text, value: Text, p: Printers)
    ensures IsMember(MemberText(key, value, p), key, value, p)
  {
    assert Spells([COLON], ":");
  }
}

/** UTF-8 by hand: the loop over UTF-16 code units, against RFC 3629.
    Models utf8Bytes and sha256String of packages/core/src/v12UnlinkableSchemas.ts. */
module Utf8Text {
  import opened Wrappers
  import opened Collections
  import opened Powers
  import opened Js32
  import opened BitMasks
  import opened Sha256Spec
  import opened Sha256Padding
  import opened Sha256Text

  type Unit = u: int | 0 <= u < 0x1_0000

  type CodePoint = c: int | 0 <= c < 0x11_0000

  predicate IsHigh(c: int) { 0xd800 <= c <= 0xdbff }

  predicate IsLow(c: int) { 0xdc00 <= c <= 0xdfff }

  predicate IsSurrogate(c: int) { 0xd800 <= c <= 0xdfff }

  // UTF-16, with a lone surrogate standing for itself.

  predicate StartsPair(units: seq<Unit>) {
    |units| >= 2 && IsHigh(units[0]) && IsLow(units[1])
  }

  function PairPoint(high: Unit, low: Unit): CodePoint
    requires IsHigh(high) && IsLow(low)
  {
    0x1_0000 + (high - 0xd800) * 0x400 + (low - 0xdc00)
  }

  function CodePoints(units: seq<Unit>): seq<CodePoint> {
    if units == [] then []
    else if StartsPair(units) then [PairPoint(units[0], units[1])] + CodePoints(units[2..])
    else [units[0]] + CodePoints(units[1..])
  }

  function UnitsOf(c: CodePoint): seq<Unit> {
    if c < 0x1_0000 then [c] else [0xd800 + (c - 0x1_0000) / 0x400, 0xdc00 + (c - 0x1_0000) % 0x400]
  }

  function Units(points: seq<CodePoint>): seq<Unit> {
    if points == [] then [] else UnitsOf(points[0]) + Units(points[1..])
  }

  /** Every high surrogate is followed by a low one, and every low one follows a high one. */
  predicate WellFormed(units: seq<Unit>) {
    && (forall i :: 0 <= i < |units| && IsHigh(units[i]) ==> i + 1 < |units| && IsLow(units[i + 1]))
    && (forall i :: 0 <= i < |units| && IsLow(units[i]) ==> i > 0 && IsHigh(units[i - 1]))
  }

  lemma PairOfPoint(high: Unit, low: Unit)
    requires IsHigh(high) && IsLow(low)
    ensures UnitsOf(PairPoint(high, low)) == [high, low]
  {
  }

  /** Nothing is lost in code points, lone surrogates included. */
  lemma {:induction false} UnitsOfCodePoints(units: seq<Unit>)
    ensures Units(CodePoints(units)) == units
  {
    if units == [] {
    } else if StartsPair(units) {
      PairOfPoint(units[0], units[1]);
      UnitsOfCodePoints(units[2..]);
      assert units == [units[0], units[1]] + units[2..];
      UnitsOfCons(PairPoint(units[0], units[1]), CodePoints(units[2..]));
    } else {
      UnitsOfCodePoints(units[1..]);
      assert units == [units[0]] + units[1..];
      UnitsOfCons(units[0], CodePoints(units[1..]));
    }
  }

  lemma UnitsOfCons(first: CodePoint, rest: seq<CodePoint>)
    ensures Units([first] + rest) == UnitsOf(first) + Units(rest)
  {
  }

  predicate NoSurrogates(points: seq<CodePoint>) {
    forall c :: c in points ==> !IsSurrogate(c)
  }

  /** A string is well formed exactly when its code points are Unicode scalar values. */
  lemma {:induction false} WellFormedIffScalars(units: seq<Unit>)
    ensures WellFormed(units) <==> NoSurrogates(CodePoints(units))
  {
    if units == [] {
    } else if StartsPair(units) {
      WellFormedIffScalars(units[2..]);
      DropPair(units);
      ScalarsOfCons(PairPoint(units[0], units[1]), CodePoints(units[2..]));
    } else {
      WellFormedIffScalars(units[1..]);
      ScalarsOfCons(units[0], CodePoints(units[1..]));
      if !IsSurrogate(units[0]) {
        DropPlain(units);
      }
    }
  }

  lemma ScalarsOfCons(first: CodePoint, rest: seq<CodePoint>)
    ensures NoSurrogates([first] + rest) <==> !IsSurrogate(first) && NoSurrogates(rest)
  {
  }

  lemma DropPair(units: seq<Unit>)
    requires StartsPair(units)
    ensures WellFormed(units) <==> WellFormed(units[2..])
  {
  }

  lemma DropPlain(units: seq<Unit>)
    requires units != [] && !IsSurrogate(units[0])
    ensures WellFormed(units) <==> WellFormed(units[1..])
  {
  }

  // UTF-8, section 3 of RFC 3629.

  function EncodePoint(c: CodePoint): (bytes: seq<Byte>)
    ensures 1 <= |bytes| <= 4
  {
    if c <= 0x7f then [c]
    else if c <= 0x7ff then [0xc0 + c / 0x40, 0x80 + c % 0x40]
    else if c <= 0xffff then [0xe0 + c / 0x1000, 0x80 + c / 0x40 % 0x40, 0x80 + c % 0x40]
    else [0xf0 + c / 0x4_0000, 0x80 + c / 0x1000 % 0x40, 0x80 + c / 0x40 % 0x40, 0x80 + c % 0x40]
  }

  function Encode(points: seq<CodePoint>): seq<Byte> {
    if points == [] then [] else EncodePoint(points[0]) + Encode(points[1..])
  }

  // The octet sequences of section 4 of RFC 3629. The flag admits encoded surrogates as well.

  predicate Tail(b: Byte) { 0x80 <= b <= 0xbf }

  predicate OneByte(bytes: seq<Byte>) {
    |bytes| >= 1 && bytes[0] <= 0x7f
  }

  predicate TwoBytes(bytes: seq<Byte>) {
    |bytes| >= 2 && 0xc2 <= bytes[0] <= 0xdf && Tail(bytes[1])
  }

  predicate ThreeBytes(bytes: seq<Byte>, surrogates: bool) {
    && |bytes| >= 3
    && (|| (bytes[0] == 0xe0 && 0xa0 <= bytes[1] <= 0xbf)
        || (0xe1 <= bytes[0] <= 0xec && Tail(bytes[1]))
        || (bytes[0] == 0xed && 0x80 <= bytes[1] <= (if surrogates then 0xbf else 0x9f))
        || (0xee <= bytes[0] <= 0xef && Tail(bytes[1])))
    && Tail(bytes[2])
  }

  predicate FourBytes(bytes: seq<Byte>) {
    && |bytes| >= 4
    && (|| (bytes[0] == 0xf0 && 0x90 <= bytes[1] <= 0xbf)
        || (0xf1 <= bytes[0] <= 0xf3 && Tail(bytes[1]))
        || (bytes[0] == 0xf4 && 0x80 <= bytes[1] <= 0x8f))
    && Tail(bytes[2]) && Tail(bytes[3])
  }

  function TwoByteValue(b0: int, b1: int): int {
    (b0 - 0xc0) * 0x40 + (b1 - 0x80)
  }

  function ThreeByteValue(b0: int, b1: int, b2: int): int {
    (b0 - 0xe0) * 0x1000 + (b1 - 0x80) * 0x40 + (b2 - 0x80)
  }

  function FourByteValue(b0: int, b1: int, b2: int, b3: int): int {
    (b0 - 0xf0) * 0x4_0000 + (b1 - 0x80) * 0x1000 + (b2 - 0x80) * 0x40 + (b3 - 0x80)
  }

  /** Puts a decoded code point in front of the decoded rest. */
  function Cons(c: CodePoint, rest: Option<seq<CodePoint>>): Option<seq<CodePoint>> {
    if rest.Some? then Some([c] + rest.value) else None
  }

  function Decode(bytes: seq<Byte>, surrogates: bool): Option<seq<CodePoint>>
    decreases |bytes|
  {
    if bytes == [] then Some([])
    else if OneByte(bytes) then Cons(bytes[0], Decode(bytes[1..], surrogates))
    else if TwoBytes(bytes) then
      Cons(TwoByteValue(bytes[0], bytes[1]), Decode(bytes[2..], surrogates))
    else if ThreeBytes(bytes, surrogates) then
      Cons(ThreeByteValue(bytes[0], bytes[1], bytes[2]), Decode(bytes[3..], surrogates))
    else if FourBytes(bytes) then
      Cons(FourByteValue(bytes[0], bytes[1], bytes[2], bytes[3]), Decode(bytes[4..], surrogates))
    else None
  }

  /** The decoder reads back one encoded code point, and refuses a surrogate unless told otherwise. */
  lemma DecodeEncoded(c: CodePoint, rest: seq<Byte>, surrogates: bool)
    ensures Decode(EncodePoint(c) + rest, surrogates)
         == if IsSurrogate(c) && !surrogates then None else Cons(c, Decode(rest, surrogates))
  {
    var bytes := EncodePoint(c) + rest;
    assert bytes[|EncodePoint(c)|..] == rest;
    if c <= 0x7f {
    } else if c <= 0x7ff {
      assert !OneByte(bytes) && TwoBytes(bytes);
    } else if c <= 0xffff {
      ThreeByteForm(c, bytes, surrogates);
    } else {
      FourByteForm(c, bytes);
    }
  }

  lemma ThreeByteForm(c: CodePoint, bytes: seq<Byte>, surrogates: bool)
    requires 0x7ff < c <= 0xffff && |bytes| >= 3 && bytes[..3] == EncodePoint(c)
    ensures !OneByte(bytes) && !TwoBytes(bytes) && !FourBytes(bytes)
    ensures ThreeBytes(bytes, surrogates) <==> !IsSurrogate(c) || surrogates
    ensures ThreeByteValue(bytes[0], bytes[1], bytes[2]) == c
  {
  }

  lemma DigitsOfPoint(c: CodePoint)
    ensures c == c / 0x4_0000 * 0x4_0000 + c / 0x1000 % 0x40 * 0x1000 + c / 0x40 % 0x40 * 0x40 + c % 0x40
  {
  }

  lemma FourByteForm(c: CodePoint, bytes: seq<Byte>)
    requires 0xffff < c && |bytes| >= 4 && bytes[..4] == EncodePoint(c)
    ensures !OneByte(bytes) && !TwoBytes(bytes) && !ThreeBytes(bytes, true) && FourBytes(bytes)
    ensures FourByteValue(bytes[0], bytes[1], bytes[2], bytes[3]) == c
  {
    DigitsOfPoint(c);
    assert bytes[0] == bytes[..4][0] && bytes[1] == bytes[..4][1] && bytes[2] == bytes[..4][2] && bytes[3] == bytes[..4][3];
  }

  /** Decoding an encoding gives the code points back, unless a surrogate is refused. */
  lemma {:induction false} DecodeEncode(points: seq<CodePoint>, surrogates: bool)
    ensures Decode(Encode(points), surrogates)
         == if surrogates || NoSurrogates(points) then Some(points) else None
  {
    if points == [] {
    } else {
      DecodeEncoded(points[0], Encode(points[1..]), surrogates);
      DecodeEncode(points[1..], surrogates);
      ScalarsOfCons(points[0], points[1..]);
      assert points == [points[0]] + points[1..];
    }
  }

  /** The base-64 digits of a number. */
  lemma ThreeDigits(x: int, y: int, z: int)
    requires 0 <= y < 0x40 && 0 <= z < 0x40
    ensures var c := x * 0x1000 + y * 0x40 + z; c / 0x1000 == x && c / 0x40 % 0x40 == y && c % 0x40 == z
  {
    var c := x * 0x1000 + y * 0x40 + z;
    QuotientIs(c, 0x1000, x, y * 0x40 + z);
    QuotientIs(c, 0x40, x * 0x40 + y, z);
    QuotientIs(x * 0x40 + y, 0x40, x, y);
  }

  lemma FourDigits(w: int, x: int, y: int, z: int)
    requires 0 <= x < 0x40 && 0 <= y < 0x40 && 0 <= z < 0x40
    ensures var c := w * 0x4_0000 + x * 0x1000 + y * 0x40 + z;
      c / 0x4_0000 == w && c / 0x1000 % 0x40 == x && c / 0x40 % 0x40 == y && c % 0x40 == z
  {
    var c := w * 0x4_0000 + x * 0x1000 + y * 0x40 + z;
    ThreeDigits(w * 0x40 + x, y, z);
    QuotientIs(w * 0x40 + x, 0x40, w, x);
    QuotientIs(c, 0x4_0000, w, x * 0x1000 + y * 0x40 + z);
  }

  lemma TwoByteInverse(b: seq<Byte>)
    requires |b| == 2 && TwoBytes(b)
    ensures EncodePoint(TwoByteValue(b[0], b[1])) == b
  {
  }

  lemma ThreeByteInverse(b: seq<Byte>, surrogates: bool)
    requires |b| == 3 && ThreeBytes(b, surrogates)
    ensures EncodePoint(ThreeByteValue(b[0], b[1], b[2])) == b
  {
    var x: int, y: int, z: int := b[0], b[1], b[2];
    ThreeDigits(x - 0xe0, y - 0x80, z - 0x80);
  }

  lemma FourByteInverse(b: seq<Byte>)
    requires |b| == 4 && FourBytes(b)
    ensures EncodePoint(FourByteValue(b[0], b[1], b[2], b[3])) == b
  {
    var w: int, x: int, y: int, z: int := b[0], b[1], b[2], b[3];
    FourDigits(w - 0xf0, x - 0x80, y - 0x80, z - 0x80);
  }

  /** Whatever the decoder accepts is the encoding of what it returns. */
  lemma {:induction false} EncodeDecode(bytes: seq<Byte>, surrogates: bool)
    requires Decode(bytes, surrogates).Some?
    ensures Encode(Decode(bytes, surrogates).value) == bytes
    decreases |bytes|
  {
    if bytes == [] {
    } else if OneByte(bytes) {
      EncodeDecode(bytes[1..], surrogates);
      EncodeCons(bytes[0], Decode(bytes[1..], surrogates).value, bytes, 1);
    } else if TwoBytes(bytes) {
      TwoByteInverse(bytes[..2]);
      EncodeDecode(bytes[2..], surrogates);
      EncodeCons(TwoByteValue(bytes[0], bytes[1]), Decode(bytes[2..], surrogates).value, bytes, 2);
    } else if ThreeBytes(bytes, surrogates) {
      ThreeByteInverse(bytes[..3], surrogates);
      EncodeDecode(bytes[3..], surrogates);
      EncodeCons(ThreeByteValue(bytes[0], bytes[1], bytes[2]), Decode(bytes[3..], surrogates).value, bytes, 3);
    } else {
      FourByteInverse(bytes[..4]);
      EncodeDecode(bytes[4..], surrogates);
      EncodeCons(FourByteValue(bytes[0], bytes[1], bytes[2], bytes[3]), Decode(bytes[4..], surrogates).value, bytes, 4);
    }
  }

  lemma EncodeCons(c: CodePoint, rest: seq<CodePoint>, bytes: seq<Byte>, size: nat)
    requires size <= |bytes| && EncodePoint(c) == bytes[..size] && Encode(rest) == bytes[size..]
    ensures Encode([c] + rest) == bytes
  {
  }

  // The theorems about the bytes of a string.

  function Utf8(units: seq<Unit>): seq<Byte> {
    Encode(CodePoints(units))
  }

  /** A strict UTF-8 decoder reads back exactly the well-formed strings. */
  lemma StrictRoundTrip(units: seq<Unit>)
    ensures Decode(Utf8(units), false).Some? <==> WellFormed(units)
    ensures WellFormed(units) ==> Units(Decode(Utf8(units), false).value) == units
  {
    DecodeEncode(CodePoints(units), false);
    WellFormedIffScalars(units);
    UnitsOfCodePoints(units);
  }

  /** Different strings have different bytes, lone surrogates included. */
  lemma Utf8IsInjective(a: seq<Unit>, b: seq<Unit>)
    requires Utf8(a) == Utf8(b)
    ensures a == b
  {
    DecodeEncode(CodePoints(a), true);
    DecodeEncode(CodePoints(b), true);
    UnitsOfCodePoints(a);
    UnitsOfCodePoints(b);
  }

  // The loop.

  /** `0x80 | (x & 0x3f)`. */
  lemma TailByte(x: nat)
    requires x < TWO31
    ensures JsOr(0x80, JsAnd(x, 0x3f)) == 0x80 + x % 0x40
  {
    assert Pow2(6) == 0x40;
    AndMask(x, 6, 0x3f);
    OrAdds(0x80, x % 0x40, 2, 6);
  }

  function JsTwoBytes(c: int): seq<int> {
    [JsOr(0xc0, JsShr(c, 6)), JsOr(0x80, JsAnd(c, 0x3f))]
  }

  function JsThreeBytes(c: int): seq<int> {
    [JsOr(0xe0, JsShr(c, 12)), JsOr(0x80, JsAnd(JsShr(c, 6), 0x3f)), JsOr(0x80, JsAnd(c, 0x3f))]
  }

  function JsFourBytes(c: int): seq<int> {
    [JsOr(0xf0, JsShr(c, 18)), JsOr(0x80, JsAnd(JsShr(c, 12), 0x3f)),
     JsOr(0x80, JsAnd(JsShr(c, 6), 0x3f)), JsOr(0x80, JsAnd(c, 0x3f))]
  }

  lemma LeadBytes(c: CodePoint)
    ensures c <= 0x7ff ==> JsOr(0xc0, c / 0x40) == 0xc0 + c / 0x40
    ensures c <= 0xffff ==> JsOr(0xe0, c / 0x1000) == 0xe0 + c / 0x1000
    ensures JsOr(0xf0, c / 0x4_0000) == 0xf0 + c / 0x4_0000
  {
    assert Pow2(5) == 0x20 && Pow2(4) == 0x10 && Pow2(3) == 8;
    if c <= 0x7ff {
      OrAdds(0xc0, c / 0x40, 6, 5);
    }
    if c <= 0xffff {
      OrAdds(0xe0, c / 0x1000, 14, 4);
    }
    OrAdds(0xf0, c / 0x4_0000, 30, 3);
  }

  lemma TailBytes(c: CodePoint)
    ensures JsOr(0x80, JsAnd(c, 0x3f)) == 0x80 + c % 0x40
    ensures JsOr(0x80, JsAnd(c / 0x40, 0x3f)) == 0x80 + c / 0x40 % 0x40
    ensures JsOr(0x80, JsAnd(c / 0x1000, 0x3f)) == 0x80 + c / 0x1000 % 0x40
  {
    TailByte(c);
    TailByte(c / 0x40);
    TailByte(c / 0x1000);
  }

  // The source's expressions give the bytes of the standard.

  lemma TwoBytesAreEncoded(c: CodePoint)
    requires 0x7f < c <= 0x7ff
    ensures JsTwoBytes(c) == EncodePoint(c)
  {
    Shifts(c);
    LeadBytes(c);
    TailBytes(c);
  }

  lemma ThreeBytesAreEncoded(c: CodePoint)
    requires 0x7ff < c <= 0xffff
    ensures JsThreeBytes(c) == EncodePoint(c)
  {
    Shifts(c);
    LeadBytes(c);
    TailBytes(c);
  }

  lemma FourBytesAreEncoded(c: CodePoint)
    requires 0xffff < c
    ensures JsFourBytes(c) == EncodePoint(c)
  {
    Shifts(c);
    LeadBytes(c);
    TailBytes(c);
  }

  /** The bytes the source pushes for one code point. */
  method PushPoint(bytes: seq<Byte>, c: CodePoint) returns (more: seq<Byte>)
    ensures more == bytes + EncodePoint(c)
  {
    if c <= 0x7f {
      more := bytes + [c];
    } else if c <= 0x7ff {
      TwoBytesAreEncoded(c);
      more := bytes + JsTwoBytes(c);
    } else if c <= 0xffff {
      ThreeBytesAreEncoded(c);
      more := bytes + JsThreeBytes(c);
    } else {
      FourBytesAreEncoded(c);
      more := bytes + JsFourBytes(c);
    }
  }

  lemma Shifts(c: CodePoint)
    ensures JsShr(c, 6) == c / 0x40 && JsShr(c, 12) == c / 0x1000 && JsShr(c, 18) == c / 0x4_0000
  {
  }

  /** `0x10000 + ((high - 0xd800) << 10) + (low - 0xdc00)`. */
  function JsPair(high: Unit, low: Unit): int {
    0x1_0000 + JsShl(high - 0xd800, 10) + (low - 0xdc00)
  }

  lemma JsPairIsPair(high: Unit, low: Unit)
    requires IsHigh(high) && IsLow(low)
    ensures JsPair(high, low) == PairPoint(high, low)
  {
  }

  /** What is left to encode after one step of the loop. */
  lemma NextPoint(rest: seq<Unit>, c: CodePoint, size: nat)
    requires rest != []
    requires size == (if StartsPair(rest) then 2 else 1)
    requires c == if StartsPair(rest) then PairPoint(rest[0], rest[1]) else rest[0]
    ensures Utf8(rest) == EncodePoint(c) + Utf8(rest[size..])
  {
  }

  method Utf8Bytes(value: seq<Unit>) returns (bytes: seq<Byte>)
    ensures bytes == Utf8(value)
  {
    bytes := [];
    var i := 0;
    while i < |value|
      invariant i <= |value|
      invariant bytes + Utf8(value[i..]) == Utf8(value)
    {
      ghost var rest, before := value[i..], bytes;
      var codePoint: CodePoint, size := value[i], 1;
      if 0xd800 <= codePoint <= 0xdbff && i + 1 < |value| {
        var low := value[i + 1];
        if 0xdc00 <= low <= 0xdfff {
          JsPairIsPair(value[i], low);
          codePoint := JsPair(value[i], low);
          size := 2;
        }
      }
      NextPoint(rest, codePoint, size);
      bytes := PushPoint(bytes, codePoint);
      i := i + size;
      assert value[i..] == rest[size..];
      ConcatAssociates(before, EncodePoint(codePoint), Utf8(value[i..]));
    }
    assert value[i..] == [];
  }

  lemma {:induction false} Utf8Length(units: seq<Unit>)
    ensures |Utf8(units)| <= 3 * |units|
  {
    if units != [] {
      var c: CodePoint, size := units[0], 1;
      if StartsPair(units) {
        c, size := PairPoint(units[0], units[1]), 2;
      }
      Utf8Length(units[size..]);
      NextPoint(units, c, size);
    }
  }

  /** `sha256String`: the SHA-256 of the UTF-8 bytes of a string. */
  method Sha256String(value: seq<Unit>) returns (text: string)
    requires |value| < 0x80_0000_0000_0000
    ensures 8 * |Utf8(value)| < TWO32 * TWO32
    ensures text == "sha256:" + DigestHex(Sha256(BytesBits(Utf8(value))))
  {
    var bytes := Utf8Bytes(value);
    Utf8Length(value);
    var hex := Sha256Hex(bytes);
    text := "sha256:" + hex;
  }
}

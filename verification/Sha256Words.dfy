/** The 32-bit functions of the hand-written SHA-256, on JavaScript numbers, and the words they stand for.
    Models rotateRight, add32 and the expressions of the loops of sha256Hex in
    packages/core/src/v12UnlinkableSchemas.ts. */
module Sha256Words {
  import opened Powers
  import opened Js32
  import opened BitMasks
  import opened Sha256Spec

  /** `(value >>> bits) | (value << (32 - bits))`. */
  function JsRotateRight(value: int, bits: nat): int
    requires 0 < bits < 32
  {
    JsOr(JsUshr(value, bits), JsShl(value, 32 - bits))
  }

  /** The reduction `(sum + value) >>> 0` over a list of values. */
  function AddFrom(sum: Word, values: seq<int>): Word
    decreases |values|
  {
    if values == [] then sum else AddFrom(ToUint32(sum + values[0]), values[1..])
  }

  function Add32(values: seq<int>): Word {
    AddFrom(0, values)
  }

  lemma {:induction false} FlipIsComplement(n: nat, x: nat)
    requires x < Pow2(n)
    ensures Flip(n, x) == Pow2(n) - 1 - x
  {
    if n > 0 {
      FlipIsComplement(n - 1, x / 2);
    }
  }

  lemma NegatedWord(a: int)
    ensures ToUint32(JsNot(a)) == TWO32 - 1 - ToUint32(a)
  {
    var u: int := ToUint32(a);
    QuotientIs(-u - 1, TWO32, -1, TWO32 - 1 - u);
  }

  lemma NotWord(a: int)
    ensures ToUint32(JsNot(a)) == Not(ToUint32(a))
  {
    Pow2Of32();
    NegatedWord(a);
    FlipIsComplement(32, ToUint32(a));
  }

  lemma ShlWord(value: int, n: nat)
    requires n < 32
    ensures ToUint32(JsShl(value, n)) == ShiftLeft(ToUint32(value), n)
  {
  }

  lemma UshrWord(value: int, n: nat)
    requires n < 32
    ensures ToUint32(JsUshr(value, n)) == ShiftRight(ToUint32(value), n)
  {
  }

  lemma RotateWord(value: int, bits: nat)
    requires 0 < bits < 32
    ensures ToUint32(JsRotateRight(value, bits)) == RotateRight(ToUint32(value), bits)
  {
    GateWord(Or, JsUshr(value, bits), JsShl(value, 32 - bits));
    ShlWord(value, 32 - bits);
    UshrWord(value, bits);
  }

  lemma PlusWord(x: int, y: int)
    ensures ToUint32(x + y) == Plus(ToUint32(x), ToUint32(y))
  {
  }

  /** One reduction step is addition modulo 2^32. */
  lemma AddStep(sum: Word, values: seq<int>)
    requires values != []
    ensures AddFrom(sum, values) == AddFrom(Plus(ToUint32(sum), ToUint32(values[0])), values[1..])
  {
    PlusWord(sum, values[0]);
  }

  lemma AddTwo(a: int, b: int)
    ensures Add32([a, b]) == Plus(ToUint32(a), ToUint32(b))
  {
    AddStep(0, [a, b]);
    WordOfWord(ToUint32(a));
    AddStep(ToUint32(a), [b]);
    assert [a, b][1..] == [b];
  }

  /** Adding one more value to a list. */
  lemma {:induction false} AddAppend(sum: Word, values: seq<int>, last: int)
    ensures AddFrom(sum, values + [last]) == Plus(ToUint32(AddFrom(sum, values)), ToUint32(last))
    decreases |values|
  {
    if values == [] {
      AddStep(sum, [last]);
    } else {
      assert (values + [last])[1..] == values[1..] + [last] && (values + [last])[0] == values[0];
      AddAppend(ToUint32(sum + values[0]), values[1..], last);
    }
  }

  lemma AddFour(a: int, b: int, c: int, d: int)
    ensures Add32([a, b, c, d]) == Plus(Plus(Plus(ToUint32(a), ToUint32(b)), ToUint32(c)), ToUint32(d))
  {
    AddTwo(a, b);
    AddAppend(0, [a, b], c);
    assert [a, b] + [c] == [a, b, c];
    AddAppend(0, [a, b, c], d);
    assert [a, b, c] + [d] == [a, b, c, d];
    WordOfWord(Plus(ToUint32(a), ToUint32(b)));
    WordOfWord(Plus(Plus(ToUint32(a), ToUint32(b)), ToUint32(c)));
  }

  lemma AddFive(a: int, b: int, c: int, d: int, e: int)
    ensures Add32([a, b, c, d, e])
         == Plus(Plus(Plus(Plus(ToUint32(a), ToUint32(b)), ToUint32(c)), ToUint32(d)), ToUint32(e))
  {
    AddFour(a, b, c, d);
    AddAppend(0, [a, b, c, d], e);
    assert [a, b, c, d] + [e] == [a, b, c, d, e];
    WordOfWord(Add32([a, b, c, d]));
  }

  lemma Xor3Word(a: int, b: int, c: int)
    ensures ToUint32(JsXor(JsXor(a, b), c)) == Xor3(ToUint32(a), ToUint32(b), ToUint32(c))
  {
    GateWord(Xor, a, b);
    GateWord(Xor, JsXor(a, b), c);
  }

  function JsBigSigma(x: int, p: nat, q: nat, r: nat): int
    requires 0 < p < 32 && 0 < q < 32 && 0 < r < 32
  {
    JsXor(JsXor(JsRotateRight(x, p), JsRotateRight(x, q)), JsRotateRight(x, r))
  }

  function JsSmallSigma(x: int, p: nat, q: nat, r: nat): int
    requires 0 < p < 32 && 0 < q < 32 && 0 < r < 32
  {
    JsXor(JsXor(JsRotateRight(x, p), JsRotateRight(x, q)), JsUshr(x, r))
  }

  lemma BigSigmaWord(x: int, p: nat, q: nat, r: nat)
    requires 0 < p < 32 && 0 < q < 32 && 0 < r < 32
    ensures var u := ToUint32(x);
      ToUint32(JsBigSigma(x, p, q, r)) == Xor3(RotateRight(u, p), RotateRight(u, q), RotateRight(u, r))
  {
    RotateWord(x, p);
    RotateWord(x, q);
    RotateWord(x, r);
    Xor3Word(JsRotateRight(x, p), JsRotateRight(x, q), JsRotateRight(x, r));
  }

  lemma SmallSigmaWord(x: int, p: nat, q: nat, r: nat)
    requires 0 < p < 32 && 0 < q < 32 && 0 < r < 32
    ensures var u := ToUint32(x);
      ToUint32(JsSmallSigma(x, p, q, r)) == Xor3(RotateRight(u, p), RotateRight(u, q), ShiftRight(u, r))
  {
    RotateWord(x, p);
    RotateWord(x, q);
    UshrWord(x, r);
    Xor3Word(JsRotateRight(x, p), JsRotateRight(x, q), JsUshr(x, r));
  }

  function JsCh(e: int, f: int, g: int): int {
    JsXor(JsAnd(e, f), JsAnd(JsNot(e), g))
  }

  function JsMaj(a: int, b: int, c: int): int {
    JsXor(JsXor(JsAnd(a, b), JsAnd(a, c)), JsAnd(b, c))
  }

  lemma ChWord(e: int, f: int, g: int)
    ensures ToUint32(JsCh(e, f, g)) == Ch(ToUint32(e), ToUint32(f), ToUint32(g))
  {
    GateWord(And, e, f);
    NotWord(e);
    GateWord(And, JsNot(e), g);
    GateWord(Xor, JsAnd(e, f), JsAnd(JsNot(e), g));
  }

  lemma MajWord(a: int, b: int, c: int)
    ensures ToUint32(JsMaj(a, b, c)) == Maj(ToUint32(a), ToUint32(b), ToUint32(c))
  {
    GateWord(And, a, b);
    GateWord(And, a, c);
    GateWord(And, b, c);
    Xor3Word(JsAnd(a, b), JsAnd(a, c), JsAnd(b, c));
  }
}

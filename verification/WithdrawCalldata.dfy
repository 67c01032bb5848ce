/** The hand-built withdraw calldata, against the Solidity ABI specification.
    Models encodeWithdrawCalldata, encodeUint256, encodeDynamicBytes and encodeBytes32Array of
    apps/web/src/product/shieldedTransfersHelpers.ts.

    Hex text is without its 0x, trimmed, in lower case. */
module WithdrawCalldata {
  import opened Wrappers
  import opened Collections
  import opened NumberText
  import opened Powers

  const WITHDRAW_SELECTOR: string := "9b0c797c"
  const PUBLIC_INPUTS: nat := 12

  datatype CalldataError =
    | ProofNotHex | WrongInputCount | NullifierNotBytes32 | DestinationNotAddress | AmountNotInteger
    | AmountNotPositive | InputNotBytes32

  datatype Args = Args(
    proof: string, publicInputs: seq<string>, nullifier: string, destination: string, amount: nat)

  predicate IsHexBytes(s: string) {
    AreDigits(Sixteen, s) && |s| % 2 == 0
  }

  predicate IsBytes32(s: string) {
    AreDigits(Sixteen, s) && |s| == 64
  }

  predicate IsAddress(s: string) {
    AreDigits(Sixteen, s) && |s| == 40
  }

  predicate AllBytes32(values: seq<string>) {
    forall i :: 0 <= i < |values| ==> IsBytes32(values[i])
  }

  // The encoder.

  function EncodeUint256(value: nat): string {
    PadStart(ToText(Sixteen, value), 64, '0')
  }

  /** The hex length of the padded content: a multiple of 64. */
  function PaddedLength(length: nat): (r: nat)
    ensures length <= r < length + 64 && r % 64 == 0
  {
    (length + 63) / 64 * 64
  }

  function EncodeDynamicBytes(bytes: string): string {
    EncodeUint256(|bytes| / 2) + PadEnd(bytes, PaddedLength(|bytes|), '0')
  }

  function Concat(values: seq<string>): string {
    if values == [] then [] else values[0] + Concat(values[1..])
  }

  function EncodeBytes32Array(values: seq<string>): Result<string, CalldataError> {
    if AllBytes32(values) then Success(EncodeUint256(|values|) + Concat(values)) else Failure(InputNotBytes32)
  }

  /** The five words of the head, then the two dynamic parts. */
  function EncodeWithdrawCalldata(proof: string, publicInputs: seq<string>, nullifier: string, destination: string,
      amountText: string): Result<string, CalldataError>
  {
    var proofTail := EncodeDynamicBytes(proof);
    :- Need(IsHexBytes(proof), ProofNotHex);
    :- Need(|publicInputs| == PUBLIC_INPUTS, WrongInputCount);
    :- Need(IsBytes32(nullifier), NullifierNotBytes32);
    :- Need(IsAddress(destination), DestinationNotAddress);
    :- Need(amountText != [] && AreDigits(Ten, amountText), AmountNotInteger);
    var amount := NumberOf(Ten, amountText);
    :- Need(amount >= 1, AmountNotPositive);
    var inputsTail :- EncodeBytes32Array(publicInputs);
    Success(WITHDRAW_SELECTOR
            + (EncodeUint256(160) + (EncodeUint256(160 + |proofTail| / 2) + (nullifier
               + (PadStart(destination, 64, '0') + (EncodeUint256(amount) + (proofTail + inputsTail)))))))
  }

  // The ABI specification, "Formal Specification of the Encoding": heads of static values in place, and byte
  // offsets to the tails of dynamic ones, counted from the start of the arguments.

  /** The 32-byte word at a hex position, when it is there. */
  function WordText(a: string, at: nat): Option<string> {
    if at + 64 <= |a| then Some(a[at..at + 64]) else None
  }

  function WordAt(a: string, at: nat): Option<nat> {
    match WordText(a, at)
    case Some(w) => if AreDigits(Sixteen, w) then Some(NumberOf(Sixteen, w)) else None
    case None => None
  }

  /** A dynamic byte string: its length in bytes, then its bytes. */
  function BytesAt(a: string, offset: nat): Option<string> {
    match WordAt(a, 2 * offset)
    case Some(length) =>
      var start := 2 * offset + 64;
      if start + 2 * length <= |a| then Some(a[start..start + 2 * length]) else None
    case None => None
  }

  /** A dynamic array of words: its length, then its elements. */
  function WordsAt(a: string, offset: nat): Option<seq<string>> {
    match WordAt(a, 2 * offset)
    case Some(length) =>
      var start := 2 * offset + 64;
      if start + 64 * length <= |a| then Some(ReadWords(a, start, length)) else None
    case None => None
  }

  function ReadWords(a: string, start: nat, count: nat): (words: seq<string>)
    requires start + 64 * count <= |a|
    ensures |words| == count
  {
    seq(count, i requires 0 <= i < count => a[start + 64 * i..start + 64 * i + 64])
  }

  /** An address word: twelve zero bytes and the address. */
  function AddressAt(a: string, at: nat): Option<string> {
    match WordText(a, at)
    case Some(w) => if w[..24] == Repeat('0', 24) then Some(w[24..]) else None
    case None => None
  }

  function DecodeArguments(a: string): Option<Args> {
    match (WordAt(a, 0), WordAt(a, 64), WordText(a, 128), AddressAt(a, 192), WordAt(a, 256))
    case (Some(proofOffset), Some(inputsOffset), Some(nullifier), Some(destination), Some(amount)) => (
      match (BytesAt(a, proofOffset), WordsAt(a, inputsOffset))
      case (Some(proof), Some(inputs)) => Some(Args(proof, inputs, nullifier, destination, amount))
      case _ => None
    )
    case _ => None
  }

  function DecodeWithdraw(data: string): Option<Args> {
    if |data| >= 8 && data[..8] == WITHDRAW_SELECTOR then DecodeArguments(data[8..]) else None
  }

  // Reading the parts back.

  lemma PowersOfSixteen()
    ensures Power(Sixteen, 64) == TWO256
  {
    assert Power(Sixteen, 8) == 0x1_00000000;
    assert Power(Sixteen, 16) == 0x1_00000000_00000000;
    assert Power(Sixteen, 24) == 0x1_00000000_00000000_00000000;
    assert Power(Sixteen, 32) == 0x1_00000000_00000000_00000000_00000000;
    assert Power(Sixteen, 40) == 0x1_00000000_00000000_00000000_00000000_00000000;
    assert Power(Sixteen, 48) == 0x1_00000000_00000000_00000000_00000000_00000000_00000000;
    assert Power(Sixteen, 56) == 0x1_00000000_00000000_00000000_00000000_00000000_00000000_00000000;
  }

  /** A number below 2^256 is encoded in one word, and reads back. */
  lemma WordReadsBack(value: nat)
    requires value < TWO256
    ensures |EncodeUint256(value)| == 64 && AreDigits(Sixteen, EncodeUint256(value))
    ensures NumberOf(Sixteen, EncodeUint256(value)) == value
  {
    PowersOfSixteen();
    PaddedIsFixed(Sixteen, 64, value);
    NumberOfFixed(Sixteen, 64, value);
  }

  /** A word at its place. */
  lemma WordInPlace(before: string, value: nat, after: string)
    requires value < TWO256
    ensures WordAt(before + (EncodeUint256(value) + after), |before|) == Some(value)
  {
    WordReadsBack(value);
    MiddleSlice(before, EncodeUint256(value), after);
  }

  /** A byte string at its place. */
  lemma BytesInPlace(before: string, bytes: string, after: string, offset: nat)
    requires IsHexBytes(bytes) && |bytes| / 2 < TWO256 && |before| == 2 * offset
    ensures BytesAt(before + (EncodeDynamicBytes(bytes) + after), offset) == Some(bytes)
  {
    var length := EncodeUint256(|bytes| / 2);
    var zeros := Repeat('0', PaddedLength(|bytes|) - |bytes|);
    var rest := zeros + after;
    WordReadsBack(|bytes| / 2);
    PadEndIs(bytes, PaddedLength(|bytes|));
    ConcatAssociates(length, bytes + zeros, after);
    ConcatAssociates(bytes, zeros, after);
    WordInPlace(before, |bytes| / 2, bytes + rest);
    ConcatAssociates(before, length, bytes + rest);
    MiddleSlice(before + length, bytes, rest);
  }

  lemma PadEndIs(s: string, width: nat)
    requires |s| <= width
    ensures PadEnd(s, width, '0') == s + Repeat('0', width - |s|)
  {
  }

  lemma {:induction false} ConcatLength(values: seq<string>)
    requires AllBytes32(values)
    ensures |Concat(values)| == 64 * |values|
  {
    if values != [] {
      ConcatLength(values[1..]);
    }
  }

  lemma {:induction false} ConcatAt(values: seq<string>, i: nat)
    requires AllBytes32(values) && i < |values|
    ensures |Concat(values)| == 64 * |values| && Concat(values)[64 * i..64 * i + 64] == values[i]
  {
    ConcatLength(values);
    ConcatLength(values[1..]);
    if i > 0 {
      ConcatAt(values[1..], i - 1);
      var rest := Concat(values[1..]);
      assert (values[0] + rest)[64 * i..64 * i + 64] == rest[64 * (i - 1)..64 * (i - 1) + 64];
    }
  }

  lemma SliceOfSuffix(before: string, words: string, i: nat)
    requires 64 * i + 64 <= |words|
    ensures (before + words)[|before| + 64 * i..|before| + 64 * i + 64] == words[64 * i..64 * i + 64]
  {
  }

  lemma WordsReadBack(before: string, values: seq<string>)
    requires AllBytes32(values)
    ensures |Concat(values)| == 64 * |values|
    ensures ReadWords(before + Concat(values), |before|, |values|) == values
  {
    ConcatLength(values);
    var read := ReadWords(before + Concat(values), |before|, |values|);
    forall i | 0 <= i < |values|
      ensures read[i] == values[i]
    {
      ConcatAt(values, i);
      SliceOfSuffix(before, Concat(values), i);
    }
  }

  /** An array of words at the end. */
  lemma WordsInPlace(before: string, values: seq<string>, offset: nat)
    requires AllBytes32(values) && |values| < TWO256 && |before| == 2 * offset
    ensures WordsAt(before + (EncodeUint256(|values|) + Concat(values)), offset) == Some(values)
  {
    var length, words := EncodeUint256(|values|), Concat(values);
    WordReadsBack(|values|);
    WordInPlace(before, |values|, words);
    ConcatAssociates(before, length, words);
    WordsReadBack(before + length, values);
  }

  /** An address word at its place. */
  lemma AddressInPlace(before: string, destination: string, after: string)
    requires IsAddress(destination)
    ensures |PadStart(destination, 64, '0')| == 64
    ensures AddressAt(before + (PadStart(destination, 64, '0') + after), |before|) == Some(destination)
  {
    var word := PadStart(destination, 64, '0');
    MiddleSlice(before, word, after);
    assert word[..24] == Repeat('0', 24) && word[24..] == destination;
  }

  // The round trip.

  /** The head and the tails of encoded arguments. */
  function Layout(x: Args): string {
    EncodeUint256(160) + (EncodeUint256(InputsOffset(x)) + (x.nullifier
    + (PadStart(x.destination, 64, '0') + (EncodeUint256(x.amount) + Tails(x)))))
  }

  function Tails(x: Args): string {
    EncodeDynamicBytes(x.proof) + (EncodeUint256(|x.publicInputs|) + Concat(x.publicInputs))
  }

  function InputsOffset(x: Args): nat {
    160 + |EncodeDynamicBytes(x.proof)| / 2
  }

  /** Arguments the encoder takes, with an amount that fits in a word. */
  predicate Encodable(x: Args) {
    && IsHexBytes(x.proof) && |x.proof| < TWO256 && |x.publicInputs| == PUBLIC_INPUTS && AllBytes32(x.publicInputs)
    && IsBytes32(x.nullifier) && IsAddress(x.destination) && 1 <= x.amount < TWO256
  }

  /** The five words of the head, as they are read. */
  lemma HeadReadsBack(x: Args)
    requires Encodable(x)
    ensures var a := Layout(x);
      && InputsOffset(x) < TWO256 && WordAt(a, 0) == Some(160) && WordAt(a, 64) == Some(InputsOffset(x))
      && WordText(a, 128) == Some(x.nullifier) && AddressAt(a, 192) == Some(x.destination)
      && WordAt(a, 256) == Some(x.amount)
  {
    WordReadsBack(|x.proof| / 2);
    var offset := InputsOffset(x);
    var h0, h1, h3, h4 := EncodeUint256(160), EncodeUint256(offset), PadStart(x.destination, 64, '0'),
      EncodeUint256(x.amount);
    var r4 := h4 + Tails(x);
    var r3 := h3 + r4;
    var r2 := x.nullifier + r3;
    WordReadsBack(160);
    WordReadsBack(offset);
    EmptyFront(h0 + (h1 + r2));
    WordInPlace([], 160, h1 + r2);
    WordInPlace(h0, offset, r2);
    ConcatAssociates(h0, h1, r2);
    MiddleSlice(h0 + h1, x.nullifier, r3);
    ConcatAssociates(h0 + h1, x.nullifier, r3);
    AddressInPlace(h0 + h1 + x.nullifier, x.destination, r4);
    ConcatAssociates(h0 + h1 + x.nullifier, h3, r4);
    WordInPlace(h0 + h1 + x.nullifier + h3, x.amount, Tails(x));
  }

  lemma EmptyFront(s: string)
    ensures [] + s == s
  {
  }

  /** The head is five words before the tails. */
  lemma LayoutSplits(x: Args) returns (head: string)
    requires Encodable(x)
    ensures |head| == 320 && Layout(x) == head + Tails(x)
  {
    WordReadsBack(|x.proof| / 2);
    var h0, h1, h3, h4 := EncodeUint256(160), EncodeUint256(InputsOffset(x)), PadStart(x.destination, 64, '0'),
      EncodeUint256(x.amount);
    WordReadsBack(160);
    WordReadsBack(InputsOffset(x));
    WordReadsBack(x.amount);
    AddressInPlace([], x.destination, []);
    head := h0 + (h1 + (x.nullifier + (h3 + h4)));
    ConcatAssociates(h3, h4, Tails(x));
    ConcatAssociates(x.nullifier, h3 + h4, Tails(x));
    ConcatAssociates(h1, x.nullifier + (h3 + h4), Tails(x));
    ConcatAssociates(h0, h1 + (x.nullifier + (h3 + h4)), Tails(x));
  }

  lemma ProofReadsBack(x: Args, head: string)
    requires Encodable(x) && |head| == 320 && Layout(x) == head + Tails(x)
    ensures BytesAt(Layout(x), 160) == Some(x.proof)
  {
    BytesInPlace(head, x.proof, EncodeUint256(|x.publicInputs|) + Concat(x.publicInputs), 160);
  }

  lemma WordsAfter(head: string, tail: string, values: seq<string>, offset: nat)
    requires AllBytes32(values) && |values| < TWO256 && |head| + |tail| == 2 * offset
    ensures WordsAt(head + (tail + (EncodeUint256(|values|) + Concat(values))), offset) == Some(values)
  {
    ConcatAssociates(head, tail, EncodeUint256(|values|) + Concat(values));
    WordsInPlace(head + tail, values, offset);
  }

  lemma TailLength(bytes: string)
    requires |bytes| / 2 < TWO256
    ensures |EncodeDynamicBytes(bytes)| == 64 + PaddedLength(|bytes|)
  {
    WordReadsBack(|bytes| / 2);
    PadEndIs(bytes, PaddedLength(|bytes|));
  }

  lemma WholeWordsAreEven(words: nat, length: nat)
    requires length % 64 == 0 && words == 64 + length
    ensures 320 + words == 2 * (160 + words / 2)
  {
    QuotientIs(words, 2, 32 + 32 * (length / 64), 0);
  }

  lemma OffsetIsExact(x: Args)
    requires Encodable(x)
    ensures 320 + |EncodeDynamicBytes(x.proof)| == 2 * InputsOffset(x)
  {
    TailLength(x.proof);
    WholeWordsAreEven(|EncodeDynamicBytes(x.proof)|, PaddedLength(|x.proof|));
  }

  lemma InputsReadBack(x: Args, head: string)
    requires Encodable(x) && |head| == 320 && Layout(x) == head + Tails(x)
    ensures WordsAt(Layout(x), InputsOffset(x)) == Some(x.publicInputs)
  {
    OffsetIsExact(x);
    WordsAfter(head, EncodeDynamicBytes(x.proof), x.publicInputs, InputsOffset(x));
  }

  lemma LayoutDecodes(x: Args)
    requires Encodable(x)
    ensures DecodeArguments(Layout(x)) == Some(x)
  {
    HeadReadsBack(x);
    var head := LayoutSplits(x);
    ProofReadsBack(x, head);
    InputsReadBack(x, head);
  }

  /** The arguments a call of the encoder names. */
  function ArgsOf(proof: string, publicInputs: seq<string>, nullifier: string, destination: string, amountText: string)
    : Args
    requires AreDigits(Ten, amountText)
  {
    Args(proof, publicInputs, nullifier, destination, NumberOf(Ten, amountText))
  }

  lemma EncodedIsLayout(proof: string, publicInputs: seq<string>, nullifier: string, destination: string,
      amountText: string)
    requires EncodeWithdrawCalldata(proof, publicInputs, nullifier, destination, amountText).Success?
    ensures AreDigits(Ten, amountText)
    ensures EncodeWithdrawCalldata(proof, publicInputs, nullifier, destination, amountText).value
         == WITHDRAW_SELECTOR + Layout(ArgsOf(proof, publicInputs, nullifier, destination, amountText))
  {
  }

  lemma SelectorStrips(a: string)
    ensures DecodeWithdraw(WITHDRAW_SELECTOR + a) == DecodeArguments(a)
  {
  }

  /** A decoded amount fits in a word. */
  lemma DecodedAmountFits(a: string)
    requires DecodeArguments(a).Some?
    ensures DecodeArguments(a).value.amount < TWO256
  {
    PowersOfSixteen();
    FixedOfNumber(Sixteen, a[256..256 + 64]);
  }

  /** Decoding the calldata by the specification gives the arguments back exactly when the amount is below 2^256,
      for every proof a string can hold. */
  lemma DecodesIffAmountFits(proof: string, publicInputs: seq<string>, nullifier: string, destination: string,
      amountText: string)
    requires EncodeWithdrawCalldata(proof, publicInputs, nullifier, destination, amountText).Success?
    requires |proof| < TWO256
    ensures AreDigits(Ten, amountText)
    ensures var x := ArgsOf(proof, publicInputs, nullifier, destination, amountText);
      DecodeWithdraw(EncodeWithdrawCalldata(proof, publicInputs, nullifier, destination, amountText).value) == Some(x)
      <==> x.amount < TWO256
  {
    EncodedIsLayout(proof, publicInputs, nullifier, destination, amountText);
    var x := ArgsOf(proof, publicInputs, nullifier, destination, amountText);
    SelectorStrips(Layout(x));
    if x.amount < TWO256 {
      LayoutDecodes(x);
    } else if DecodeArguments(Layout(x)).Some? {
      DecodedAmountFits(Layout(x));
    }
  }

  /** The encoder takes exactly whole hex bytes as proof, twelve 32-byte inputs, a 32-byte nullifier, an address and a
      positive decimal integer. */
  lemma EncodesIff(proof: string, publicInputs: seq<string>, nullifier: string, destination: string, amountText: string)
    ensures EncodeWithdrawCalldata(proof, publicInputs, nullifier, destination, amountText).Success? <==>
      && AreDigits(Sixteen, proof) && |proof| % 2 == 0 && |publicInputs| == 12
      && (forall i :: 0 <= i < |publicInputs| ==> AreDigits(Sixteen, publicInputs[i]) && |publicInputs[i]| == 64)
      && AreDigits(Sixteen, nullifier) && |nullifier| == 64 && AreDigits(Sixteen, destination) && |destination| == 40
      && amountText != [] && AreDigits(Ten, amountText) && NumberOf(Ten, amountText) > 0
    ensures EncodeWithdrawCalldata(proof, publicInputs, nullifier, destination, amountText).Success? ==>
      "9b0c797c" <= EncodeWithdrawCalldata(proof, publicInputs, nullifier, destination, amountText).value
  {
  }

  /** Where the head holds what: the offsets of the two tails, the nullifier, the address in the low bytes of its
      word, and the amount. */
  lemma HeadIsInPlace(x: Args)
    requires Encodable(x)
    ensures var a := Layout(x);
      && |a| >= 320 && a[128..192] == x.nullifier && a[216..256] == x.destination
      && (forall k :: 192 <= k < 216 ==> a[k] == '0')
      && AreDigits(Sixteen, a[..64]) && NumberOf(Sixteen, a[..64]) == 160
      && AreDigits(Sixteen, a[64..128]) && NumberOf(Sixteen, a[64..128]) == 192 + (|x.proof| + 63) / 64 * 32
      && AreDigits(Sixteen, a[256..320]) && NumberOf(Sixteen, a[256..320]) == x.amount
  {
    HeadReadsBack(x);
    TailLength(x.proof);
    TailOffset(PaddedLength(|x.proof|), (|x.proof| + 63) / 64);
    var a := Layout(x);
    assert a[0..64] == a[..64];
    AddressParts(a);
  }

  lemma AddressParts(a: string)
    requires 256 <= |a|
    ensures a[192..256][24..] == a[216..256]
    ensures a[192..256][..24] == Repeat('0', 24) ==> forall k :: 192 <= k < 216 ==> a[k] == '0'
  {
    if a[192..256][..24] == Repeat('0', 24) {
      forall k | 192 <= k < 216
        ensures a[k] == '0'
      {
        assert a[k] == a[192..256][..24][k - 192];
      }
    }
  }

  lemma TailOffset(padded: nat, words: nat)
    requires padded == words * 64
    ensures 160 + (64 + padded) / 2 == 192 + words * 32
  {
  }
}

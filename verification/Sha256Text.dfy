/** The hand-written SHA-256, proved to compute FIPS 180-4.
    Models sha256Hex of packages/core/src/v12UnlinkableSchemas.ts: loops over an array of sixty-four
    words and an array of eight state words, on JavaScript numbers. */
module Sha256Text {
  import opened Js32
  import opened BitMasks
  import opened NumberText
  import opened Sha256Spec
  import opened Sha256Words
  import opened Sha256Padding

  /** The first words of a message schedule, as the words their numbers stand for. */
  ghost predicate HoldsSchedule(words: seq<int>, block: seq<Word>, count: nat)
    requires |block| == 16
  {
    count <= |words| && forall i: nat :: i < count ==> ToUint32(words[i]) == Schedule(block, i)
  }

  /** Reads the sixteen words of block n from the padded bytes. */
  method LoadBlock(padded: seq<Byte>, n: nat, words: array<int>)
    requires words.Length == 64 && 64 * n + 64 <= |padded|
    modifies words
    ensures HoldsSchedule(words[..], BlockAt(BytesBits(padded), n), 16)
  {
    ghost var block := BlockAt(BytesBits(padded), n);
    for i := 0 to 16
      invariant HoldsSchedule(words[..], block, i)
    {
      var j := 64 * n + i * 4;
      ghost var before := words[..];
      words[i] := JsWord(padded[j], padded[j + 1], padded[j + 2], padded[j + 3]);
      BlockWord(padded, n, i, j);
      assert words[..] == before[i := words[i]];
    }
  }

  lemma BlockWord(padded: seq<Byte>, n: nat, i: nat, j: nat)
    requires i < 16 && 64 * n + 64 <= |padded| && j == 64 * n + i * 4
    ensures BlockAt(BytesBits(padded), n)[i]
         == ToUint32(JsWord(padded[j], padded[j + 1], padded[j + 2], padded[j + 3]))
  {
    WordOfBlock(padded, 16 * n + i, j);
    BlockAtWord(BytesBits(padded), n, i);
  }

  lemma BlockAtWord(bits: Bits, n: nat, i: nat)
    requires i < 16 && 512 * n + 512 <= |bits|
    ensures BlockAt(bits, n)[i] == WordAt(bits, 16 * n + i)
  {
  }

  /** Fills in the other forty-eight words. */
  method ExpandSchedule(words: array<int>, ghost block: seq<Word>)
    requires words.Length == 64 && |block| == 16 && HoldsSchedule(words[..], block, 16)
    modifies words
    ensures HoldsSchedule(words[..], block, 64)
  {
    for i := 16 to 64
      invariant HoldsSchedule(words[..], block, i)
    {
      var s0 := JsSmallSigma(words[i - 15], 7, 18, 3);
      var s1 := JsSmallSigma(words[i - 2], 17, 19, 10);
      ScheduleStep(block, i, words[i - 16], words[i - 15], words[i - 7], words[i - 2]);
      ghost var before := words[..];
      words[i] := Add32([words[i - 16], s0, words[i - 7], s1]);
      assert words[..] == before[i := words[i]];
    }
  }

  /** Adding a word to a sum reduced modulo 2^32. */
  lemma PlusOfSum(s: int, y: Word)
    ensures Plus(s % TWO32, y) == (s + y) % TWO32
  {
  }

  lemma PlusOfFour(a: Word, b: Word, c: Word, d: Word)
    ensures Plus(Plus(Plus(a, b), c), d) == (a + b + c + d) % TWO32
  {
    PlusOfSum(a + b, c);
    PlusOfSum(a + b + c, d);
  }

  lemma ScheduleSum(w16: int, s0: int, w7: int, s1: int)
    ensures ToUint32(Add32([w16, s0, w7, s1]))
         == Plus(Plus(Plus(ToUint32(s1), ToUint32(w7)), ToUint32(s0)), ToUint32(w16))
  {
    AddFour(w16, s0, w7, s1);
    PlusOfFour(ToUint32(w16), ToUint32(s0), ToUint32(w7), ToUint32(s1));
    PlusOfFour(ToUint32(s1), ToUint32(w7), ToUint32(s0), ToUint32(w16));
    WordOfWord(Add32([w16, s0, w7, s1]));
  }

  lemma ScheduleStep(block: seq<Word>, i: nat, w16: int, w15: int, w7: int, w2: int)
    requires |block| == 16 && i >= 16
    requires ToUint32(w16) == Schedule(block, i - 16) && ToUint32(w15) == Schedule(block, i - 15)
    requires ToUint32(w7) == Schedule(block, i - 7) && ToUint32(w2) == Schedule(block, i - 2)
    ensures ToUint32(Add32([w16, JsSmallSigma(w15, 7, 18, 3), w7, JsSmallSigma(w2, 17, 19, 10)]))
         == Schedule(block, i)
  {
    SmallSigmaWord(w15, 7, 18, 3);
    SmallSigmaWord(w2, 17, 19, 10);
    ScheduleSum(w16, JsSmallSigma(w15, 7, 18, 3), w7, JsSmallSigma(w2, 17, 19, 10));
  }

  /** One round of the loop on numbers is one round of the standard on their words. */
  lemma RoundStep(s: seq<int>, k: Word, w: int, temp1: int, temp2: int)
    requires |s| == 8
    requires temp1 == Add32([s[7], JsBigSigma(s[4], 6, 11, 25), JsCh(s[4], s[5], s[6]), k, w])
    requires temp2 == Add32([JsBigSigma(s[0], 2, 13, 22), JsMaj(s[0], s[1], s[2])])
    ensures VarsOf([Add32([temp1, temp2]), s[0], s[1], s[2], Add32([s[3], temp1]), s[4], s[5], s[6]])
         == Round(VarsOf(s), k, ToUint32(w))
  {
    Temp1Word(s[4], s[5], s[6], s[7], k, w);
    Temp2Word(s[0], s[1], s[2]);
    AddTwo(temp1, temp2);
    AddTwo(s[3], temp1);
    WordOfWord(Add32([temp1, temp2]));
    WordOfWord(Add32([s[3], temp1]));
  }

  lemma Temp1Word(e: int, f: int, g: int, h: int, k: Word, w: int)
    ensures var u := ToUint32(e);
      ToUint32(Add32([h, JsBigSigma(e, 6, 11, 25), JsCh(e, f, g), k, w]))
      == Plus(Plus(Plus(Plus(ToUint32(h), BigSigma1(u)), Ch(u, ToUint32(f), ToUint32(g))), k), ToUint32(w))
  {
    BigSigmaWord(e, 6, 11, 25);
    ChWord(e, f, g);
    WordOfWord(k);
    AddFive(h, JsBigSigma(e, 6, 11, 25), JsCh(e, f, g), k, w);
    WordOfWord(Add32([h, JsBigSigma(e, 6, 11, 25), JsCh(e, f, g), k, w]));
  }

  lemma Temp2Word(a: int, b: int, c: int)
    ensures ToUint32(Add32([JsBigSigma(a, 2, 13, 22), JsMaj(a, b, c)]))
         == Plus(BigSigma0(ToUint32(a)), Maj(ToUint32(a), ToUint32(b), ToUint32(c)))
  {
    BigSigmaWord(a, 2, 13, 22);
    MajWord(a, b, c);
    AddTwo(JsBigSigma(a, 2, 13, 22), JsMaj(a, b, c));
    WordOfWord(Add32([JsBigSigma(a, 2, 13, 22), JsMaj(a, b, c)]));
  }

  /** The eight variables as the words they stand for. */
  function VarsOf(s: seq<int>): Vars
    requires |s| == 8
  {
    Vars(ToUint32(s[0]), ToUint32(s[1]), ToUint32(s[2]), ToUint32(s[3]),
         ToUint32(s[4]), ToUint32(s[5]), ToUint32(s[6]), ToUint32(s[7]))
  }

  /** The sixty-four rounds on the working variables. */
  method RunRounds(state: seq<Word>, words: array<int>, ghost block: seq<Word>) returns (s: seq<int>)
    requires |state| == 8 && words.Length == 64 && |block| == 16 && HoldsSchedule(words[..], block, 64)
    ensures |s| == 8 && VarsOf(s) == Rounds(VarsOf(state), block, 64)
  {
    var a, b, c, d := state[0], state[1], state[2], state[3];
    var e, f, g, h := state[4], state[5], state[6], state[7];
    for i := 0 to 64
      invariant VarsOf([a, b, c, d, e, f, g, h]) == Rounds(VarsOf(state), block, i)
    {
      var s1 := JsBigSigma(e, 6, 11, 25);
      var ch := JsCh(e, f, g);
      var temp1 := Add32([h, s1, ch, K(i), words[i]]);
      var s0 := JsBigSigma(a, 2, 13, 22);
      var maj := JsMaj(a, b, c);
      var temp2 := Add32([s0, maj]);
      RoundStep([a, b, c, d, e, f, g, h], K(i), words[i], temp1, temp2);
      h := g;
      g := f;
      f := e;
      e := Add32([d, temp1]);
      d := c;
      c := b;
      b := a;
      a := Add32([temp1, temp2]);
    }
    s := [a, b, c, d, e, f, g, h];
  }

  /** Adds the working variables into the state, in place. */
  method AddIntoState(state: array<Word>, s: seq<int>)
    requires state.Length == 8 && |s| == 8
    modifies state
    ensures VarsOf(state[..]) == AddVars(old(VarsOf(state[..])), VarsOf(s))
  {
    AddStateWords(state[..], s);
    state[0] := Add32([state[0], s[0]]);
    state[1] := Add32([state[1], s[1]]);
    state[2] := Add32([state[2], s[2]]);
    state[3] := Add32([state[3], s[3]]);
    state[4] := Add32([state[4], s[4]]);
    state[5] := Add32([state[5], s[5]]);
    state[6] := Add32([state[6], s[6]]);
    state[7] := Add32([state[7], s[7]]);
  }

  lemma AddStateWords(state: seq<Word>, s: seq<int>)
    requires |state| == 8 && |s| == 8
    ensures forall k :: 0 <= k < 8 ==>
      ToUint32(Add32([state[k], s[k]])) == Plus(ToUint32(state[k]), ToUint32(s[k]))
  {
    forall k | 0 <= k < 8
      ensures ToUint32(Add32([state[k], s[k]])) == Plus(ToUint32(state[k]), ToUint32(s[k]))
    {
      AddTwo(state[k], s[k]);
      WordOfWord(Add32([state[k], s[k]]));
    }
  }

  /** One pass of the block loop. */
  method CompressBlock(padded: seq<Byte>, n: nat, words: array<int>, state: array<Word>, ghost bits: Bits)
    requires words.Length == 64 && state.Length == 8
    requires 64 * n + 64 <= |padded| && bits == BytesBits(padded)
    modifies words, state
    ensures VarsOf(state[..]) == Compress(old(VarsOf(state[..])), BlockAt(bits, n))
  {
    LoadBlock(padded, n, words);
    ghost var block := BlockAt(BytesBits(padded), n);
    ExpandSchedule(words, block);
    var s := RunRounds(state[..], words, block);
    AddIntoState(state, s);
  }

  /** Eight hexadecimal digits for each word of the hash value. */
  function DigestHex(v: Vars): string {
    Fixed(Sixteen, 8, v.a) + Fixed(Sixteen, 8, v.b) + Fixed(Sixteen, 8, v.c) + Fixed(Sixteen, 8, v.d)
    + Fixed(Sixteen, 8, v.e) + Fixed(Sixteen, 8, v.f) + Fixed(Sixteen, 8, v.g) + Fixed(Sixteen, 8, v.h)
  }

  /** The text holds the eight words of the hash value in their order. */
  lemma DigestWords(v: Vars)
    ensures var words, s := [v.a, v.b, v.c, v.d, v.e, v.f, v.g, v.h], DigestHex(v);
      |s| == 64 && forall k :: 0 <= k < 8 ==> s[8 * k..8 * k + 8] == Fixed(Sixteen, 8, words[k])
  {
  }

  /** `word.toString(16).padStart(8, "0")`. */
  function WordHex(word: nat): string {
    PadStart(ToText(Sixteen, word), 8, '0')
  }

  lemma EightDigits()
    ensures Power(Sixteen, 8) == TWO32
  {
  }

  lemma WordHexIsFixed(word: Word)
    ensures WordHex(word) == Fixed(Sixteen, 8, word)
  {
    EightDigits();
    PaddedIsFixed(Sixteen, 8, word);
  }

  /** The state as text. */
  function StateText(s: seq<Word>): string
    requires |s| == 8
  {
    WordHex(s[0]) + WordHex(s[1]) + WordHex(s[2]) + WordHex(s[3])
    + WordHex(s[4]) + WordHex(s[5]) + WordHex(s[6]) + WordHex(s[7])
  }

  lemma StateHex(s: seq<Word>)
    requires |s| == 8
    ensures StateText(s) == DigestHex(VarsOf(s))
  {
    forall k | 0 <= k < 8
      ensures WordHex(s[k]) == Fixed(Sixteen, 8, ToUint32(s[k]))
    {
      WordHexIsFixed(s[k]);
      WordOfWord(s[k]);
    }
  }

  /** The state holds the hash value after n blocks. */
  ghost predicate HoldsHash(s: seq<Word>, bits: Bits, n: nat)
    requires 512 * n <= |bits|
  {
    |s| == 8 && VarsOf(s) == HashBlocks(bits, n)
  }

  lemma HashStep(before: seq<Word>, s: seq<Word>, bits: Bits, n: nat)
    requires 512 * n + 512 <= |bits| && HoldsHash(before, bits, n)
    requires |s| == 8 && VarsOf(s) == Compress(VarsOf(before), BlockAt(bits, n))
    ensures HoldsHash(s, bits, n + 1)
  {
  }

  /** The block loop over the whole padded message. */
  method HashPadded(padded: seq<Byte>, state: array<Word>, ghost bits: Bits)
    requires state.Length == 8 && |padded| % 64 == 0 && bits == BytesBits(padded)
    requires HoldsHash(state[..], bits, 0)
    modifies state
    ensures HoldsHash(state[..], bits, |padded| / 64)
  {
    var words := new int[64](i => 0);
    for n := 0 to |padded| / 64
      invariant HoldsHash(state[..], bits, n)
    {
      HashNext(padded, n, words, state, bits);
    }
  }

  method HashNext(padded: seq<Byte>, n: nat, words: array<int>, state: array<Word>, ghost bits: Bits)
    requires words.Length == 64 && state.Length == 8 && 64 * n + 64 <= |padded| && bits == BytesBits(padded)
    requires HoldsHash(state[..], bits, n)
    modifies words, state
    ensures HoldsHash(state[..], bits, n + 1)
  {
    ghost var before := state[..];
    CompressBlock(padded, n, words, state, bits);
    HashStep(before, state[..], bits, n);
  }

  lemma WholeMessage(bytes: seq<Byte>, padded: seq<Byte>)
    requires BytesBits(padded) == Pad(BytesBits(bytes))
    ensures |padded| % 64 == 0 && |Pad(BytesBits(bytes))| / 512 == |padded| / 64
  {
    PadIsWholeBlocks(BytesBits(bytes));
  }

  /** SHA-256 in hexadecimal, for every byte string the standard covers. */
  method Sha256Hex(bytes: seq<Byte>) returns (hex: string)
    requires 8 * |bytes| < TWO32 * TWO32
    ensures hex == DigestHex(Sha256(BytesBits(bytes)))
  {
    var state := new Word[8][INITIAL.a, INITIAL.b, INITIAL.c, INITIAL.d, INITIAL.e, INITIAL.f, INITIAL.g, INITIAL.h];
    InitialState(state[..]);
    var padded := PadBytes(bytes);
    WholeMessage(bytes, padded);
    HashPadded(padded, state, BytesBits(padded));
    StateHex(state[..]);
    hex := StateText(state[..]);
  }

  lemma InitialState(s: seq<int>)
    requires s == [INITIAL.a, INITIAL.b, INITIAL.c, INITIAL.d, INITIAL.e, INITIAL.f, INITIAL.g, INITIAL.h]
    ensures VarsOf(s) == INITIAL
  {
  }
}

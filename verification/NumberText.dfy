/** Numbers as digits: JavaScript's `toString`, `padStart` and `BigInt`, in bases ten and sixteen. */
module NumberText {

  datatype Base = Ten | Sixteen

  function Times(b: Base, x: int): int {
    match b
    case Ten => 10 * x
    case Sixteen => 16 * x
  }

  /** A number without its last digit. */
  function Front(b: Base, n: nat): nat {
    match b
    case Ten => n / 10
    case Sixteen => n / 16
  }

  function Last(b: Base, n: nat): (d: nat)
    ensures d < 16 && (b.Ten? ==> d < 10)
    ensures n == Times(b, Front(b, n)) + d
  {
    match b
    case Ten => n % 10
    case Sixteen => n % 16
  }

  function Digit(d: int): (c: char)
    requires 0 <= d < 16
    ensures ValueOfDigit(c) == d
  {
    if d < 10 then '0' + d as char else 'a' + (d - 10) as char
  }

  predicate IsDigit(b: Base, c: char) {
    '0' <= c <= '9' || (b.Sixteen? && 'a' <= c <= 'f')
  }

  function ValueOfDigit(c: char): int {
    if '0' <= c <= '9' then c as int - '0' as int else c as int - 'a' as int + 10
  }

  lemma DigitOfValue(b: Base, c: char)
    requires IsDigit(b, c)
    ensures 0 <= ValueOfDigit(c) < 16 && (b.Ten? ==> ValueOfDigit(c) < 10) && Digit(ValueOfDigit(c)) == c
  {
  }

  predicate AreDigits(b: Base, s: string) {
    forall i :: 0 <= i < |s| ==> IsDigit(b, s[i])
  }

  /** `n.toString(base)`. */
  function ToText(b: Base, n: nat): (s: string)
    ensures |s| > 0
  {
    if Front(b, n) == 0 then [Digit(Last(b, n))] else ToText(b, Front(b, n)) + [Digit(Last(b, n))]
  }

  /** The number some digits stand for; no digits stand for zero. */
  function NumberOf(b: Base, s: string): nat
    requires AreDigits(b, s)
  {
    if s == [] then 0
    else
      DigitOfValue(b, s[|s| - 1]);
      Times(b, NumberOf(b, s[..|s| - 1])) + ValueOfDigit(s[|s| - 1])
  }

  function Repeat(c: char, n: nat): (s: string)
    ensures |s| == n && forall k :: 0 <= k < n ==> s[k] == c
  {
    if n == 0 then [] else Repeat(c, n - 1) + [c]
  }

  /** `s.padStart(width, c)`. */
  function PadStart(s: string, width: nat, c: char): string {
    if |s| >= width then s else Repeat(c, width - |s|) + s
  }

  /** `s.padEnd(width, c)`. */
  function PadEnd(s: string, width: nat, c: char): string {
    if |s| >= width then s else s + Repeat(c, width - |s|)
  }

  /** The low `width` digits of a number. */
  function Fixed(b: Base, width: nat, n: nat): (s: string)
    ensures |s| == width
  {
    if width == 0 then [] else Fixed(b, width - 1, Front(b, n)) + [Digit(Last(b, n))]
  }

  function Power(b: Base, n: nat): (p: nat)
    ensures p > 0
  {
    if n == 0 then 1 else Times(b, Power(b, n - 1))
  }

  lemma {:induction false} FixedZero(b: Base, width: nat)
    ensures Fixed(b, width, 0) == Repeat('0', width)
  {
    if width > 0 {
      FixedZero(b, width - 1);
    }
  }

  lemma PadStartAppend(s: string, width: nat, last: char)
    requires |s| <= width
    ensures PadStart(s + [last], width + 1, '0') == PadStart(s, width, '0') + [last]
  {
  }

  lemma {:induction false} TextLength(b: Base, width: nat, n: nat)
    requires width > 0
    ensures n < Power(b, width) <==> |ToText(b, n)| <= width
  {
    if Front(b, n) > 0 {
      if width == 1 {
        assert Power(b, 1) == Times(b, 1);
      } else {
        TextLength(b, width - 1, Front(b, n));
      }
    } else {
      OneDigitFits(b, width);
    }
  }

  lemma {:induction false} OneDigitFits(b: Base, width: nat)
    requires width > 0
    ensures Power(b, width) >= Times(b, 1)
  {
  }

  /** Padding a number's text gives the fixed-width text, for every number that fits. */
  lemma {:induction false} PaddedIsFixed(b: Base, width: nat, n: nat)
    requires width > 0 && n < Power(b, width)
    ensures PadStart(ToText(b, n), width, '0') == Fixed(b, width, n)
  {
    if Front(b, n) == 0 {
      FixedZero(b, width - 1);
    } else {
      assert width > 1 by {
        assert Power(b, 1) == Times(b, 1);
      }
      TextLength(b, width - 1, Front(b, n));
      PaddedIsFixed(b, width - 1, Front(b, n));
      PadStartAppend(ToText(b, Front(b, n)), width - 1, Digit(Last(b, n)));
    }
  }

  // Reading digits back.

  lemma NumberAppend(b: Base, s: string, d: nat)
    requires AreDigits(b, s) && d < 16 && (b.Ten? ==> d < 10)
    ensures AreDigits(b, s + [Digit(d)]) && NumberOf(b, s + [Digit(d)]) == Times(b, NumberOf(b, s)) + d
  {
  }

  /** The fixed-width text of a number that fits reads back as the number. */
  lemma {:induction false} NumberOfFixed(b: Base, width: nat, n: nat)
    requires n < Power(b, width)
    ensures AreDigits(b, Fixed(b, width, n)) && NumberOf(b, Fixed(b, width, n)) == n
  {
    if width > 0 {
      NumberOfFixed(b, width - 1, Front(b, n));
      NumberAppend(b, Fixed(b, width - 1, Front(b, n)), Last(b, n));
    }
  }

  lemma {:induction false} NumberOfText(b: Base, n: nat)
    ensures AreDigits(b, ToText(b, n)) && NumberOf(b, ToText(b, n)) == n
  {
    if Front(b, n) == 0 {
      NumberAppend(b, [], Last(b, n));
      assert [] + [Digit(Last(b, n))] == [Digit(Last(b, n))];
    } else {
      NumberOfText(b, Front(b, n));
      NumberAppend(b, ToText(b, Front(b, n)), Last(b, n));
    }
  }

  lemma DigitsSplit(b: Base, s: string)
    requires AreDigits(b, s) && s != []
    ensures AreDigits(b, s[..|s| - 1]) && IsDigit(b, s[|s| - 1])
    ensures Front(b, NumberOf(b, s)) == NumberOf(b, s[..|s| - 1])
    ensures Digit(Last(b, NumberOf(b, s))) == s[|s| - 1]
  {
  }

  /** Digits are the fixed-width text of their number. */
  lemma {:induction false} FixedOfNumber(b: Base, s: string)
    requires AreDigits(b, s)
    ensures Fixed(b, |s|, NumberOf(b, s)) == s && NumberOf(b, s) < Power(b, |s|)
  {
    if s != [] {
      var front := s[..|s| - 1];
      DigitsSplit(b, s);
      FixedOfNumber(b, front);
      assert s == front + [s[|s| - 1]];
      BelowPower(b, NumberOf(b, front), NumberOf(b, s), |front|);
    }
  }

  lemma BelowPower(b: Base, front: nat, n: nat, width: nat)
    requires front < Power(b, width) && Front(b, n) == front
    ensures n < Power(b, width + 1)
  {
  }

  /** Digits without a leading zero are the text of their number. */
  lemma {:induction false} TextOfNumber(b: Base, s: string)
    requires AreDigits(b, s) && s != [] && (|s| > 1 ==> s[0] != '0')
    ensures ToText(b, NumberOf(b, s)) == s
  {
    var front := s[..|s| - 1];
    DigitsSplit(b, s);
    assert s == front + [s[|s| - 1]];
    if front == [] {
      assert NumberOf(b, front) == 0;
    } else {
      TextOfNumber(b, front);
      NonzeroFront(b, front);
    }
  }

  lemma {:induction false} NonzeroFront(b: Base, s: string)
    requires AreDigits(b, s) && s != [] && s[0] != '0'
    ensures NumberOf(b, s) > 0
  {
    DigitOfValue(b, s[|s| - 1]);
    if |s| == 1 {
      assert s[..0] == [];
    } else {
      NonzeroFront(b, s[..|s| - 1]);
    }
  }

  /** The text of a number has no leading zero. */
  lemma {:induction false} TextHasNoLeadingZero(b: Base, n: nat)
    ensures |ToText(b, n)| > 1 ==> ToText(b, n)[0] != '0'
    ensures n > 0 ==> ToText(b, n)[0] != '0'
  {
    if Front(b, n) > 0 {
      TextHasNoLeadingZero(b, Front(b, n));
    }
  }

  // Digits in a row.

  lemma TimesPower(b: Base, x: int, n: nat)
    ensures x * Power(b, n + 1) == Times(b, x * Power(b, n))
  {
    match b
    case Ten => assert x * (10 * Power(b, n)) == 10 * (x * Power(b, n));
    case Sixteen => assert x * (16 * Power(b, n)) == 16 * (x * Power(b, n));
  }

  lemma TimesSum(b: Base, x: int, y: int)
    ensures Times(b, x + y) == Times(b, x) + Times(b, y)
  {
  }

  lemma {:induction false} PowerSum(b: Base, m: nat, n: nat)
    ensures Power(b, m + n) == Power(b, m) * Power(b, n)
    decreases n
  {
    if n > 0 {
      PowerSum(b, m, n - 1);
      TimesPower(b, Power(b, m), n - 1);
    }
  }

  /** Digits after digits: the first count for as many places more as there are of the second. */
  lemma {:induction false} NumberOfConcat(b: Base, s: string, t: string)
    requires AreDigits(b, s) && AreDigits(b, t)
    ensures AreDigits(b, s + t) && NumberOf(b, s + t) == NumberOf(b, s) * Power(b, |t|) + NumberOf(b, t)
    decreases |t|
  {
    if t == [] {
      assert s + t == s;
    } else {
      var front, last := t[..|t| - 1], t[|t| - 1];
      NumberOfConcat(b, s, front);
      DigitOfValue(b, last);
      assert (s + t)[..|s + t| - 1] == s + front;
      TimesPower(b, NumberOf(b, s), |front|);
      TimesSum(b, NumberOf(b, s) * Power(b, |front|), NumberOf(b, front));
    }
  }

  lemma {:induction false} NumberOfZeros(b: Base, n: nat)
    ensures AreDigits(b, Repeat('0', n)) && NumberOf(b, Repeat('0', n)) == 0
  {
    if n > 0 {
      NumberOfZeros(b, n - 1);
      assert Digit(0) == '0';
      NumberAppend(b, Repeat('0', n - 1), 0);
      assert Repeat('0', n) == Repeat('0', n - 1) + ['0'];
    }
  }
}

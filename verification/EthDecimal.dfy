/** ETH amounts as decimal text.
    Models parseEthDecimalToWei and formatWeiToEthDecimal of apps/web/src/product/shieldedTransfersHelpers.ts,
    from the trimmed text on. */
module EthDecimal {
  import opened Wrappers
  import opened Collections
  import opened NumberText

  datatype DecimalError = NotDecimal | TooManyPlaces | NotPositive | NotInteger

  /** The wei of whole ETH and a rest. */
  function Wei(whole: nat, rest: nat): nat {
    whole * 1_000_000_000_000_000_000 + rest
  }

  function WholeEth(wei: nat): nat {
    wei / 1_000_000_000_000_000_000
  }

  function RestWei(wei: nat): (rest: nat)
    ensures IsRest(rest)
  {
    wei % 1_000_000_000_000_000_000
  }

  predicate IsRest(rest: nat) {
    rest < 1_000_000_000_000_000_000
  }

  lemma SplitWei(wei: nat)
    ensures Wei(WholeEth(wei), RestWei(wei)) == wei
  {
  }

  lemma WeiParts(whole: nat, rest: nat)
    requires IsRest(rest)
    ensures WholeEth(Wei(whole, rest)) == whole && RestWei(Wei(whole, rest)) == rest
  {
  }

  /** The place of the first point, or the length when there is none. */
  function PointAt(s: string): (i: nat)
    ensures i <= |s|
  {
    if s == [] then 0 else if s[0] == '.' then 0 else 1 + PointAt(s[1..])
  }

  function WholePart(s: string): string {
    s[..PointAt(s)]
  }

  function FractionPart(s: string): string {
    if PointAt(s) == |s| then [] else s[PointAt(s) + 1..]
  }

  predicate HasPoint(s: string) {
    PointAt(s) < |s|
  }

  /** Digits with at most one point among them, and at least one digit. */
  predicate IsDecimal(s: string) {
    && AreDigits(Ten, WholePart(s)) && AreDigits(Ten, FractionPart(s))
    && (WholePart(s) != [] || FractionPart(s) != [])
  }

  lemma PaddedAreDigits(s: string, width: nat)
    requires AreDigits(Ten, s)
    ensures AreDigits(Ten, PadEnd(s, width, '0'))
  {
  }

  /** The wei of a decimal with at most eighteen places. */
  function WeiOf(whole: string, fraction: string): nat
    requires AreDigits(Ten, whole) && AreDigits(Ten, fraction)
  {
    PaddedAreDigits(fraction, 18);
    Wei(NumberOf(Ten, whole), NumberOf(Ten, PadEnd(fraction, 18, '0')))
  }

  function ParseEthDecimalToWei(s: string): Result<string, DecimalError> {
    var whole, fraction := WholePart(s), FractionPart(s);
    :- Need(IsDecimal(s), NotDecimal);
    :- Need(|fraction| <= 18, TooManyPlaces);
    var wei := WeiOf(whole, fraction);
    :- Need(wei >= 1, NotPositive);
    Success(ToText(Ten, wei))
  }

  /** `s.replace(/0+$/, "")`. */
  function StripZeros(s: string): (r: string)
    ensures |r| <= |s| && (r != [] ==> r[|r| - 1] != '0')
  {
    if s != [] && s[|s| - 1] == '0' then StripZeros(s[..|s| - 1]) else s
  }

  /** The decimal places of a fraction in wei. */
  function PlacesText(fraction: nat): string {
    StripZeros(PadStart(ToText(Ten, fraction), 18, '0'))
  }

  /** The text of a whole number of ETH and a fraction in wei. */
  function Printed(whole: nat, fraction: nat): string {
    var places := PlacesText(fraction);
    if places != [] then ToText(Ten, whole) + "." + places else ToText(Ten, whole)
  }

  function FormatWeiToEthDecimal(s: string): Result<string, DecimalError> {
    if s != [] && AreDigits(Ten, s) then
      var wei := NumberOf(Ten, s);
      Success(Printed(WholeEth(wei), RestWei(wei)))
    else
      Failure(NotInteger)
  }

  // Stripping and padding.

  lemma {:induction false} PadAfterStrip(s: string)
    ensures StripZeros(s) + Repeat('0', |s| - |StripZeros(s)|) == s
  {
    if s != [] && s[|s| - 1] == '0' {
      var front := s[..|s| - 1];
      PadAfterStrip(front);
      assert s == front + ['0'];
      var zeros := |front| - |StripZeros(front)|;
      ConcatAssociates(StripZeros(front), Repeat('0', zeros), ['0']);
      assert Repeat('0', zeros + 1) == Repeat('0', zeros) + ['0'];
    }
  }

  lemma {:induction false} StripAfterPad(s: string, zeros: nat)
    requires s != [] ==> s[|s| - 1] != '0'
    ensures StripZeros(s + Repeat('0', zeros)) == s
  {
    if zeros == 0 {
      assert s + [] == s;
    } else {
      StripAfterPad(s, zeros - 1);
      assert (s + Repeat('0', zeros))[..|s| + zeros - 1] == s + Repeat('0', zeros - 1);
    }
  }

  lemma {:induction false} StrippedAreDigits(s: string)
    requires AreDigits(Ten, s)
    ensures AreDigits(Ten, StripZeros(s))
  {
    if s != [] && s[|s| - 1] == '0' {
      StrippedAreDigits(s[..|s| - 1]);
    }
  }

  lemma EighteenPlaces()
    ensures Power(Ten, 18) == 1_000_000_000_000_000_000
  {
    assert Power(Ten, 9) == 1_000_000_000;
  }

  /** The stripped places of a fraction stand for it again once padded. */
  lemma PlacesOf(fraction: nat)
    requires IsRest(fraction)
    ensures var places := PlacesText(fraction);
      && |places| <= 18 && AreDigits(Ten, places) && PadEnd(places, 18, '0') == Fixed(Ten, 18, fraction)
  {
    EighteenPlaces();
    PaddedIsFixed(Ten, 18, fraction);
    NumberOfFixed(Ten, 18, fraction);
    StrippedAreDigits(Fixed(Ten, 18, fraction));
    PadAfterStrip(Fixed(Ten, 18, fraction));
  }

  // Where the point is.

  lemma {:induction false} NoPoint(s: string)
    requires AreDigits(Ten, s)
    ensures PointAt(s) == |s|
  {
    if s != [] {
      NoPoint(s[1..]);
    }
  }

  lemma {:induction false} PointAfter(whole: string, rest: string)
    requires AreDigits(Ten, whole)
    ensures PointAt(whole + "." + rest) == |whole|
  {
    var s := whole + "." + rest;
    if whole != [] {
      PointAfter(whole[1..], rest);
      assert s[1..] == whole[1..] + "." + rest;
    }
  }

  lemma PartsOfJoined(whole: string, places: string)
    requires AreDigits(Ten, whole)
    ensures WholePart(whole + "." + places) == whole && FractionPart(whole + "." + places) == places
    ensures HasPoint(whole + "." + places)
  {
    PointAfter(whole, places);
    assert (whole + "." + places)[..|whole|] == whole && (whole + "." + places)[|whole| + 1..] == places;
  }

  /** The parts of a printed text. */
  lemma PrintedParts(whole: nat, fraction: nat)
    requires IsRest(fraction)
    ensures var t := Printed(whole, fraction);
      && WholePart(t) == ToText(Ten, whole) && FractionPart(t) == PlacesText(fraction)
      && (HasPoint(t) <==> FractionPart(t) != [])
  {
    NumberOfText(Ten, whole);
    if PlacesText(fraction) != [] {
      PartsOfJoined(ToText(Ten, whole), PlacesText(fraction));
    } else {
      NoPoint(ToText(Ten, whole));
    }
  }

  /** A text without redundant zeros: a whole part without leading zeros, and no point or at most eighteen places
      that do not end in zero. */
  predicate IsCanonical(s: string) {
    && IsDecimal(s) && WholePart(s) != [] && (|WholePart(s)| > 1 ==> WholePart(s)[0] != '0')
    && |FractionPart(s)| <= 18
    && (HasPoint(s) ==> FractionPart(s) != [] && FractionPart(s)[|FractionPart(s)| - 1] != '0')
  }

  lemma ParseParts(s: string, whole: string, fraction: string, wei: nat)
    requires WholePart(s) == whole && FractionPart(s) == fraction && AreDigits(Ten, whole) && AreDigits(Ten, fraction)
    requires whole != [] && |fraction| <= 18 && WeiOf(whole, fraction) == wei >= 1
    ensures IsDecimal(s) && ParseEthDecimalToWei(s) == Success(ToText(Ten, wei))
  {
  }

  lemma CanonicalParts(s: string, whole: string, fraction: string)
    requires WholePart(s) == whole && FractionPart(s) == fraction && AreDigits(Ten, whole) && AreDigits(Ten, fraction)
    requires whole != [] && (|whole| > 1 ==> whole[0] != '0') && |fraction| <= 18
    requires HasPoint(s) ==> fraction != [] && fraction[|fraction| - 1] != '0'
    ensures IsCanonical(s)
  {
  }

  /** The wei of the printed parts. */
  lemma WeiOfPrinted(whole: nat, fraction: nat)
    requires IsRest(fraction)
    ensures AreDigits(Ten, ToText(Ten, whole)) && AreDigits(Ten, PlacesText(fraction)) && |PlacesText(fraction)| <= 18
    ensures WeiOf(ToText(Ten, whole), PlacesText(fraction)) == Wei(whole, fraction)
  {
    EighteenPlaces();
    PlacesOf(fraction);
    NumberOfText(Ten, whole);
    NumberOfFixed(Ten, 18, fraction);
  }

  /** Printing gives a canonical text that parses back to the amount. */
  lemma PrintedParses(whole: nat, fraction: nat, t: string)
    requires IsRest(fraction) && Wei(whole, fraction) >= 1 && t == Printed(whole, fraction)
    ensures IsCanonical(t) && ParseEthDecimalToWei(t) == Success(ToText(Ten, Wei(whole, fraction)))
  {
    PrintedParts(whole, fraction);
    WeiOfPrinted(whole, fraction);
    TextHasNoLeadingZero(Ten, whole);
    CanonicalParts(t, ToText(Ten, whole), PlacesText(fraction));
    ParseParts(t, ToText(Ten, whole), PlacesText(fraction), Wei(whole, fraction));
  }

  /** What printing an amount gives. */
  lemma FormatOfText(wei: nat)
    ensures FormatWeiToEthDecimal(ToText(Ten, wei)) == Success(Printed(WholeEth(wei), RestWei(wei)))
  {
    NumberOfText(Ten, wei);
  }

  /** Parsing the printed text of a positive amount gives the amount back. */
  lemma ParseOfFormat(wei: nat)
    requires wei >= 1
    ensures FormatWeiToEthDecimal(ToText(Ten, wei)).Success?
    ensures ParseEthDecimalToWei(FormatWeiToEthDecimal(ToText(Ten, wei)).value) == Success(ToText(Ten, wei))
  {
    FormatOfText(wei);
    SplitWei(wei);
    PrintedParses(WholeEth(wei), RestWei(wei), Printed(WholeEth(wei), RestWei(wei)));
  }

  lemma ParsedWei(s: string) returns (wei: nat)
    requires ParseEthDecimalToWei(s).Success?
    ensures wei >= 1 && ParseEthDecimalToWei(s) == Success(ToText(Ten, wei))
  {
    wei := WeiOf(WholePart(s), FractionPart(s));
  }

  /** Printing what an accepted text means gives a canonical text of the same amount. */
  lemma FormatOfParse(s: string)
    requires ParseEthDecimalToWei(s).Success?
    ensures var printed := FormatWeiToEthDecimal(ParseEthDecimalToWei(s).value);
      printed.Success? && IsCanonical(printed.value) && ParseEthDecimalToWei(printed.value) == ParseEthDecimalToWei(s)
  {
    var wei := ParsedWei(s);
    FormatOfText(wei);
    SplitWei(wei);
    PrintedParses(WholeEth(wei), RestWei(wei), Printed(WholeEth(wei), RestWei(wei)));
  }

  /** The amount of a text splits back into its parts. */
  lemma PartsOfWei(whole: string, fraction: string)
    requires AreDigits(Ten, whole) && AreDigits(Ten, fraction) && |fraction| <= 18
    ensures var wei := WeiOf(whole, fraction);
      && AreDigits(Ten, PadEnd(fraction, 18, '0'))
      && WholeEth(wei) == NumberOf(Ten, whole)
      && RestWei(wei) == NumberOf(Ten, PadEnd(fraction, 18, '0'))
      && Fixed(Ten, 18, RestWei(wei)) == PadEnd(fraction, 18, '0')
  {
    EighteenPlaces();
    PaddedAreDigits(fraction, 18);
    FixedOfNumber(Ten, PadEnd(fraction, 18, '0'));
    WeiParts(NumberOf(Ten, whole), NumberOf(Ten, PadEnd(fraction, 18, '0')));
  }

  /** A canonical text is printed as itself. */
  lemma CanonicalIsPrinted(s: string)
    requires IsCanonical(s) && ParseEthDecimalToWei(s).Success?
    ensures FormatWeiToEthDecimal(ParseEthDecimalToWei(s).value) == Success(s)
  {
    var whole, fraction := WholePart(s), FractionPart(s);
    var wei := WeiOf(whole, fraction);
    NumberOfText(Ten, wei);
    PartsOfWei(whole, fraction);
    EighteenPlaces();
    PaddedIsFixed(Ten, 18, RestWei(wei));
    StripAfterPad(fraction, 18 - |fraction|);
    assert fraction + [] == fraction;
    TextOfNumber(Ten, whole);
    JoinParts(s);
  }

  lemma JoinParts(s: string)
    ensures s == if HasPoint(s) then WholePart(s) + "." + FractionPart(s) else WholePart(s)
  {
    PointIsThere(s);
  }

  lemma {:induction false} PointIsThere(s: string)
    ensures HasPoint(s) ==> s[PointAt(s)] == '.'
  {
    if s != [] && s[0] != '.' {
      PointIsThere(s[1..]);
    }
  }

  /** Each amount has one canonical text. */
  lemma CanonicalIsUnique(s: string, t: string)
    requires IsCanonical(s) && IsCanonical(t)
    requires ParseEthDecimalToWei(s).Success? && ParseEthDecimalToWei(s) == ParseEthDecimalToWei(t)
    ensures s == t
  {
    CanonicalIsPrinted(s);
    CanonicalIsPrinted(t);
  }

  // What any accepted text means.

  lemma PaddedNumber(fraction: string)
    requires AreDigits(Ten, fraction) && |fraction| <= 18
    ensures AreDigits(Ten, PadEnd(fraction, 18, '0'))
    ensures NumberOf(Ten, PadEnd(fraction, 18, '0')) == NumberOf(Ten, fraction) * Power(Ten, 18 - |fraction|)
  {
    var zeros := Repeat('0', 18 - |fraction|);
    NumberOfZeros(Ten, 18 - |fraction|);
    NumberOfConcat(Ten, fraction, zeros);
    assert PadEnd(fraction, 18, '0') == fraction + zeros;
  }

  lemma PlacesPower(k: nat)
    requires k <= 18
    ensures Power(Ten, 18 - k) * Power(Ten, k) == 1_000_000_000_000_000_000
  {
    PowerSum(Ten, 18 - k, k);
    EighteenPlaces();
  }

  /** The wei of a decimal, scaled to its places: the digits without the point, in units of one ETH. */
  lemma WeiScales(whole: string, fraction: string)
    requires AreDigits(Ten, whole) && AreDigits(Ten, fraction) && |fraction| <= 18
    ensures AreDigits(Ten, whole + fraction)
    ensures WeiOf(whole, fraction) * Power(Ten, |fraction|)
         == NumberOf(Ten, whole + fraction) * 1_000_000_000_000_000_000
  {
    NumberOfConcat(Ten, whole, fraction);
    PaddedNumber(fraction);
    PlacesPower(|fraction|);
    Scaled(NumberOf(Ten, whole), NumberOf(Ten, fraction), Power(Ten, 18 - |fraction|), Power(Ten, |fraction|));
  }

  lemma Scaled(w: int, f: int, p: int, q: int)
    requires p * q == 1_000_000_000_000_000_000
    ensures (w * 1_000_000_000_000_000_000 + f * p) * q == (w * q + f) * 1_000_000_000_000_000_000
  {
    calc {
      (w * 1_000_000_000_000_000_000 + f * p) * q;
      w * 1_000_000_000_000_000_000 * q + f * p * q;
      { assert f * p * q == f * (p * q); }
      w * 1_000_000_000_000_000_000 * q + f * 1_000_000_000_000_000_000;
      { assert w * 1_000_000_000_000_000_000 * q == w * q * 1_000_000_000_000_000_000; }
      (w * q + f) * 1_000_000_000_000_000_000;
    }
  }

  /** A text is accepted exactly when it is digits, or digits around one point, with at most eighteen places and some
      digit that is not zero; and then it means its digits without the point, scaled by its places. */
  lemma ParsesAsScaled(s: string)
    ensures ParseEthDecimalToWei(s).Success? <==>
      && AreDigits(Ten, WholePart(s)) && AreDigits(Ten, FractionPart(s)) && |FractionPart(s)| <= 18
      && AreDigits(Ten, WholePart(s) + FractionPart(s)) && NumberOf(Ten, WholePart(s) + FractionPart(s)) > 0
    ensures ParseEthDecimalToWei(s).Success? ==>
      exists wei :: wei > 0 && ParseEthDecimalToWei(s) == Success(ToText(Ten, wei))
        && wei * Power(Ten, |FractionPart(s)|)
        == NumberOf(Ten, WholePart(s) + FractionPart(s)) * 1_000_000_000_000_000_000
    ensures s == if HasPoint(s) then WholePart(s) + "." + FractionPart(s) else WholePart(s)
    ensures '.' !in WholePart(s) && (!HasPoint(s) ==> FractionPart(s) == [])
  {
    JoinParts(s);
    FirstPoint(s);
    var whole, fraction := WholePart(s), FractionPart(s);
    if AreDigits(Ten, whole) && AreDigits(Ten, fraction) && |fraction| <= 18 {
      WeiScales(whole, fraction);
      var wei, digits, scale := WeiOf(whole, fraction), NumberOf(Ten, whole + fraction), Power(Ten, |fraction|);
      PositiveTogether(wei, scale, digits);
      if whole == [] && fraction == [] {
        assert whole + fraction == [];
      }
    }
  }

  lemma PositiveTogether(wei: nat, scale: nat, digits: nat)
    requires scale > 0 && wei * scale == digits * 1_000_000_000_000_000_000
    ensures wei > 0 <==> digits > 0
  {
  }

  lemma {:induction false} FirstPoint(s: string)
    ensures '.' !in WholePart(s)
  {
    if s != [] && s[0] != '.' {
      FirstPoint(s[1..]);
      assert WholePart(s) == [s[0]] + WholePart(s[1..]);
    }
  }

  /** Wei texts are accepted exactly when they are digits. */
  lemma FormatsIff(s: string)
    ensures FormatWeiToEthDecimal(s).Success? <==> s != [] && AreDigits(Ten, s)
  {
  }
}

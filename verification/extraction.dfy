/** `extract_customer_info`: phone numbers from the first phone pattern that finds
    any, amounts and dates from every pattern of their family, each kind reported
    only when something was found. */
module Extraction {
  import opened Text
  import opened Patterns

  datatype InfoKey = PhoneNumbers | Amounts | Dates
  {
    function Label(): string
    {
      match this
      case PhoneNumbers => "phone_numbers"
      case Amounts => "amounts"
      case Dates => "dates"
    }
  }

  const PhonePatterns: seq<Pattern> := [Mobile07, Intl2547, Local0]
  const AmountPatterns: seq<Pattern> := [KshTitle, KshLower, Dollar, Shillings]
  const DatePatterns: seq<Pattern> := [SlashDate, DashDate, MonthNameDate]

  /** What each pattern of a family finds in `s`, pattern by pattern. The ensures only
      repeat the definition pointwise, so that callers can use it without unfolding
      the `seq` constructor; they are not a property of `extract_customer_info`. */
  function FindEach(patterns: seq<Pattern>, s: string): (found: seq<seq<string>>)
    ensures |found| == |patterns|
    ensures forall k :: 0 <= k < |patterns| ==> found[k] == FindAll(patterns[k], s)
  {
    seq(|patterns|, k requires 0 <= k < |patterns| => FindAll(patterns[k], s))
  }

  /** The first non-empty list (the empty list if there is none). */
  function FirstNonEmpty(found: seq<seq<string>>): seq<string>
  {
    if found == [] then []
    else if found[0] != [] then found[0]
    else FirstNonEmpty(found[1..])
  }

  /** All lists joined, in order. */
  function Flatten(found: seq<seq<string>>): seq<string>
  {
    if found == [] then [] else Flatten(found[..|found| - 1]) + found[|found| - 1]
  }

  /** Short-circuit: `FirstNonEmpty` is empty exactly when every list is, and otherwise
      it is the first non-empty list. */
  lemma {:induction false} FirstNonEmptySpec(found: seq<seq<string>>)
    ensures FirstNonEmpty(found) == [] <==> forall k :: 0 <= k < |found| ==> found[k] == []
    ensures FirstNonEmpty(found) != [] ==>
              exists k :: 0 <= k < |found| && FirstNonEmpty(found) == found[k]
                          && forall j :: 0 <= j < k ==> found[j] == []
  {
    if found != [] && found[0] == [] {
      FirstNonEmptySpec(found[1..]);
      if FirstNonEmpty(found) != [] {
        var k :| 0 <= k < |found[1..]| && FirstNonEmpty(found[1..]) == found[1..][k]
                 && forall j :: 0 <= j < k ==> found[1..][j] == [];
        assert forall j :: 0 <= j < k + 1 ==> found[j] == [] by {
          forall j | 1 <= j < k + 1 ensures found[j] == [] {
            assert found[1..][j - 1] == found[j];
          }
        }
      }
    }
  }

  /** Accumulation: `Flatten` is empty exactly when every list is, and holds nothing
      that is not in one of the lists. */
  lemma {:induction false} FlattenSpec(found: seq<seq<string>>)
    ensures Flatten(found) == [] <==> forall k :: 0 <= k < |found| ==> found[k] == []
    ensures forall x :: x in Flatten(found) ==> exists k :: 0 <= k < |found| && x in found[k]
  {
    if found != [] {
      var n := |found| - 1;
      FlattenSpec(found[..n]);
      assert forall k :: 0 <= k < n ==> found[..n][k] == found[k];
    }
  }

  /** The phone loop: try the patterns in order and keep the first non-empty result. */
  method FirstFound(patterns: seq<Pattern>, s: string) returns (found: seq<string>)
    ensures found == FirstNonEmpty(FindEach(patterns, s))
  {
    found := [];
    ghost var each := FindEach(patterns, s);
    var k := 0;
    while k < |patterns|
      invariant 0 <= k <= |patterns|
      invariant FirstNonEmpty(each[k..]) == FirstNonEmpty(each)
    {
      var matches := FindAll(patterns[k], s);
      if matches != [] {
        found := matches;
        return;
      }
      assert each[k..][1..] == each[k + 1..];
      k := k + 1;
    }
  }

  /** The amount and date loops: extend one list with every pattern's results in order. */
  method AllFound(patterns: seq<Pattern>, s: string) returns (found: seq<string>)
    ensures found == Flatten(FindEach(patterns, s))
  {
    found := [];
    ghost var each := FindEach(patterns, s);
    for k := 0 to |patterns|
      invariant found == Flatten(each[..k])
    {
      found := found + FindAll(patterns[k], s);
      assert each[..k + 1][..k] == each[..k];
    }
    assert each[..|patterns|] == each;
  }

  /** `extract_customer_info(message)`. */
  method ExtractCustomerInfo(message: string) returns (info: map<InfoKey, seq<string>>)
    ensures PhoneNumbers in info <==> FirstNonEmpty(FindEach(PhonePatterns, message)) != []
    ensures PhoneNumbers in info ==> info[PhoneNumbers] == FirstNonEmpty(FindEach(PhonePatterns, message))
    ensures Amounts in info <==> Flatten(FindEach(AmountPatterns, Lower(message))) != []
    ensures Amounts in info ==> info[Amounts] == Flatten(FindEach(AmountPatterns, Lower(message)))
    ensures Dates in info <==> Flatten(FindEach(DatePatterns, message)) != []
    ensures Dates in info ==> info[Dates] == Flatten(FindEach(DatePatterns, message))
  {
    info := map[];
    var phones := FirstFound(PhonePatterns, message);
    if phones != [] {
      info := info[PhoneNumbers := phones];
    }
    var amounts := AllFound(AmountPatterns, Lower(message));
    if amounts != [] {
      info := info[Amounts := amounts];
    }
    var dates := AllFound(DatePatterns, message);
    if dates != [] {
      info := info[Dates := dates];
    }
  }

  /** The phone numbers reported: all matches of the first phone pattern, in the
      fixed order, that matches anywhere; later patterns are not consulted. There are
      none exactly when no phone pattern matches at any position. */
  lemma PhoneNumbersShortCircuit(message: string)
    ensures FirstNonEmpty(FindEach(PhonePatterns, message)) == [] <==>
            forall k, i :: 0 <= k < |PhonePatterns| && 0 <= i < |message| ==> MatchAt(PhonePatterns[k], message, i).None?
    ensures FirstNonEmpty(FindEach(PhonePatterns, message)) != [] ==>
            exists k :: 0 <= k < |PhonePatterns| && FirstNonEmpty(FindEach(PhonePatterns, message)) == FindAll(PhonePatterns[k], message)
                        && forall j :: 0 <= j < k ==> FindAll(PhonePatterns[j], message) == []
  {
    FirstNonEmptySpec(FindEach(PhonePatterns, message));
    FindAllEmpty(Mobile07, message);
    FindAllEmpty(Intl2547, message);
    FindAllEmpty(Local0, message);
  }

  /** Every reported phone number is `07` and eight digits, `+2547` and eight digits,
      or `0` and nine digits. */
  lemma PhoneNumbersWellFormed(message: string)
    ensures forall x :: x in FirstNonEmpty(FindEach(PhonePatterns, message)) ==>
              PrefixedDigits(x, "07", 8) || PrefixedDigits(x, "+2547", 8) || PrefixedDigits(x, "0", 9)
  {
    var found := FindEach(PhonePatterns, message);
    FirstNonEmptySpec(found);
    FindAllSound(Mobile07, message);
    FindAllSound(Intl2547, message);
    FindAllSound(Local0, message);
  }

  /** The capitalised `Ksh` pattern never contributes: the amounts are what the other
      three patterns find on the lower-cased text, in pattern order. */
  lemma AmountsWithoutTitleKsh(message: string)
    ensures Flatten(FindEach(AmountPatterns, Lower(message)))
            == FindAll(KshLower, Lower(message)) + FindAll(Dollar, Lower(message)) + FindAll(Shillings, Lower(message))
  {
    var s := Lower(message);
    var found := FindEach(AmountPatterns, s);
    TitleKshNeverMatchesLowered(message);
    assert found[..1][..0] == [];
    assert Flatten(found[..1]) == [] + found[0] == [];
    assert found[..2][..1] == found[..1];
    assert Flatten(found[..2]) == found[1];
    assert found[..3][..2] == found[..2];
    assert Flatten(found[..3]) == found[1] + found[2];
    assert found[..3] == found[..|found| - 1];
    assert Flatten(found) == found[1] + found[2] + found[3];
  }

  /** Every reported amount is a number in comma-separated digit groups, with an
      optional fractional part. */
  lemma AmountsWellFormed(message: string)
    ensures forall x :: x in Flatten(FindEach(AmountPatterns, Lower(message))) ==> IsAmount(x)
  {
    var s := Lower(message);
    FlattenSpec(FindEach(AmountPatterns, s));
    FindAllSound(KshTitle, s);
    FindAllSound(KshLower, s);
    FindAllSound(Dollar, s);
    FindAllSound(Shillings, s);
  }

  /** Every reported date is one or two digits, a separator, one or two digits, the
      same separator and four digits (with `/` or `-`), or a day, white space, a month
      name and white space before a four-digit year. */
  lemma DatesWellFormed(message: string)
    ensures forall x :: x in Flatten(FindEach(DatePatterns, message)) ==>
              IsNumericDate(x, '/') || IsNumericDate(x, '-') || IsMonthDate(x)
  {
    FlattenSpec(FindEach(DatePatterns, message));
    FindAllSound(SlashDate, message);
    FindAllSound(DashDate, message);
    FindAllSound(MonthNameDate, message);
  }

  /** Phone numbers are reported exactly when one of the phone patterns fits the
      message somewhere. */
  lemma PhoneNumbersFoundIff(message: string)
    ensures FirstNonEmpty(FindEach(PhonePatterns, message)) != [] <==>
            exists i :: 0 <= i < |message| &&
              (Fits(Mobile07, message, i) || Fits(Intl2547, message, i) || Fits(Local0, message, i))
  {
    var found := FindEach(PhonePatterns, message);
    FirstNonEmptySpec(found);
    assert found == [FindAll(Mobile07, message), FindAll(Intl2547, message), FindAll(Local0, message)];
    assert FirstNonEmpty(found) == [] <==> found[0] == [] && found[1] == [] && found[2] == [];
    FindAllEmptyIffNoFit(Mobile07, message);
    FindAllEmptyIffNoFit(Intl2547, message);
    FindAllEmptyIffNoFit(Local0, message);
  }

  /** Amounts are reported exactly when the lower-cased message fits `ksh`, `$` or the
      shillings suffix pattern somewhere. */
  lemma AmountsFoundIff(message: string)
    ensures var s := Lower(message);
            Flatten(FindEach(AmountPatterns, s)) != [] <==>
            exists i :: 0 <= i < |s| && (Fits(KshLower, s, i) || Fits(Dollar, s, i) || Fits(Shillings, s, i))
  {
    var s := Lower(message);
    AmountsWithoutTitleKsh(message);
    FindAllEmptyIffNoFit(KshLower, s);
    FindAllEmptyIffNoFit(Dollar, s);
    FindAllEmptyIffNoFit(Shillings, s);
  }

  /** Dates are reported exactly when one of the date patterns fits the message
      somewhere. */
  lemma DatesFoundIff(message: string)
    ensures Flatten(FindEach(DatePatterns, message)) != [] <==>
            exists i :: 0 <= i < |message| &&
              (Fits(SlashDate, message, i) || Fits(DashDate, message, i) || Fits(MonthNameDate, message, i))
  {
    var found := FindEach(DatePatterns, message);
    FlattenSpec(found);
    assert found == [FindAll(SlashDate, message), FindAll(DashDate, message), FindAll(MonthNameDate, message)];
    assert Flatten(found) == [] <==> found[0] == [] && found[1] == [] && found[2] == [];
    FindAllEmptyIffNoFit(SlashDate, message);
    FindAllEmptyIffNoFit(DashDate, message);
    FindAllEmptyIffNoFit(MonthNameDate, message);
  }

  /** On "ksh 5,000" the lower-case pattern reports the number without its marker. */
  lemma KshAmountExample()
    ensures FindAll(KshLower, "ksh 5,000") == ["5,000"]
  {
    var s := "ksh 5,000";
    assert s[0..3] == "ksh";
    assert RunEnd(s, 3, Space) == 4;
    assert RunEnd(s, 4, Digit) == 5;
    assert RunEnd(s, 9, Digit) == 9;
    assert RunEnd(s, 8, Digit) == 9;
    assert RunEnd(s, 7, Digit) == 9;
    assert RunEnd(s, 6, Digit) == 9;
    assert GroupedEnd(s, 6) == 9;
    assert GroupedEnd(s, 4) == 9;
    assert s[4..9] == "5,000";
    assert MatchMarkerThenNumber(s, 0, "ksh", false) == Wrappers.Some(Match(9, "5,000"));
    assert MatchAt(KshLower, s, 0) == Wrappers.Some(Match(9, "5,000"));
  }

  /** "12 ksh" holds one amount: after the match the scan resumes behind "ksh", so the
      "2" inside the number is not reported again. */
  lemma ShillingsAmountExample()
    ensures FindAll(Shillings, "12 ksh") == ["12"]
  {
    var s := "12 ksh";
    assert RunEnd(s, 2, Digit) == 2;
    assert RunEnd(s, 1, Digit) == 2;
    assert RunEnd(s, 0, Digit) == 2;
    assert GroupedEnd(s, 0) == 2;
    assert RunEnd(s, 3, Space) == 3;
    assert RunEnd(s, 2, Space) == 3;
    assert s[3..6] == "ksh";
    assert IsDigit(s[0]) && s[0..2] == "12";
    assert MatchNumberThenShillings(s, 0) == Wrappers.Some(Match(6, "12"));
    assert MatchAt(Shillings, s, 0) == Wrappers.Some(Match(6, "12"));
  }

  /** Nothing is extracted from the empty message. */
  lemma EmptyMessageExtractsNothing()
    ensures FirstNonEmpty(FindEach(PhonePatterns, "")) == []
    ensures Flatten(FindEach(AmountPatterns, Lower(""))) == []
    ensures Flatten(FindEach(DatePatterns, "")) == []
  {
    FirstNonEmptySpec(FindEach(PhonePatterns, ""));
    FlattenSpec(FindEach(AmountPatterns, Lower("")));
    FlattenSpec(FindEach(DatePatterns, ""));
  }
}

/**
 * The `format_credits` template filter: a credit balance shown as
 * "<n> credits", "<n>k" or "<n.d>k credits".
 *
 * The one-decimal figure of the last form comes from formatting a binary
 * float; it is taken as an input `tenths`, the value in tenths of a
 * thousand, which the formatting rounds either down or up.
 */
module CreditFormat {
  import opened Wrappers
  import opened JsonValues
  import Text

  /**
   * What the filter hands back: the input itself, or a rendering; or the
   * exception it does not catch, which fails the template.
   */
  datatype Shown = Unchanged(value: Json) | Rendered(text: string) | Raises(error: PyError)

  /** `f"{tenths / 10:.1f}"` for a non-negative number of tenths. */
  function OneDecimal(tenths: nat): (r: string)
    ensures |r| >= 3 && r[|r| - 2] == '.' && Text.IsDigit(r[|r| - 1])
    ensures r[..|r| - 2] == Text.NatToString(tenths / 10)
    ensures Text.DigitValue(r[|r| - 1]) == tenths % 10
  {
    Text.NatToString(tenths / 10) + "." + [Text.DigitChar(tenths % 10)]
  }

  /** `.rstrip('0').rstrip('.')` applied to the one-decimal figure. */
  function Trimmed(tenths: nat): string {
    Text.RStrip(Text.RStrip(OneDecimal(tenths), '0'), '.')
  }

  /**
   * The trimmed figure, against an independent description: the whole part,
   * followed by "." and the tenths digit only when that digit is not 0.
   */
  lemma TrimmedMeaning(tenths: nat)
    ensures Trimmed(tenths) == if tenths % 10 == 0 then Text.NatToString(tenths / 10)
                               else Text.NatToString(tenths / 10) + "." + [Text.DigitChar(tenths % 10)]
  {
    var whole := Text.NatToString(tenths / 10);
    var s := OneDecimal(tenths);
    if tenths % 10 == 0 {
      assert s == (whole + ".") + "0";
      assert s[..|s| - 1] == whole + ".";
      assert Text.RStrip(s, '0') == Text.RStrip(whole + ".", '0');
      assert Text.RStrip(whole + ".", '0') == whole + ".";
      assert (whole + ".")[..|whole|] == whole;
      assert Text.RStrip(whole + ".", '.') == Text.RStrip(whole, '.');
      assert whole[|whole| - 1] != '.';
    } else {
      assert Text.DigitChar(tenths % 10) != '0';
      assert Text.RStrip(s, '0') == s;
      assert Text.RStrip(s, '.') == s;
    }
  }

  /** The figure in tenths lies within one tenth of `value / 1000`, as rounding down or up puts it. */
  predicate TenthsOf(value: int, tenths: int) {
    tenths == value / 100 || (value % 100 != 0 && tenths == value / 100 + 1)
  }

  /**
   * The filter's shape, given the text its fractional branch produces:
   * values on which `int()` raises TypeError or ValueError come back
   * unchanged, while an infinity's OverflowError is not caught; below 1000 (negatives
   * included) "<value> credits"; whole thousands "<value // 1000>k" with no
   * suffix; anything else the fractional text.
   */
  function Shape(value: Json, fractional: string): (r: Shown)
    ensures IntOf(value).Err? && IntOf(value).error != OverflowError <==> r == Unchanged(value)
    ensures IntOf(value) == Err(OverflowError) <==> r == Raises(OverflowError)
    ensures IntOf(value).Ok? && IntOf(value).value < 1000
            ==> r == Rendered(Text.IntToString(IntOf(value).value) + " credits")
    ensures IntOf(value).Ok? && IntOf(value).value >= 1000 && IntOf(value).value % 1000 == 0
            ==> r == Rendered(Text.NatToString(IntOf(value).value / 1000) + "k")
    ensures IntOf(value).Ok? && IntOf(value).value >= 1000 && IntOf(value).value % 1000 != 0
            ==> r == Rendered(fractional)
  {
    var n := IntOf(value);
    if n.Err? then
      if n.error == OverflowError then Raises(OverflowError) else Unchanged(value)
    else if n.value >= 1000 then
      if n.value % 1000 == 0 then Rendered(Text.NatToString(n.value / 1000) + "k")
      else Rendered(fractional)
    else Rendered(Text.IntToString(n.value) + " credits")
  }

  /**
   * The fractional branch as the filter writes it: the two `rstrip` calls
   * are applied after the "k" has been appended, so they meet a "k" and
   * strip nothing.
   */
  function FractionAsWritten(tenths: nat): (r: string)
    ensures r == OneDecimal(tenths) + "k credits"
  {
    var withK := OneDecimal(tenths) + "k";
    assert withK[|withK| - 1] == 'k';
    Text.RStrip(Text.RStrip(withK, '0'), '.') + " credits"
  }

  /** `format_credits(value)` as written. */
  function FormatCreditsAsWritten(value: Json, tenths: nat): (r: Shown)
    requires IntOf(value).Ok? && IntOf(value).value >= 1000 ==> TenthsOf(IntOf(value).value, tenths)
    ensures IntOf(value).Err? && IntOf(value).error != OverflowError <==> r == Unchanged(value)
    ensures IntOf(value) == Err(OverflowError) <==> r == Raises(OverflowError)
    ensures IntOf(value).Ok? && IntOf(value).value < 1000
            ==> r == Rendered(Text.IntToString(IntOf(value).value) + " credits")
    ensures IntOf(value).Ok? && IntOf(value).value >= 1000 && IntOf(value).value % 1000 == 0
            ==> r == Rendered(Text.NatToString(IntOf(value).value / 1000) + "k")
    ensures IntOf(value).Ok? && IntOf(value).value >= 1000 && IntOf(value).value % 1000 != 0
            ==> r == Rendered(OneDecimal(tenths) + "k credits")
  {
    Shape(value, FractionAsWritten(tenths))
  }

  /** As written, 1040 keeps its ".0": the trailing zero the `rstrip` calls were meant to remove stays. */
  lemma NearlyWholeThousandAsWritten()
    ensures FormatCreditsAsWritten(JInt(1040), 10) == Rendered("1.0k credits")
  {
    UntrimmedTen();
    FractionalShown(1040, 10);
  }

  /**
   * `format_credits(value)` with the trailing ".0" stripped before the "k",
   * as the `rstrip` calls intend: the trimmed one-decimal figure followed by
   * "k credits".
   */
  function FormatCredits(value: Json, tenths: nat): (r: Shown)
    requires IntOf(value).Ok? && IntOf(value).value >= 1000 ==> TenthsOf(IntOf(value).value, tenths)
    ensures IntOf(value).Err? && IntOf(value).error != OverflowError <==> r == Unchanged(value)
    ensures IntOf(value) == Err(OverflowError) <==> r == Raises(OverflowError)
    ensures IntOf(value).Ok? && IntOf(value).value < 1000
            ==> r == Rendered(Text.IntToString(IntOf(value).value) + " credits")
    ensures IntOf(value).Ok? && IntOf(value).value >= 1000 && IntOf(value).value % 1000 == 0
            ==> r == Rendered(Text.NatToString(IntOf(value).value / 1000) + "k")
    ensures IntOf(value).Ok? && IntOf(value).value >= 1000 && IntOf(value).value % 1000 != 0
            ==> r.Rendered? && Text.EndsWith(r.text, "k credits")
  {
    var t := Trimmed(tenths);
    assert (t + "k credits")[|t| ..] == "k credits";
    Shape(value, t + "k credits")
  }

  /** The two readings differ only when the rounded figure is a whole number of thousands. */
  lemma AsWrittenDiffersOnlyOnWholeFigure(value: Json, tenths: nat)
    requires IntOf(value).Ok? && IntOf(value).value >= 1000 ==> TenthsOf(IntOf(value).value, tenths)
    ensures FormatCreditsAsWritten(value, tenths) != FormatCredits(value, tenths)
            ==> IntOf(value).Ok? && IntOf(value).value % 1000 != 0 && tenths % 10 == 0
  {
    TrimmedMeaning(tenths);
  }

  /**
   * A value of at least 1000 that is not a whole number of thousands takes
   * the fractional branch in both readings: as written the untrimmed figure,
   * corrected the trimmed one.
   */
  lemma FractionalShown(n: int, tenths: nat)
    requires n >= 1000 && n % 1000 != 0 && TenthsOf(n, tenths)
    ensures FormatCreditsAsWritten(JInt(n), tenths) == Rendered(OneDecimal(tenths) + "k credits")
    ensures FormatCredits(JInt(n), tenths) == Rendered(Trimmed(tenths) + "k credits")
  {
  }

  /** Numeric text is parsed first: "2500" and 2500 render alike. */
  lemma NumericTextRendersLikeNumber(n: int, tenths: nat)
    requires n >= 1000 ==> TenthsOf(n, tenths)
    ensures IntOf(JString(Text.IntToString(n))) == Ok(n)
    ensures FormatCredits(JString(Text.IntToString(n)), tenths) == FormatCredits(JInt(n), tenths)
  {
    IntOfRendering(n);
  }

  /** 12345 shows as "12.3k credits" when the float rounds down to 123 tenths. */
  lemma TwelveThousandExample()
    ensures FormatCredits(JInt(12345), 123) == Rendered("12.3k credits")
  {
    TrimmedOneHundredTwentyThree();
    FractionalShown(12345, 123);
  }

  /** 1040 is 1.0 thousand to one decimal, shown without the ".0" but still with " credits". */
  lemma NearlyWholeThousandExample()
    ensures FormatCredits(JInt(1040), 10) == Rendered("1k credits")
  {
    TrimmedTen();
    FractionalShown(1040, 10);
  }

  /** Ten tenths to one decimal: "1.0". */
  lemma UntrimmedTen()
    ensures OneDecimal(10) + "k credits" == "1.0k credits"
  {
    assert Text.NatToString(1) == "1";
    assert Text.DigitChar(0) == '0';
    SuffixAfter(OneDecimal(10), "1.0", "k credits");
  }

  /** Ten tenths once trimmed: "1". */
  lemma TrimmedTen()
    ensures Trimmed(10) + "k credits" == "1k credits"
  {
    TrimmedMeaning(10);
    assert Text.NatToString(1) == "1";
    SuffixAfter(Trimmed(10), "1", "k credits");
  }

  /** 123 tenths once trimmed: "12.3". */
  lemma TrimmedOneHundredTwentyThree()
    ensures Trimmed(123) + "k credits" == "12.3k credits"
  {
    TrimmedMeaning(123);
    Twelve();
    assert Text.DigitChar(3) == '3';
    SuffixAfter(Trimmed(123), "12.3", "k credits");
  }

  lemma Twelve()
    ensures Text.NatToString(12) == "12"
  {
    assert Text.NatToString(1) == "1";
    assert Text.DigitChar(2) == '2';
  }

  /** Appending a suffix to equal figures gives equal text. */
  lemma SuffixAfter(figure: string, shown: string, suffix: string)
    requires figure == shown
    ensures figure + suffix == shown + suffix
  {
  }

  /** Text that is not a number comes back as it was. */
  lemma NonNumericUnchanged()
    ensures FormatCredits(JString("lots"), 0) == Unchanged(JString("lots"))
  {
    assert !Text.IsDigit("lots"[0]) && "lots"[0] != '-' && "lots"[0] != '+';
    assert ParseSignedDecimal("lots") == None;
    assert Text.Strip("lots") == "lots" by { Text.StripOfTrimmed("lots"); }
    assert IntOf(JString("lots")) == Err(ValueError);
  }
}

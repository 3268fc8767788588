/**
 * The `App` component: the currency selection read from storage, the four
 * pieces of state, the two input handlers that keep the amount and satoshi
 * fields in step, the outcome of a rate fetch, and the rate readout.
 */
module App {
  import opened Wrappers
  import opened Numbers
  import opened Decimal
  import opened Commas
  import opened NumberFormat
  import opened FloatParse
  import opened Conversion

  const DefaultCurrency: string := "cad"

  /** The selector's options: currency code to display label. */
  const Currencies: map<string, string> := map["cad" := "CAD", "usd" := "USD", "jpy" := "JPY", "php" := "PHP"]

  const Loading: string := "Loading..."

  /** What reading the saved currency from storage gave: an exception, no entry, or a string. */
  datatype StorageRead = Threw | Missing | Stored(text: string)

  /** The answer of the price service for the selected currency. */
  datatype FetchOutcome =
    | Priced(rate: real)  // the response carried a number for the currency
    | Unpriced            // the response had no entry for the currency: the rate read is undefined
    | Failed              // network error, HTTP error status, or a body that could not be read

  /** `getSavedCurrency`: a non-empty stored string as it is, otherwise the default. */
  function SavedCurrency(read: StorageRead): (code: string)
    ensures code != ""
    ensures read.Stored? && read.text != "" ==> code == read.text
    ensures !(read.Stored? && read.text != "") ==> code == DefaultCurrency
  {
    match read
    case Stored(text) => if text != "" then text else DefaultCurrency
    case _ => DefaultCurrency
  }

  /** The stored value is not checked against the selector's options. */
  lemma SavedCurrencyUnchecked()
    ensures SavedCurrency(Stored("xyz")) == "xyz" && "xyz" !in Currencies
  {
  }

  /** The rate readout: `Loading...` exactly while the rate is 0, else the rate with 2 decimals. */
  function RateDisplay(rate: real): (text: string)
    ensures text == Loading <==> rate == 0.0
    ensures rate != 0.0 ==> text == FormatAmount(rate, 2)
  {
    if rate == 0.0 then Loading
    else
      FormatShape(rate, 2);
      assert !IsDigit(Loading[0]);
      FormatAmount(rate, 2)
  }

  /**
   * The satoshi field after the amount field is set to `amountText`: the
   * converted value with no fraction digits, or empty when the text is not a
   * number or the rate is not positive.
   */
  function DerivedSats(amountText: string, rate: real): (sats: string)
    ensures sats == "" <==> ParseFloat(amountText).None? || rate <= 0.0
  {
    if ParseFloat(amountText).Some? && rate > 0.0 then
      FormatNumberNonEmpty(SatsOf(ParseFloat(amountText).value, rate), 0);
      FormatNumber(SatsOf(ParseFloat(amountText).value, rate), 0)
    else ""
  }

  /**
   * The amount field after the satoshi field is set to `satsText`: the
   * converted value with 2 fraction digits, or empty when the text is not a
   * number or the rate is not positive.
   */
  function DerivedAmount(satsText: string, rate: real): (amount: string)
    ensures amount == "" <==> ParseFloat(satsText).None? || rate <= 0.0
  {
    if ParseFloat(satsText).Some? && rate > 0.0 then
      FormatNumberNonEmpty(AmountOf(ParseFloat(satsText).value, rate), 2);
      FormatNumber(AmountOf(ParseFloat(satsText).value, rate), 2)
    else ""
  }

  /** The state of the converter component. */
  class Converter {
    var rawAmount: string
    var rawSats: string
    var conversionRate: real
    var currency: string

    /** The initial render: empty fields, rate 0, and the saved currency. */
    constructor (saved: StorageRead)
      ensures rawAmount == "" && rawSats == "" && conversionRate == 0.0
      ensures currency == SavedCurrency(saved)
    {
      rawAmount := "";
      rawSats := "";
      conversionRate := 0.0;
      currency := SavedCurrency(saved);
    }

    /** `handleAmountChange`: the user typed `typed` into the amount field. */
    method HandleAmountChange(typed: string)
      modifies this`rawAmount, this`rawSats
      ensures rawAmount == StripCommas(typed)
      ensures rawSats == DerivedSats(rawAmount, conversionRate)
      ensures rawSats == "" <==> ParseFloat(rawAmount).None? || conversionRate <= 0.0
      ensures conversionRate == old(conversionRate) && currency == old(currency)
    {
      var stripped := StripCommas(typed);
      rawAmount := stripped;
      var rate := conversionRate;
      var amountValue := ParseFloat(stripped);
      if amountValue.Some? && rate > 0.0 {
        rawSats := FormatNumber(SatsOf(amountValue.value, rate), 0);
      } else {
        rawSats := "";
      }
      assert rawSats == DerivedSats(stripped, rate);
    }

    /** `handleSatsChange`: the user typed `typed` into the satoshi field. */
    method HandleSatsChange(typed: string)
      modifies this`rawAmount, this`rawSats
      ensures rawSats == StripCommas(typed)
      ensures rawAmount == DerivedAmount(rawSats, conversionRate)
      ensures rawAmount == "" <==> ParseFloat(rawSats).None? || conversionRate <= 0.0
      ensures conversionRate == old(conversionRate) && currency == old(currency)
    {
      var stripped := StripCommas(typed);
      rawSats := stripped;
      var rate := conversionRate;
      var satsValue := ParseFloat(stripped);
      if satsValue.Some? && rate > 0.0 {
        rawAmount := FormatNumber(AmountOf(satsValue.value, rate), 2);
      } else {
        rawAmount := "";
      }
      assert rawAmount == DerivedAmount(stripped, rate);
    }

    /** The selector's change handler: only the currency changes; the fields and the rate stay until a fetch completes. */
    method SelectCurrency(code: string)
      modifies this`currency
      ensures currency == code
      ensures rawAmount == old(rawAmount) && rawSats == old(rawSats) && conversionRate == old(conversionRate)
    {
      currency := code;
    }

    /**
     * The end of `fetchConversionRate`: a price is stored as the rate, any
     * failure stores 0. A missing entry stores JavaScript's undefined, which is
     * written 0 here because every reader of the rate treats the two alike.
     * The fields are not recomputed.
     */
    method ApplyFetchOutcome(outcome: FetchOutcome)
      modifies this`conversionRate
      ensures outcome.Priced? ==> conversionRate == outcome.rate
      ensures !outcome.Priced? ==> conversionRate == 0.0
      ensures rawAmount == old(rawAmount) && rawSats == old(rawSats) && currency == old(currency)
    {
      match outcome
      case Priced(rate) => conversionRate := rate;
      case Unpriced => conversionRate := 0.0;
      case Failed => conversionRate := 0.0;
    }

    /** The rate readout for the current state. */
    function RateText(): (text: string)
      reads this
      ensures text == Loading <==> conversionRate == 0.0
    {
      RateDisplay(conversionRate)
    }
  }

  /** While the rate is 0 (loading or failed), both handlers clear the other field and the readout says so. */
  lemma RateZeroClears(text: string)
    ensures DerivedSats(text, 0.0) == "" && DerivedAmount(text, 0.0) == ""
    ensures RateDisplay(0.0) == Loading
  {
  }

  /** Any parsed amount gives a satoshi count written with no fraction digits; an infinite one is written as a sign and the infinity sign. */
  lemma DerivedSatsWhole(amountText: string, rate: real)
    requires rate > 0.0 && ParseFloat(amountText).Some?
    ensures '.' !in DerivedSats(amountText, rate)
  {
    if ParseFloat(amountText).value.Finite? {
      FormatShape(ToSats(ParseFloat(amountText).value.value, rate), 0);
    } else {
      DerivedSatsInfinite(amountText, rate, ParseFloat(amountText).value.negative);
    }
  }

  /** An amount that parses to an infinity shows the same infinity as satoshis. */
  lemma DerivedSatsInfinite(amountText: string, rate: real, negative: bool)
    requires rate > 0.0 && ParseFloat(amountText) == Some(Infinite(negative))
    ensures DerivedSats(amountText, rate) == (if negative then "-" else "") + "\U{221E}"
  {
    assert SatsOf(Infinite(negative), rate) == Infinite(negative);
  }

  /** Satoshis that parse to an infinity show the same infinity as an amount. */
  lemma DerivedAmountInfinite(satsText: string, rate: real, negative: bool)
    requires rate > 0.0 && ParseFloat(satsText) == Some(Infinite(negative))
    ensures DerivedAmount(satsText, rate) == (if negative then "-" else "") + "\U{221E}"
  {
    assert AmountOf(Infinite(negative), rate) == Infinite(negative);
  }

  /** A finite satoshi count gives an amount written with exactly 2 fraction digits. */
  lemma DerivedAmountCents(satsText: string, rate: real)
    requires rate > 0.0 && ParseFloat(satsText).Some? && ParseFloat(satsText).value.Finite?
    ensures var amount := DerivedAmount(satsText, rate);
      |amount| > 3 && amount[|amount| - 3] == '.' && AllDigits(amount[|amount| - 2..]) &&
      '.' !in amount[..|amount| - 3]
  {
    FormatShape(ToAmount(ParseFloat(satsText).value.value, rate), 2);
  }

  /**
   * After an amount edit the satoshi field is the converted amount formatted
   * with no fraction digits, and that text reads back, commas removed, as the
   * converted amount rounded to a whole satoshi.
   */
  lemma AmountEditReadsBack(amountText: string, rate: real, amount: real)
    requires rate > 0.0 && ParseFloat(amountText) == Some(Finite(amount))
    ensures DerivedSats(amountText, rate) == FormatAmount(ToSats(amount, rate), 0)
    ensures ParseFloat(StripCommas(DerivedSats(amountText, rate))) == Some(Finite(Rounded(ToSats(amount, rate), 0)))
  {
    assert DerivedSats(amountText, rate) == FormatAmount(ToSats(amount, rate), 0);
    ParseFormatted(ToSats(amount, rate), 0);
  }

  /** Converting the rounded satoshi count back gives the typed amount to within half a satoshi's worth. */
  lemma AmountEditError(amount: real, rate: real)
    requires rate > 0.0
    ensures Abs(ToAmount(Rounded(ToSats(amount, rate), 0), rate) - amount) <= 0.5 / SatsPerBitcoin * rate
  {
    var sats := ToSats(amount, rate);
    RoundingBound(sats, 0);
    AmountRoundTrip(amount, rate);
    AmountErrorBound(Rounded(sats, 0), sats, rate, 0.5);
  }

  /**
   * After a satoshi edit the amount field is the converted value formatted
   * with 2 fraction digits, and that text reads back, commas removed, as the
   * converted value rounded to the cent.
   */
  lemma SatsEditReadsBack(satsText: string, rate: real, sats: real)
    requires rate > 0.0 && ParseFloat(satsText) == Some(Finite(sats))
    ensures DerivedAmount(satsText, rate) == FormatAmount(ToAmount(sats, rate), 2)
    ensures ParseFloat(StripCommas(DerivedAmount(satsText, rate))) == Some(Finite(Rounded(ToAmount(sats, rate), 2)))
  {
    assert DerivedAmount(satsText, rate) == FormatAmount(ToAmount(sats, rate), 2);
    ParseFormatted(ToAmount(sats, rate), 2);
  }

  /** Converting the rounded amount back gives the typed satoshis to within half a cent's worth. */
  lemma SatsEditError(sats: real, rate: real)
    requires rate > 0.0
    ensures Abs(ToSats(Rounded(ToAmount(sats, rate), 2), rate) - sats) <= 0.005 / rate * SatsPerBitcoin
  {
    var amount := ToAmount(sats, rate);
    RoundingBound(amount, 2);
    assert Pow10(2) == 100;
    SatsRoundTrip(sats, rate);
    SatsErrorBound(Rounded(amount, 2), amount, rate, 0.005);
  }
}

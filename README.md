# sats-converter in Dafny

The sats-converter is a single React component (`App`). It shows two linked text fields: an amount in a fiat currency and the same amount in satoshis (10^-8 bitcoin). It converts between them using a bitcoin price for the selected currency, fetched from a price service.

This project models that component's logic:

- **The component state.** `App.Converter` holds the two raw field texts, the conversion rate and the selected currency.
- **The handlers.** The two edit handlers strip commas from the typed text, store it, parse it, and then either write the converted, formatted value into the other field or clear that field. The currency selector's change handler is modelled too.
- **The fetch outcome.** A completed rate fetch stores the price, or 0 on any failure.
- **The rate readout.** It prints the price, or `Loading...` while the rate is 0.
- **The saved currency.** The initial currency is read from storage, falling back to `cad`.
- **`parseFloat`** (module `FloatParse`), over real numbers. It skips leading ECMAScript white space, reads an optional sign, then reads `Infinity` or the longest decimal literal with an optional exponent, and ignores the rest. Text without a number gives NaN, modelled as `None`.
- **`formatAmount`** (module `NumberFormat`): the en-CA decimal formatter with a fixed number of fraction digits. It rounds half away from zero, groups the integer part in threes with `,`, writes exactly `d` fraction digits after `.`, prefixes `-` for negative values, and prints infinities as `∞`.
- **The conversion arithmetic** (module `Conversion`), over real numbers.

Modules follow the program's pieces:

| module | contents |
|---|---|
| `Wrappers` | `Option` |
| `Numbers` | `JsNumber`: a finite real, or one of the two infinities |
| `Decimal` | digit strings and their values |
| `Commas` | removing commas, and grouping in threes |
| `NumberFormat` | the formatter |
| `FloatParse` | the parser |
| `Conversion` | conversion between the currency and satoshis |
| `App` | the component |

The main results:

1. **Each handler's new state.** After `HandleAmountChange` or `HandleSatsChange`:
   - the edited field holds the typed text with its commas removed;
   - the other field holds the formatted conversion, or `""` exactly when the text does not parse or the rate is not positive;
   - the rate and the currency are unchanged.
2. **The text a handler writes reads back.** With its commas removed, it parses as the converted value rounded to the displayed digits (`AmountEditReadsBack`, `SatsEditReadsBack`). Converting that value back lands within half a displayed unit of what was typed (`AmountEditError`, `SatsEditError`).
3. **Grouping is undone by comma stripping.** `StripGroup` proves this, and `StripFormatUnits` and `ParseFormatted` carry it through the whole formatter.
4. **The conversions are exact inverses over the reals** (`AmountRoundTrip`, `SatsRoundTrip`).

## Model

| member | source | states |
|---|---|---|
| App.SavedCurrency | src/App.js:31-39 | a non-empty stored string is returned as it is; an empty string, no entry or a storage exception gives `cad`; the result is never empty |
| App.SavedCurrencyUnchecked | src/App.js:34 | the stored value is not checked against the four option codes: `xyz` is returned although it is not an option |
| App.Converter.constructor | src/App.js:8-11 | initial state: both fields empty, rate 0, currency from the storage read |
| App.Converter.HandleAmountChange | src/App.js:107-118 | `rawAmount` is the typed text without commas; `rawSats` is `DerivedSats` of it, which is `""` exactly when the parse gives NaN or the rate is not positive; rate and currency unchanged |
| App.Converter.HandleSatsChange | src/App.js:125-136 | `rawSats` is the typed text without commas; `rawAmount` is `DerivedAmount` of it, `""` exactly when the parse gives NaN or the rate is not positive; rate and currency unchanged |
| App.DerivedSats | src/App.js:111-116 | the satoshi text is empty if and only if the amount text does not parse or the rate is not positive |
| App.DerivedAmount | src/App.js:129-134 | the amount text is empty if and only if the satoshi text does not parse or the rate is not positive |
| App.AmountEditReadsBack | src/App.js:111-114 | for a finite parsed amount `a` and rate `r > 0` the satoshi field is `formatAmount(a / r * 10^8, 0)`, and without commas it parses as that value rounded to a whole satoshi |
| App.AmountEditError | src/App.js:113-114 | converting the rounded satoshis back differs from the typed amount by at most half a satoshi's worth, `0.5 / 10^8 * r` |
| App.SatsEditReadsBack | src/App.js:129-132 | for finite parsed satoshis `s` and rate `r > 0` the amount field is `formatAmount(s / 10^8 * r, 2)`, and without commas it parses as that value rounded to the cent |
| App.SatsEditError | src/App.js:131-132 | converting the rounded amount back differs from the typed satoshis by at most half a cent's worth, `0.005 / r * 10^8` |
| App.DerivedSatsWhole | src/App.js:114 | any parsed amount, finite or infinite, gives satoshi text with no `.` |
| App.DerivedSatsInfinite | src/App.js:111-114 | an amount that parses to an infinity shows as that infinity's sign and `∞` in the satoshi field |
| App.DerivedAmountInfinite | src/App.js:129-132 | satoshis that parse to an infinity show as that infinity's sign and `∞` in the amount field |
| App.DerivedAmountCents | src/App.js:132 | finite satoshis give amount text whose single `.` is followed by exactly 2 digits |
| App.Converter.SelectCurrency | src/App.js:157 | only the currency changes, to the selected code |
| App.Converter.ApplyFetchOutcome | src/App.js:72-76 | a price stores that rate; a missing entry or any failure stores 0; the fields and currency are unchanged |
| App.RateDisplay | src/App.js:170 | the readout is `Loading...` if and only if the rate is 0, otherwise the rate formatted with 2 fraction digits |
| App.Converter.RateText | src/App.js:170 | the readout for the current state is `Loading...` exactly while the rate is 0 |
| App.RateZeroClears | src/App.js:112-134 | while the rate is 0 both handlers clear the other field, whatever is typed, and the readout says `Loading...` |
| Commas.StripCommas | src/App.js:108 | the result is never longer than the text; `StripCommasRemovesAll`, `StripCommasCounts`, `StripCommasAppend`, `StripCommasIdentity` and `StripCommasIdempotent` state the rest |
| Commas.Group | src/App.js:48-52 | the en-CA digit grouping has no contract of its own; `StripGroup`, `GroupCommaPositions` and `GroupChars` state its behaviour |
| Commas.StripCommasRemovesAll | src/App.js:108 | no `,` remains after stripping |
| Commas.StripCommasCounts | src/App.js:108 | stripping removes exactly the commas: every other character keeps its count |
| Commas.StripCommasAppend | src/App.js:108 | stripping distributes over concatenation, so the remaining characters keep their order |
| Commas.StripCommasIdentity | src/App.js:126 | text without commas is unchanged |
| Commas.StripCommasIdempotent | src/App.js:126 | stripping twice is stripping once |
| Commas.StripGroup | src/App.js:48-52 | stripping undoes digit grouping |
| Commas.GroupCommaPositions | src/App.js:48-52 | grouping `n` characters adds `(n - 1) / 3` commas, at exactly the positions a multiple of four from the end |
| Commas.GroupChars | src/App.js:48-52 | grouping adds nothing but commas and keeps the first character |
| Decimal.DigitsRoundTrip | src/App.js:48-52 | the decimal digits of a number read back as that number |
| Decimal.DigitsValueAppend | src/App.js:111 | reading concatenated digit strings shifts the first by the length of the second |
| NumberFormat.FormatAmount | src/App.js:47-53 | `formatAmount` on a finite value has no contract of its own; `FormatShape`, `RoundingBound`, `StripFormatUnits`, `FormatNoLeadingZero` and `ParseFormatted` state its behaviour |
| NumberFormat.FormatNumber | src/App.js:47-53 | `formatAmount` on any number: a finite value is `FormatAmount`, an infinity is its sign and `∞`; `FormatNumberNonEmpty` and `InfinityTextIsNaN` state its behaviour |
| NumberFormat.UnitDigits | src/App.js:48-52 | the zero-padded digits of the rounded units have more than `d` digits and denote the units |
| NumberFormat.RoundingBound | src/App.js:50-51 | the displayed value is within half a unit of the last fraction digit and has the sign of the input |
| NumberFormat.FormatShape | src/App.js:47-53 | formatted text: `-` first exactly for negative values, then a digit; with `d = 0` no `.`, with `d > 0` one `.` followed by exactly `d` digits at the end |
| NumberFormat.UnitsDigitsValue | src/App.js:48-52 | the integer and fraction digits read together denote the rounded units |
| NumberFormat.StripFormatUnits | src/App.js:48-52 | formatted text without its commas is the sign, the plain integer digits, `.` and the fraction |
| NumberFormat.FormatNumberNonEmpty | src/App.js:52 | the formatter never returns empty text |
| NumberFormat.WholeNoLeadingZero | src/App.js:48-52 | the integer digits start with `0` only when `0` is the whole integer part |
| NumberFormat.FormatNoLeadingZero | src/App.js:47-53 | a `0` at the start of the formatted integer part is followed by `.` or ends the text, so no redundant leading zero is written |
| FloatParse.TrimStart | src/App.js:111 | the result is a suffix of the text that is empty or does not start with white space |
| FloatParse.TrimStartDropsWhitespace | src/App.js:111 | everything the trim drops is ECMAScript white space or a line terminator |
| FloatParse.ParseDecimal | src/App.js:111 | a decimal literal is read exactly when the text starts with a digit, or with `.` and a digit |
| FloatParse.ParseUnsigned | src/App.js:111 | gives NaN exactly when the text starts neither with `Infinity` nor with a decimal literal |
| FloatParse.ParseFloat | src/App.js:111 | NaN exactly when, after white space and sign, no number starts the text |
| FloatParse.ParseSigned | src/App.js:111 | a leading `-` negates the value read after it, and no sign leaves it unchanged |
| FloatParse.ParseInteger | src/App.js:111 | a digit string parses to its value |
| FloatParse.ParsePointed | src/App.js:111 | digits, `.` and fraction digits parse to all the digits scaled down by the fraction's length |
| FloatParse.ParseIntegerThen | src/App.js:111 | digits followed by text that is empty or starts with something other than a digit, `.`, `e` or `E` read as the digits' value; the rest is ignored |
| FloatParse.ParseFloatIgnoresRest | src/App.js:111 | `parseFloat` of such text is the value of the leading digits |
| FloatParse.ParseFloatExponent | src/App.js:111 | `1.5e3x` reads as 1500: fraction, exponent, and trailing text ignored |
| FloatParse.ParseFloatBareExponent | src/App.js:111 | `7e` reads as 7: an exponent mark without digits is not part of the literal |
| FloatParse.ParseFloatNoNumber | src/App.js:111-112 | `x1` gives NaN, so the handler's guard clears the other field |
| FloatParse.ParseUnsignedUnits | src/App.js:111 | the unsigned text the formatter writes for `n` units of 10^-d parses as `n / 10^d` |
| FloatParse.ParseFormattedUnits | src/App.js:111-114 | formatter output without its commas parses as the signed value it shows |
| FloatParse.ParseFormatted | src/App.js:129-132 | `parseFloat` of formatted text without commas is the rounded value the formatter displays |
| FloatParse.InfinityTextIsNaN | src/App.js:111 | the formatter's `∞` text, with or without `-`, parses as NaN |
| Numbers.Negate | src/App.js:111 | negation keeps finiteness, negates a finite value and flips an infinity's sign |
| Conversion.ToSats | src/App.js:113 | the amount-to-satoshi formula has no contract of its own; `AmountRoundTrip`, `SatsRoundTrip`, `SatsError` and `Example` state its behaviour |
| Conversion.ToAmount | src/App.js:131 | the satoshi-to-amount formula has no contract of its own; `SatsRoundTrip`, `AmountRoundTrip`, `AmountError` and `Example` state its behaviour |
| Conversion.SatsOf | src/App.js:113 | a finite amount becomes `amount / rate * 10^8` satoshis; an infinity stays that infinity |
| Conversion.AmountOf | src/App.js:131 | a finite satoshi value becomes `sats / 10^8 * rate`; an infinity stays that infinity |
| Conversion.AmountRoundTrip | src/App.js:113-131 | at a positive rate, converting an amount to satoshis and back gives the amount |
| Conversion.SatsRoundTrip | src/App.js:113-131 | at a positive rate, converting satoshis to the currency and back gives the satoshis |
| Conversion.Example | src/App.js:113-131 | 100 units at 50,000 per bitcoin are 200,000 satoshis, and 200,000 satoshis are 100 units |
| Conversion.AmountError | src/App.js:131 | a difference in satoshis scales to exactly `/ 10^8 * rate` in the amount |
| Conversion.SatsError | src/App.js:113 | a difference in the amount scales to exactly `/ rate * 10^8` in satoshis |
| Conversion.AmountErrorBound | src/App.js:131 | a bounded satoshi error stays bounded, scaled by the rate, in the amount |
| Conversion.SatsErrorBound | src/App.js:113 | a bounded amount error stays bounded, scaled by the rate, in satoshis |

## Left out

- Network: the price request, the HTTP status check and the JSON decoding are not modelled. A fetch is a `FetchOutcome`: a price, no entry for the currency, or a failure.
- The fetch race: overlapping fetches that complete out of order are not modelled (concurrency).
- Effects: the effect hooks that start a fetch and save the currency when it changes are not modelled. The storage read is a `StorageRead` input, and storage writes are not modelled (browser I/O).
- Rendering: the markup, labels, logo, styles and the market-data link are not modelled. `Currencies` records the four options, but the labels shown for them are not used.
- App.Converter.ApplyFetchOutcome: when the response has no entry for the currency, the code stores `undefined`. The model stores 0 instead. Every reader of the rate (`> 0` in the handlers, truthiness in the readout) treats the two alike.
- Numbers: IEEE-754 doubles are not modelled. Arithmetic is exact over `real`, so rounding in division and multiplication is not captured. Parsing and formatting are exact over decimal text.
- FloatParse.ParseFloat: literals too large for a double parse to a finite real here. JavaScript would give `Infinity`.
- NumberFormat.FormatAmount: negative values that round to zero print as `-0`, `-0.00` and so on, as the formatter does. Over reals there is no separate negative-zero value, so `-0` typed into a field converts to a plain 0.
- NumberFormat.FormatAmount: only the en-CA choices this component uses are modelled: `,` grouping in threes, `.` as the decimal mark, `-` as the minus sign, rounding half away from zero, and equal minimum and maximum fraction digits. Other locales and options are not modelled.
- `getSavedCurrency` does not check the stored value against the four options; any non-empty stored string becomes the currency (`SavedCurrencyUnchecked`), and `cad` is used only when the value is empty or missing or the read throws.
- Console logging of errors is not modelled.

/**
 * The `formatAmount` helper: `Intl.NumberFormat('en-CA', { style: 'decimal',
 * minimumFractionDigits: d, maximumFractionDigits: d })`, over real numbers.
 * The magnitude is rounded to d fraction digits with halves away from zero
 * (the formatter's default rounding), the integer part is grouped in threes
 * with ',', the fraction has exactly d digits after '.', and a negative value
 * is prefixed with '-'.
 */
module NumberFormat {
  import opened Numbers
  import opened Decimal
  import opened Commas

  /** |v| * 10^d rounded to the nearest integer, halves rounded up. */
  function RoundedUnits(v: real, d: nat): nat {
    (Abs(v) * Pow10(d) as real + 0.5).Floor
  }

  /** The value of n units of 10^-d. */
  function Scaled(n: nat, d: nat): real {
    n as real / Pow10(d) as real
  }

  /** The value the formatter displays for `v` with `d` fraction digits. */
  function Rounded(v: real, d: nat): real {
    var m := Scaled(RoundedUnits(v, d), d);
    if v < 0.0 then -m else m
  }

  function SignText(negative: bool): string {
    if negative then "-" else ""
  }

  function FractionText(frac: string): string {
    if frac == [] then "" else "." + frac
  }

  /** The digits of n, padded with zeros so that at least one digit precedes the last d. */
  function UnitDigits(n: nat, d: nat): (s: string)
    ensures |s| > d && AllDigits(s) && DigitsValue(s) == n
  {
    DigitsRoundTrip(n);
    ZeroPadValue(Digits(n), d + 1);
    ZeroPad(Digits(n), d + 1)
  }

  /** The digits of `s` before its last d. */
  function Front(s: string, d: nat): (w: string)
    requires AllDigits(s) && |s| > d
    ensures |w| > 0 && AllDigits(w)
  {
    DigitsSlices(s, |s| - d);
    s[..|s| - d]
  }

  /** The last d digits of `s`. */
  function Back(s: string, d: nat): (f: string)
    requires AllDigits(s) && |s| > d
    ensures |f| == d && AllDigits(f)
  {
    DigitsSlices(s, |s| - d);
    s[|s| - d..]
  }

  /** The integer digits of n units of 10^-d. */
  function WholeDigits(n: nat, d: nat): (w: string)
    ensures |w| > 0 && AllDigits(w)
  {
    Front(UnitDigits(n, d), d)
  }

  /** The d fraction digits of n units of 10^-d. */
  function FractionDigits(n: nat, d: nat): (f: string)
    ensures |f| == d && AllDigits(f)
  {
    Back(UnitDigits(n, d), d)
  }

  /** The text for n units of 10^-d: sign, grouped integer digits, then '.' and the last d digits. */
  function FormatUnits(negative: bool, n: nat, d: nat): string {
    SignText(negative) + Group(WholeDigits(n, d)) + FractionText(FractionDigits(n, d))
  }

  /** The same text without sign and commas. */
  function PlainUnits(n: nat, d: nat): string {
    WholeDigits(n, d) + FractionText(FractionDigits(n, d))
  }

  function FormatAmount(v: real, d: nat): string {
    FormatUnits(v < 0.0, RoundedUnits(v, d), d)
  }

  /** The formatter on any number the parser can produce; infinities print as the sign and '∞'. */
  function FormatNumber(x: JsNumber, d: nat): string {
    match x
    case Finite(v) => FormatAmount(v, d)
    case Infinite(negative) => (if negative then "-" else "") + "\U{221E}"
  }

  /** The displayed value is within half a unit of the last fraction digit, and has the sign of `v`. */
  lemma RoundingBound(v: real, d: nat)
    ensures Abs(Rounded(v, d) - v) <= 0.5 / Pow10(d) as real
    ensures v < 0.0 ==> Rounded(v, d) <= 0.0
    ensures v >= 0.0 ==> Rounded(v, d) >= 0.0
  {
    var p := Pow10(d) as real;
    var a := Abs(v);
    var n := RoundedUnits(v, d) as real;
    assert a * p - 0.5 < n <= a * p + 0.5;
    DivideBounds(a, n, p);
  }

  lemma DivideBounds(a: real, n: real, p: real)
    requires p > 0.0
    requires a * p - 0.5 < n <= a * p + 0.5
    ensures a - 0.5 / p < n / p <= a + 0.5 / p
  {
    assert (a * p - 0.5) / p == a - 0.5 / p;
    assert (a * p + 0.5) / p == a + 0.5 / p;
  }

  lemma DigitsSlices(s: string, k: nat)
    requires AllDigits(s) && k <= |s|
    ensures AllDigits(s[..k]) && AllDigits(s[k..])
  {
    assert forall i :: 0 <= i < k ==> s[..k][i] == s[i];
    assert forall i :: 0 <= i < |s| - k ==> s[k..][i] == s[k + i];
  }

  /** A formatted amount has the shape of `Shaped`, with the sign of the value. */
  lemma FormatShape(v: real, d: nat)
    ensures Shaped(FormatAmount(v, d), v < 0.0, d)
  {
    UnitsShape(v < 0.0, RoundedUnits(v, d), d);
  }

  /** Read together, the integer and fraction digits are the digits of n. */
  lemma UnitsDigitsValue(n: nat, d: nat)
    ensures AllDigits(WholeDigits(n, d) + FractionDigits(n, d))
    ensures DigitsValue(WholeDigits(n, d) + FractionDigits(n, d)) == n
  {
    Rejoin(UnitDigits(n, d), d);
  }

  lemma Rejoin(s: string, d: nat)
    requires AllDigits(s) && |s| > d
    ensures AllDigits(Front(s, d) + Back(s, d)) && DigitsValue(Front(s, d) + Back(s, d)) == DigitsValue(s)
  {
    assert Front(s, d) + Back(s, d) == s;
  }

  /** Like the formatter, the integer digits have no leading zero: a '0' in front is the whole integer part. */
  lemma WholeNoLeadingZero(n: nat, d: nat)
    ensures WholeDigits(n, d)[0] == '0' ==> |WholeDigits(n, d)| == 1
  {
    var digits := Digits(n);
    var s := UnitDigits(n, d);
    assert WholeDigits(n, d) == s[..|s| - d];
    if |digits| >= d + 1 {
      assert s == digits;
      DigitsLeadingZero(n);
      if digits[0] == '0' {
        assert digits == Digits(0);
      }
    } else {
      assert |s| == d + 1;
    }
  }

  /** A formatted amount never starts its integer part with a redundant '0': such a '0' is followed by '.' or ends the text. */
  lemma FormatNoLeadingZero(v: real, d: nat)
    ensures var r := FormatAmount(v, d); var k := if v < 0.0 then 1 else 0;
      k < |r| && (r[k] == '0' ==> k + 1 == |r| || r[k + 1] == '.')
  {
    var n := RoundedUnits(v, d);
    WholeNoLeadingZero(n, d);
    var w := WholeDigits(n, d);
    if w[0] == '0' {
      OneDigitHead(SignText(v < 0.0), w, FractionText(FractionDigits(n, d)), FormatAmount(v, d));
    } else {
      LeadingDigitHead(SignText(v < 0.0), w, FractionText(FractionDigits(n, d)), FormatAmount(v, d));
    }
  }

  lemma OneDigitHead(sign: string, w: string, frac: string, r: string)
    requires |w| == 1 && r == sign + Group(w) + frac && (frac == [] || frac[0] == '.')
    ensures |sign| < |r| && r[|sign|] == w[0] && (|sign| + 1 == |r| || r[|sign| + 1] == '.')
  {
    assert r == sign + w + frac;
    if frac != [] {
      assert r[|sign| + 1] == frac[0];
    }
  }

  lemma LeadingDigitHead(sign: string, w: string, frac: string, r: string)
    requires |w| > 0 && r == sign + Group(w) + frac
    ensures |sign| < |r| && r[|sign|] == w[0]
  {
    GroupChars(w);
    assert r[|sign|] == Group(w)[0];
  }

  /** A grouped digit string holds only digits and commas, and starts with a digit. */
  lemma GroupedDigits(s: string)
    requires |s| > 0 && AllDigits(s)
    ensures |Group(s)| > 0 && IsDigit(Group(s)[0])
    ensures forall i :: 0 <= i < |Group(s)| ==> Group(s)[i] == ',' || IsDigit(Group(s)[i])
  {
    GroupChars(s);
    forall i | 0 <= i < |Group(s)| ensures Group(s)[i] == ',' || IsDigit(Group(s)[i]) {
      if Group(s)[i] != ',' {
        var j :| 0 <= j < |s| && s[j] == Group(s)[i];
      }
    }
  }

  /** The sign and the grouped integer digits, with no '.' among them. */
  lemma HeadShape(negative: bool, whole: string)
    requires |whole| > 0 && AllDigits(whole)
    ensures var head := SignText(negative) + Group(whole);
      |head| > (if negative then 1 else 0) &&
      (head[0] == '-' <==> negative) &&
      IsDigit(head[if negative then 1 else 0]) &&
      '.' !in head
  {
    GroupedDigits(whole);
    var sign, grouped := SignText(negative), Group(whole);
    var head := sign + grouped;
    assert head[|sign|] == grouped[0];
    forall i | 0 <= i < |head| ensures head[i] != '.' {
      if i >= |sign| { assert head[i] == grouped[i - |sign|]; }
    }
  }

  /**
   * The shape of formatted text: a '-' exactly when `negative`, then a digit;
   * with d > 0 a '.' followed by exactly d digits ends the text and is its only
   * '.', and with d = 0 there is no '.' at all.
   */
  predicate Shaped(r: string, negative: bool, d: nat) {
    |r| > d + (if negative then 1 else 0) &&
    (r[0] == '-' <==> negative) &&
    IsDigit(r[if negative then 1 else 0]) &&
    (d == 0 ==> '.' !in r) &&
    (d > 0 ==> r[|r| - d - 1] == '.' && AllDigits(r[|r| - d..]) && '.' !in r[..|r| - d - 1])
  }

  lemma UnitsShape(negative: bool, n: nat, d: nat)
    ensures Shaped(FormatUnits(negative, n, d), negative, d)
  {
    HeadShape(negative, WholeDigits(n, d));
    HeadFractionShape(SignText(negative) + Group(WholeDigits(n, d)), FractionDigits(n, d), negative, d);
  }

  /** A head of the right shape followed by the fraction text gives a shaped text. */
  lemma HeadFractionShape(head: string, frac: string, negative: bool, d: nat)
    requires |head| > (if negative then 1 else 0) && (head[0] == '-' <==> negative)
    requires IsDigit(head[if negative then 1 else 0]) && '.' !in head
    requires |frac| == d && AllDigits(frac)
    ensures Shaped(head + FractionText(frac), negative, d)
  {
    if d == 0 {
      assert head + FractionText(frac) == head;
    } else {
      PointedShape(head, frac);
    }
  }

  /** A head followed by '.' and a fraction: where each part lies in the text. */
  lemma PointedShape(head: string, frac: string)
    requires |head| > 0 && |frac| > 0
    ensures var r := head + FractionText(frac);
      |r| == |head| + |frac| + 1 &&
      r[|r| - |frac| - 1] == '.' && r[|r| - |frac|..] == frac && r[..|r| - |frac| - 1] == head &&
      r[0] == head[0] && (|head| > 1 ==> r[1] == head[1])
  {
    var r := head + FractionText(frac);
    assert r == head + ("." + frac);
    assert r[..|head|] == head;
    assert r[|head| + 1..] == frac;
  }

  /** With its commas removed, a formatted amount is the sign, the integer digits and the fraction. */
  lemma StripFormatUnits(negative: bool, n: nat, d: nat)
    ensures StripCommas(FormatUnits(negative, n, d)) == SignText(negative) + PlainUnits(n, d)
  {
    var whole, frac := WholeDigits(n, d), FractionText(FractionDigits(n, d));
    DigitsHaveNoComma(whole);
    DigitsHaveNoComma(FractionDigits(n, d));
    assert ',' !in frac;
    StripAroundGroup(SignText(negative), whole, frac);
  }

  lemma DigitsHaveNoComma(s: string)
    requires AllDigits(s)
    ensures ',' !in s
  {
    forall i | 0 <= i < |s| ensures s[i] != ',' { assert IsDigit(s[i]); }
  }

  lemma StripAroundGroup(sign: string, whole: string, frac: string)
    requires ',' !in sign && ',' !in whole && ',' !in frac
    ensures StripCommas(sign + Group(whole) + frac) == sign + (whole + frac)
  {
    StripCommasAppend3(sign, Group(whole), frac);
    StripGroup(whole);
    StripCommasIdentity(sign);
    StripCommasIdentity(frac);
  }

  /** The formatter never produces empty text. */
  lemma FormatNumberNonEmpty(x: JsNumber, d: nat)
    ensures FormatNumber(x, d) != ""
  {
    if x.Finite? {
      FormatShape(x.value, d);
    }
  }
}

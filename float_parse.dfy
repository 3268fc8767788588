/**
 * JavaScript's `parseFloat` over real numbers: leading white space is skipped,
 * an optional '+' or '-' is read, then the longest prefix that is "Infinity"
 * or a decimal literal (digits, an optional '.' and fraction digits, an
 * optional exponent) gives the value; anything after that prefix is ignored.
 * Text with no such prefix gives NaN, written `None`.
 */
module FloatParse {
  import opened Wrappers
  import opened Numbers
  import opened Decimal
  import opened Commas
  import opened NumberFormat

  /** The characters the ECMAScript string trim skips: white space and line terminators. */
  predicate IsJsWhitespace(c: char) {
    c == '\t' || c == '\n' || c == '\U{000B}' || c == '\U{000C}' || c == '\r' || c == ' ' ||
    c == '\U{00A0}' || c == '\U{1680}' || ('\U{2000}' <= c <= '\U{200A}') ||
    c == '\U{2028}' || c == '\U{2029}' || c == '\U{202F}' || c == '\U{205F}' ||
    c == '\U{3000}' || c == '\U{FEFF}'
  }

  /** `s` without its leading white space. */
  function TrimStart(s: string): (r: string)
    ensures |r| <= |s| && r == s[|s| - |r|..]
    ensures r == [] || !IsJsWhitespace(r[0])
  {
    if s != [] && IsJsWhitespace(s[0]) then TrimStart(s[1..]) else s
  }

  /** Everything `TrimStart` drops is white space. */
  lemma {:induction false} TrimStartDropsWhitespace(s: string)
    ensures forall i :: 0 <= i < |s| - |TrimStart(s)| ==> IsJsWhitespace(s[i])
  {
    if s != [] && IsJsWhitespace(s[0]) {
      TrimStartDropsWhitespace(s[1..]);
      assert forall i :: 1 <= i < |s| ==> s[i] == s[1..][i - 1];
    }
  }

  predicate HasSign(t: string) {
    |t| > 0 && (t[0] == '+' || t[0] == '-')
  }

  function Unsigned(t: string): string {
    if HasSign(t) then t[1..] else t
  }

  /** Whether unsigned text begins with something `parseFloat` reads as a number. */
  predicate StartsNumber(u: string) {
    "Infinity" <= u ||
    (|u| > 0 && IsDigit(u[0])) ||
    (|u| > 1 && u[0] == '.' && IsDigit(u[1]))
  }

  /** A decimal literal as read: the digits before and after '.' as one integer, and a power of ten. */
  datatype Scientific = Scientific(mantissa: nat, exponent: int)

  function ScientificValue(x: Scientific): real {
    x.mantissa as real * Pow10Real(x.exponent)
  }

  /** Whether `s` starts with 'e' or 'E'. */
  predicate HasExponentMark(s: string) {
    |s| > 0 && (s[0] == 'e' || s[0] == 'E')
  }

  /** The digits of an exponent after its mark and optional sign. */
  function ExponentDigits(s: string): (e: string)
    requires HasExponentMark(s)
    ensures AllDigits(e)
  {
    Unsigned(s[1..])[..DigitRun(Unsigned(s[1..]))]
  }

  /** The exponent an optional "e±digits" suffix denotes; 0 when there is none. */
  function ExponentOf(s: string): int {
    if !HasExponentMark(s) then 0
    else if |s| > 1 && s[1] == '-' then 0 - DigitsValue(ExponentDigits(s))
    else DigitsValue(ExponentDigits(s))
  }

  /** What follows the integer digits of `u`. */
  function AfterInteger(u: string): string {
    u[DigitRun(u)..]
  }

  predicate HasPoint(u: string) {
    |AfterInteger(u)| > 0 && AfterInteger(u)[0] == '.'
  }

  /** The number of fraction digits after the point, 0 when there is no point. */
  function FractionRun(u: string): (f: nat)
    ensures HasPoint(u) ==> f <= |AfterInteger(u)| - 1
  {
    if HasPoint(u) then DigitRun(AfterInteger(u)[1..]) else 0
  }

  function IntegerDigitsOf(u: string): (i: string)
    ensures AllDigits(i)
  {
    u[..DigitRun(u)]
  }

  function FractionDigitsOf(u: string): (f: string)
    ensures AllDigits(f) && |f| == FractionRun(u)
  {
    if HasPoint(u) then AfterInteger(u)[1..][..FractionRun(u)] else []
  }

  /** What follows the digits, the point and the fraction digits of `u`. */
  function AfterMantissa(u: string): string {
    if HasPoint(u) then AfterInteger(u)[1 + FractionRun(u)..] else AfterInteger(u)
  }

  /** A decimal literal at the start of `u`, read as far as it goes. */
  function ParseDecimal(u: string): (r: Option<Scientific>)
    ensures r.Some? <==> (|u| > 0 && IsDigit(u[0])) || (|u| > 1 && u[0] == '.' && IsDigit(u[1]))
  {
    if DigitRun(u) + FractionRun(u) == 0 then None
    else
      AllDigitsAppend(IntegerDigitsOf(u), FractionDigitsOf(u));
      Some(Scientific(DigitsValue(IntegerDigitsOf(u) + FractionDigitsOf(u)),
                      ExponentOf(AfterMantissa(u)) - FractionRun(u)))
  }

  function ParseUnsigned(u: string): (r: Option<JsNumber>)
    ensures r.None? <==> !StartsNumber(u)
  {
    if "Infinity" <= u then Some(Infinite(false))
    else
      match ParseDecimal(u)
      case None => None
      case Some(x) => Some(Finite(ScientificValue(x)))
  }

  predicate HasMinus(t: string) {
    |t| > 0 && t[0] == '-'
  }

  function ParseFloat(s: string): (r: Option<JsNumber>)
    ensures r.None? <==> !StartsNumber(Unsigned(TrimStart(s)))
  {
    ParseTrimmed(TrimStart(s))
  }

  /** Text with its leading white space removed: a leading '-' negates what follows it. */
  function ParseTrimmed(t: string): (r: Option<JsNumber>)
    ensures r.None? <==> !StartsNumber(Unsigned(t))
  {
    if HasMinus(t) && ParseUnsigned(Unsigned(t)).Some? then Some(Negate(ParseUnsigned(Unsigned(t)).value))
    else ParseUnsigned(Unsigned(t))
  }

  /** Text that starts with a sign or a digit is not trimmed. */
  lemma TrimStartKeeps(s: string)
    requires s != [] && (s[0] == '-' || IsDigit(s[0]))
    ensures TrimStart(s) == s
  {
  }

  /** A sign written by the formatter is read back by the parser. */
  lemma ParseSigned(negative: bool, u: string)
    requires u != [] && IsDigit(u[0])
    ensures ParseFloat(SignText(negative) + u) ==
      if negative then Some(Negate(ParseUnsigned(u).value)) else ParseUnsigned(u)
  {
    var w := SignText(negative) + u;
    TrimStartKeeps(w);
    if negative {
      assert w == ['-'] + u;
      assert w[1..] == u;
    } else {
      assert w == u;
    }
  }

  /** `ParseSigned` for a finite unsigned value, with the text and value passed in so callers need not unfold them. */
  lemma ParseSignedValue(negative: bool, u: string, w: string, m: real)
    requires w == SignText(negative) + u
    requires u != [] && IsDigit(u[0])
    requires ParseUnsigned(u) == Some(Finite(m))
    ensures ParseFloat(w) == Some(Finite(if negative then -m else m))
  {
    if negative {
      assert w == "-" + u;
      ParseMinusValue(u, w, m);
    } else {
      assert w == u;
      ParsePlainValue(u, m);
    }
  }

  lemma ParseMinusValue(u: string, w: string, m: real)
    requires w == "-" + u && u != [] && IsDigit(u[0]) && ParseUnsigned(u) == Some(Finite(m))
    ensures ParseFloat(w) == Some(Finite(-m))
  {
    TrimStartKeeps(w);
    assert w[0] == '-' && w[1..] == u;
    MinusTrimmed(w, u, m);
  }

  lemma MinusTrimmed(t: string, u: string, m: real)
    requires HasMinus(t) && Unsigned(t) == u && ParseUnsigned(u) == Some(Finite(m))
    ensures ParseTrimmed(t) == Some(Finite(-m))
  {
  }

  lemma ParsePlainValue(u: string, m: real)
    requires u != [] && IsDigit(u[0]) && ParseUnsigned(u) == Some(Finite(m))
    ensures ParseFloat(u) == Some(Finite(m))
  {
    TrimStartKeeps(u);
  }

  /** Whether `r` cannot continue a digit run: it is empty or starts with something other than a digit, '.', 'e' or 'E'. */
  predicate EndsLiteral(r: string) {
    r == [] || !(IsDigit(r[0]) || r[0] == '.' || r[0] == 'e' || r[0] == 'E')
  }

  /** Digits followed by text that cannot continue them parse to the digits' value; the rest is ignored. */
  lemma ParseIntegerThen(i: string, r: string)
    requires |i| > 0 && AllDigits(i) && EndsLiteral(r)
    ensures ParseDecimal(i + r) == Some(Scientific(DigitsValue(i), 0))
  {
    var u := i + r;
    DigitRunOf(i, r);
    assert IntegerDigitsOf(u) == i;
    assert AfterInteger(u) == r;
    assert !HasPoint(u);
    assert IntegerDigitsOf(u) + FractionDigitsOf(u) == i;
    assert AfterMantissa(u) == r;
    assert !HasExponentMark(r);
  }

  /** A non-empty digit string followed by nothing parses to its value. */
  lemma ParseInteger(i: string)
    requires |i| > 0 && AllDigits(i)
    ensures ParseDecimal(i) == Some(Scientific(DigitsValue(i), 0))
  {
    ParseIntegerThen(i, []);
    assert i + [] == i;
  }

  /** `parseFloat` of digits and trailing text that cannot continue them is the digits' value. */
  lemma ParseFloatIgnoresRest(i: string, r: string)
    requires |i| > 0 && AllDigits(i) && EndsLiteral(r)
    ensures ParseFloat(i + r) == Some(Finite(DigitsValue(i) as real))
  {
    ParseIntegerThen(i, r);
    assert (i + r)[0] == i[0];
    ParseWhole(i + r, DigitsValue(i));
  }

  /** Text starting with a digit whose literal is the integer m reads as m. */
  lemma ParseWhole(u: string, m: nat)
    requires |u| > 0 && IsDigit(u[0]) && ParseDecimal(u) == Some(Scientific(m, 0))
    ensures ParseFloat(u) == Some(Finite(m as real))
  {
    UnsignedDecimal(u, Scientific(m, 0));
    assert Pow10Real(0) == 1.0;
    assert SignText(false) + u == u;
    ParseSignedValue(false, u, u, m as real);
  }

  /** Unsigned text starting with a digit is read as its decimal literal. */
  lemma UnsignedDecimal(u: string, x: Scientific)
    requires |u| > 0 && IsDigit(u[0]) && ParseDecimal(u) == Some(x)
    ensures ParseUnsigned(u) == Some(Finite(ScientificValue(x)))
  {
    assert !("Infinity" <= u);
  }

  /** A fraction, an exponent and trailing text: "1.5e3x" reads as 1500. */
  lemma ParseFloatExponent()
    ensures ParseFloat("1.5e3x") == Some(Finite(1500.0))
  {
    var u := "1.5e3x";
    MantissaParts(u);
    ExponentThree();
    assert IntegerDigitsOf(u) + FractionDigitsOf(u) == "15";
    assert DigitsValue("15") == 15;
    assert ParseDecimal(u) == Some(Scientific(15, 2));
    ExponentLiteral(u);
  }

  lemma MantissaParts(u: string)
    requires u == "1.5e3x"
    ensures DigitRun(u) == 1 && IntegerDigitsOf(u) == "1" && HasPoint(u)
    ensures FractionRun(u) == 1 && FractionDigitsOf(u) == "5" && AfterMantissa(u) == "e3x"
  {
    assert u == "1" + "." + "5e3x";
    PointedInteger("1", "5e3x", u);
    assert "5e3x" == "5" + "e3x";
    DigitRunOf("5", "e3x");
    assert AfterInteger(u)[1..] == "5e3x";
  }

  lemma ExponentLiteral(u: string)
    requires u == "1.5e3x" && ParseDecimal(u) == Some(Scientific(15, 2))
    ensures ParseFloat(u) == Some(Finite(1500.0))
  {
    UnsignedDecimal(u, Scientific(15, 2));
    assert Pow10Real(2) == 100.0;
    assert SignText(false) + u == u;
    ParseSignedValue(false, u, u, 1500.0);
  }

  lemma ExponentThree()
    ensures ExponentOf("e3x") == 3
  {
    assert Unsigned("e3x"[1..]) == "3x";
    assert "3x" == "3" + "x";
    DigitRunOf("3", "x");
    assert ExponentDigits("e3x") == "3";
  }

  /** An exponent mark with no digits after it adds nothing: "7e" reads as 7. */
  lemma ParseFloatBareExponent()
    ensures ParseFloat("7e") == Some(Finite(7.0))
  {
    var u := "7e";
    assert u == "7" + "e";
    DigitRunOf("7", "e");
    assert IntegerDigitsOf(u) == "7" && AfterInteger(u) == "e";
    assert !HasPoint(u);
    assert AfterMantissa(u) == "e";
    assert Unsigned("e"[1..]) == [];
    assert ExponentDigits("e") == [];
    assert ExponentOf("e") == 0;
    assert IntegerDigitsOf(u) + FractionDigitsOf(u) == "7";
    assert ParseDecimal(u) == Some(Scientific(7, 0));
    UnsignedDecimal(u, Scientific(7, 0));
    assert Pow10Real(0) == 1.0;
    assert SignText(false) + u == u;
    ParseSignedValue(false, u, u, 7.0);
  }

  /** Text that starts with neither a number nor white space is NaN. */
  lemma ParseFloatNoNumber()
    ensures ParseFloat("x1") == None
  {
    assert !IsJsWhitespace('x');
    assert TrimStart("x1") == "x1";
  }

  /** Digits, a '.', and fraction digits parse to all the digits scaled down by the fraction's length. */
  lemma ParsePointed(i: string, f: string)
    requires |i| > 0 && AllDigits(i) && AllDigits(f)
    ensures AllDigits(i + f)
    ensures ParseDecimal(i + "." + f) == Some(Scientific(DigitsValue(i + f), -|f|))
  {
    AllDigitsAppend(i, f);
    var u := i + "." + f;
    PointedInteger(i, f, u);
    PointedFraction(u, f);
    assert ExponentOf([]) == 0;
  }

  lemma PointedInteger(i: string, f: string, u: string)
    requires AllDigits(i) && u == i + "." + f
    ensures DigitRun(u) == |i| && IntegerDigitsOf(u) == i && AfterInteger(u) == "." + f
  {
    assert u == i + ("." + f);
    DigitRunOf(i, "." + f);
  }

  lemma PointedFraction(u: string, f: string)
    requires AllDigits(f) && AfterInteger(u) == "." + f
    ensures HasPoint(u) && FractionRun(u) == |f| && FractionDigitsOf(u) == f && AfterMantissa(u) == []
  {
    assert AfterInteger(u)[1..] == f;
    DigitRunOf(f, []);
    assert f + [] == f;
  }

  /** The unsigned text the formatter writes for n units of 10^-d reads back as n scaled by 10^-d. */
  lemma ParseUnsignedUnits(n: nat, d: nat)
    ensures PlainUnits(n, d) != [] && IsDigit(PlainUnits(n, d)[0])
    ensures ParseUnsigned(PlainUnits(n, d)) == Some(Finite(Scaled(n, d)))
  {
    var whole, frac := WholeDigits(n, d), FractionDigits(n, d);
    var u := PlainUnits(n, d);
    assert u == whole + FractionText(frac);
    assert u[0] == whole[0];
    UnitsDigitsValue(n, d);
    if d == 0 {
      assert u == whole && frac == [];
      assert whole + frac == whole;
      assert DigitsValue(whole) == n;
      ParseInteger(whole);
      assert ParseDecimal(u) == Some(Scientific(n, 0));
    } else {
      assert u == whole + "." + frac;
      ParsePointed(whole, frac);
      PointedUnits(u, whole, frac, n, d);
    }
    ScaledUnits(n, d);
    assert !("Infinity" <= u);
  }

  /** Rewrites the parsed literal in terms of `n` and `d`; a separate step so the solver does not unfold the digit strings. */
  lemma PointedUnits(u: string, whole: string, frac: string, n: nat, d: nat)
    requires AllDigits(whole + frac) && |frac| == d
    requires DigitsValue(whole + frac) == n
    requires ParseDecimal(u) == Some(Scientific(DigitsValue(whole + frac), -|frac|))
    ensures ParseDecimal(u) == Some(Scientific(n, -(d as int)))
  {
  }

  lemma ScaledUnits(n: nat, d: nat)
    ensures ScientificValue(Scientific(n, -(d as int))) == Scaled(n, d)
  {
    if d == 0 {
      assert Pow10Real(0) == 1.0;
    }
  }

  /**
   * What the formatter writes reads back, once its commas are removed, as the
   * rounded number it displays.
   */
  lemma ParseFormattedUnits(negative: bool, n: nat, d: nat)
    ensures ParseFloat(StripCommas(FormatUnits(negative, n, d))) ==
      Some(Finite(if negative then -Scaled(n, d) else Scaled(n, d)))
  {
    ParseUnsignedUnits(n, d);
    StripFormatUnits(negative, n, d);
    ParseSignedValue(negative, PlainUnits(n, d), StripCommas(FormatUnits(negative, n, d)), Scaled(n, d));
  }

  /** A formatted amount reads back as `Rounded`, the value the formatter displays. */
  lemma ParseFormatted(v: real, d: nat)
    ensures ParseFloat(StripCommas(FormatAmount(v, d))) == Some(Finite(Rounded(v, d)))
  {
    var n := RoundedUnits(v, d);
    ParseFormattedUnits(v < 0.0, n, d);
    ReadBack(FormatUnits(v < 0.0, n, d), FormatAmount(v, d),
      if v < 0.0 then -Scaled(n, d) else Scaled(n, d), Rounded(v, d));
  }

  /** Carries a read-back fact across equal text and value; a separate step so the solver does not unfold either side. */
  lemma ReadBack(w: string, w': string, m: real, m': real)
    requires w == w' && m == m'
    requires ParseFloat(StripCommas(w)) == Some(Finite(m))
    ensures ParseFloat(StripCommas(w')) == Some(Finite(m'))
  {
  }

  /** The formatter's infinity sign does not read back as a number. */
  lemma InfinityTextIsNaN(negative: bool, d: nat)
    ensures ParseFloat(StripCommas(FormatNumber(Infinite(negative), d))) == None
  {
    var w := SignText(negative) + "\U{221E}";
    assert FormatNumber(Infinite(negative), d) == w;
    StripCommasIdentity(w);
    SignedInfinitySign(negative, w);
  }

  lemma SignedInfinitySign(negative: bool, w: string)
    requires w == SignText(negative) + "\U{221E}"
    ensures ParseFloat(w) == None
  {
    assert TrimStart(w) == w;
    if negative {
      assert w[1..] == "\U{221E}";
    }
    assert !StartsNumber(Unsigned(w));
  }
}

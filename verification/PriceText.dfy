/** Printing fixed-precision prices. */
module PriceText {
  import opened Common
  import opened Digits

  type I64 = x: int | -0x8000_0000_0000_0000 <= x < 0x8000_0000_0000_0000

  const I64_MIN: I64 := -0x8000_0000_0000_0000
  const UNDEF_PRICE: I64 := 0x7FFF_FFFF_FFFF_FFFF
  const FIXED_PRICE_SCALE: int := 1_000_000_000

  const DIVISORS: seq<int> :=
    [0, 100_000_000, 10_000_000, 1_000_000, 100_000, 10_000, 1_000, 100, 10]

  /** The magnitude; the smallest price has none, its negation overflows. */
  function Magnitude(px: I64): Option<nat> {
    if px == I64_MIN then None else Some(if px < 0 then -px else px)
  }

  function Sign(px: I64): string {
    if px < 0 then "-" else ""
  }

  function FmtPx(px: I64): Option<string> {
    if px == UNDEF_PRICE then Some("UNDEF_PRICE")
    else
      match Magnitude(px)
      case None => None
      case Some(abs) =>
        Some(Sign(px) + ToDecimal(abs / FIXED_PRICE_SCALE) + "." + PadZeros(ToDecimal(abs % FIXED_PRICE_SCALE), 9))
  }

  /** The display of a price, with or without a precision. */
  function DisplayPx(px: I64, precision: Option<nat>): Option<string> {
    if px == UNDEF_PRICE then Some("UNDEF_PRICE")
    else
      match Magnitude(px)
      case None => None
      case Some(abs) =>
        var integer, fraction := abs / FIXED_PRICE_SCALE, abs % FIXED_PRICE_SCALE;
        match precision
        case None => Some(Sign(px) + (ToDecimal(integer) + "." + PadZeros(ToDecimal(fraction), 9)))
        case Some(p) =>
          if p == 0 then Some(Sign(px) + ToDecimal(abs))
          else if p < 9 then
            Some(Sign(px) + (ToDecimal(integer) + "." + PadZeros(ToDecimal(fraction / DIVISORS[p]), p)))
          else Some(Sign(px) + (ToDecimal(integer) + "." + PadZeros(ToDecimal(fraction), 9)))
  }

  predicate Prints(px: I64) {
    px != UNDEF_PRICE && px != I64_MIN
  }

  lemma DropIsDivision(n: nat, p: nat)
    requires 0 < p < 9
    ensures DropDigits(n, 9 - p) == n / DIVISORS[p]
  {
    DropSteps(n);
  }

  lemma DropSteps(n: nat)
    ensures DropDigits(n, 1) == n / 10 && DropDigits(n, 2) == n / 100
    ensures DropDigits(n, 3) == n / 1_000 && DropDigits(n, 4) == n / 10_000
    ensures DropDigits(n, 5) == n / 100_000 && DropDigits(n, 6) == n / 1_000_000
    ensures DropDigits(n, 7) == n / 10_000_000 && DropDigits(n, 8) == n / 100_000_000
  {
    DropLast(n, 0);
    DropLast(n, 1);
    DropLast(n, 2);
    DropLast(n, 3);
    DropLast(n, 4);
    DropLast(n, 5);
    DropLast(n, 6);
    DropLast(n, 7);
  }

  lemma ScaleIsNineDigits()
    ensures Pow10(9) == FIXED_PRICE_SCALE
  {
    assert Pow10(3) == 1_000;
    assert Pow10(6) == 1_000 * Pow10(3);
    assert Pow10(9) == 1_000 * Pow10(6);
  }

  /** The text of a magnitude: its integer part, a point and nine digits. */
  function MagnitudeText(abs: nat): string {
    ToDecimal(abs / FIXED_PRICE_SCALE) + "." + PadZeros(ToDecimal(abs % FIXED_PRICE_SCALE), 9)
  }

  lemma SignApart(sign: string, integer: string, fraction: string)
    ensures sign + (integer + "." + fraction) == sign + integer + "." + fraction
  {
    Regroup(sign, integer + ".", fraction);
    Regroup(sign, integer, ".");
  }

  lemma FmtIsSignAndMagnitude(px: I64)
    requires Prints(px)
    ensures FmtPx(px) == Some(Sign(px) + MagnitudeText(Magnitude(px).value))
  {
    var abs := Magnitude(px).value;
    SignApart(Sign(px), ToDecimal(abs / FIXED_PRICE_SCALE), PadZeros(ToDecimal(abs % FIXED_PRICE_SCALE), 9));
  }

  lemma FractionIsFixed(abs: nat)
    ensures var d := abs % FIXED_PRICE_SCALE;
            PadZeros(ToDecimal(d), 9) == Fixed(d, 9) && ParseDigits(Fixed(d, 9)) == Some(d)
  {
    ScaleIsNineDigits();
    PadIsFixed(abs % FIXED_PRICE_SCALE, 9);
    ParseFixed(abs % FIXED_PRICE_SCALE, 9);
  }

  lemma FractionTruncates(d: nat, p: nat)
    requires d < FIXED_PRICE_SCALE && 0 < p < 9
    ensures PadZeros(ToDecimal(d / DIVISORS[p]), p) == Fixed(d, 9)[..p]
  {
    ScaleIsNineDigits();
    FixedPrefix(d, 9, 9 - p);
    DropDigitsFits(d, 9, 9 - p);
    DropIsDivision(d, p);
    PadIsFixed(d / DIVISORS[p], p);
  }

  lemma CutText(sign: string, integer: string, fraction: string, p: nat)
    requires p <= |fraction|
    ensures var text := sign + (integer + "." + fraction);
            && |text| > |fraction|
            && text[..|text| - (|fraction| - p)] == sign + (integer + "." + fraction[..p])
            && text[..|text| - (|fraction| + 1)] == sign + integer
  {
  }

  /** With a precision of 1 to 8 the text is the nine-decimal text cut short: truncation toward
      zero, with exactly that many fraction digits. */
  lemma PrecisionTruncates(px: I64, p: nat)
    requires Prints(px) && 0 < p < 9
    ensures FmtPx(px).Some? && DisplayPx(px, Some(p)).Some?
    ensures var text := FmtPx(px).value;
            |text| >= 9 - p && DisplayPx(px, Some(p)).value == text[..|text| - (9 - p)]
  {
    var abs := Magnitude(px).value;
    FmtIsSignAndMagnitude(px);
    FractionIsFixed(abs);
    FractionTruncates(abs % FIXED_PRICE_SCALE, p);
    CutText(Sign(px), ToDecimal(abs / FIXED_PRICE_SCALE), Fixed(abs % FIXED_PRICE_SCALE, 9), p);
  }

  lemma DecimalIsInjective(sign: string, a: nat, b: nat)
    ensures sign + ToDecimal(a) == sign + ToDecimal(b) <==> a == b
  {
    ParseToDecimal(a);
    ParseToDecimal(b);
    assert (sign + ToDecimal(a))[|sign|..] == ToDecimal(a);
    assert (sign + ToDecimal(b))[|sign|..] == ToDecimal(b);
  }

  /** A precision of 0 prints the scaled integer, which is the truncated price only for 0. */
  lemma PrecisionZeroIff(px: I64)
    requires Prints(px)
    ensures FmtPx(px).Some? && DisplayPx(px, Some(0)).Some? && |FmtPx(px).value| >= 10
    ensures DisplayPx(px, Some(0)).value == FmtPx(px).value[..|FmtPx(px).value| - 10] <==> px == 0
  {
    var abs := Magnitude(px).value;
    FmtIsSignAndMagnitude(px);
    FractionIsFixed(abs);
    CutText(Sign(px), ToDecimal(abs / FIXED_PRICE_SCALE), Fixed(abs % FIXED_PRICE_SCALE, 9), 9);
    DecimalIsInjective(Sign(px), abs, abs / FIXED_PRICE_SCALE);
  }

  /** An integer with a minus sign when it is negative. */
  function ParseInt(s: string): Option<int> {
    if s != [] && s[0] == '-' then
      match ParseDigits(s[1..])
      case Some(n) => Some(-(n as int))
      case None => None
    else
      match ParseDigits(s)
      case Some(n) => Some(n as int)
      case None => None
  }

  /** With a precision of 0 the text is the scaled integer. */
  lemma PrecisionZeroIsScaled(px: I64)
    requires Prints(px)
    ensures DisplayPx(px, Some(0)).Some? && ParseInt(DisplayPx(px, Some(0)).value) == Some(px)
  {
    var n := Magnitude(px).value;
    ParseToDecimal(n);
    DecimalStartsWithDigit(n);
    ParseSignedInt(Sign(px), ToDecimal(n), n);
  }

  lemma ParseSignedInt(sign: string, text: string, n: nat)
    requires sign == "" || sign == "-"
    requires text != [] && text[0] != '-' && ParseDigits(text) == Some(n)
    ensures ParseInt(sign + text) == Some(if sign == "-" then -(n as int) else n as int)
  {
    if sign == "-" {
      assert (sign + text)[1..] == text;
    } else {
      assert sign + text == text;
    }
  }

  /** The null price has one text, whatever the precision, and the smallest price has none. */
  lemma SpecialPrices(p: Option<nat>, px: I64)
    ensures I64_MIN == -0x8000_0000_0000_0000 <= px <= 0x7FFF_FFFF_FFFF_FFFF == UNDEF_PRICE
    ensures DisplayPx(UNDEF_PRICE, p) == Some("UNDEF_PRICE") == FmtPx(UNDEF_PRICE)
    ensures DisplayPx(I64_MIN, p) == None == FmtPx(I64_MIN)
  {
  }

  /** A minus sign exactly for negative prices, digits, a point, and nine digits. */
  ghost predicate HasPriceShape(s: string, negative: bool) {
    && |s| >= (if negative then 12 else 11)
    && (negative ==> s[0] == '-')
    && s[|s| - 10] == '.'
    && forall k :: (if negative then 1 else 0) <= k < |s| && k != |s| - 10 ==> '0' <= s[k] <= '9'
  }

  lemma {:induction false} DecimalIsDigits(n: nat)
    ensures forall k :: 0 <= k < |ToDecimal(n)| ==> '0' <= ToDecimal(n)[k] <= '9'
  {
    if n >= 10 {
      DecimalIsDigits(n / 10);
    }
  }

  lemma {:induction false} FixedIsDigits(n: nat, w: nat)
    ensures forall k :: 0 <= k < w ==> '0' <= Fixed(n, w)[k] <= '9'
  {
    if w > 0 {
      FixedIsDigits(n / 10, w - 1);
    }
  }

  lemma PriceShape(px: I64)
    requires Prints(px)
    ensures FmtPx(px).Some? && HasPriceShape(FmtPx(px).value, px < 0)
  {
    var abs := Magnitude(px).value;
    FmtIsSignAndMagnitude(px);
    FractionIsFixed(abs);
    DecimalIsDigits(abs / FIXED_PRICE_SCALE);
    FixedIsDigits(abs % FIXED_PRICE_SCALE, 9);
    ShapeOfParts(Sign(px), ToDecimal(abs / FIXED_PRICE_SCALE), Fixed(abs % FIXED_PRICE_SCALE, 9));
  }

  lemma ShapeOfParts(sign: string, integer: string, fraction: string)
    requires sign == "" || sign == "-"
    requires integer != [] && |fraction| == 9
    requires forall k :: 0 <= k < |integer| ==> '0' <= integer[k] <= '9'
    requires forall k :: 0 <= k < 9 ==> '0' <= fraction[k] <= '9'
    ensures HasPriceShape(sign + (integer + "." + fraction), sign != "")
  {
  }

  /** The default display, and every precision of nine or more, is the same text. */
  lemma DefaultDisplay(px: I64, p: nat)
    requires p >= 9
    ensures DisplayPx(px, None) == FmtPx(px) && DisplayPx(px, Some(p)) == FmtPx(px)
  {
    if Prints(px) {
      var abs := Magnitude(px).value;
      SignApart(Sign(px), ToDecimal(abs / FIXED_PRICE_SCALE), PadZeros(ToDecimal(abs % FIXED_PRICE_SCALE), 9));
    }
  }

  // ---------- reading prices back ----------

  /** Reads digits, a point and nine digits as a scaled number. */
  function ParseMagnitude(s: string): Option<nat> {
    if |s| < 11 || s[|s| - 10] != '.' then None
    else
      match (ParseDigits(s[..|s| - 10]), ParseDigits(s[|s| - 9..]))
      case (Some(integer), Some(fraction)) => Some(integer * FIXED_PRICE_SCALE + fraction)
      case _ => None
  }

  function ParsePx(s: string): Option<int> {
    if s != [] && s[0] == '-' then
      match ParseMagnitude(s[1..])
      case Some(n) => Some(-(n as int))
      case None => None
    else
      match ParseMagnitude(s)
      case Some(n) => Some(n as int)
      case None => None
  }

  lemma SplitAtPoint(integer: string, fraction: string)
    requires |fraction| == 9
    ensures var s := integer + "." + fraction;
            |s| == |integer| + 10 && s[|s| - 10] == '.' && s[..|s| - 10] == integer && s[|s| - 9..] == fraction
  {
  }

  lemma ParseParts(integer: string, fraction: string, n: nat, d: nat)
    requires integer != [] && |fraction| == 9
    requires ParseDigits(integer) == Some(n) && ParseDigits(fraction) == Some(d)
    ensures ParseMagnitude(integer + "." + fraction) == Some(n * FIXED_PRICE_SCALE + d)
  {
    SplitAtPoint(integer, fraction);
  }

  lemma ParseMagnitudeText(abs: nat)
    ensures ParseMagnitude(MagnitudeText(abs)) == Some(abs)
  {
    var n, d := abs / FIXED_PRICE_SCALE, abs % FIXED_PRICE_SCALE;
    assert n * FIXED_PRICE_SCALE + d == abs;
    FractionIsFixed(abs);
    ParseToDecimal(n);
    ParseParts(ToDecimal(n), Fixed(d, 9), n, d);
    assert MagnitudeText(abs) == ToDecimal(n) + "." + Fixed(d, 9);
  }

  /** Printing can be undone, except for the null price and the price that does not print. */
  lemma ParseUndoesFmt(px: I64)
    ensures FmtPx(px).None? <==> px == I64_MIN
    ensures FmtPx(px).Some? ==> (ParsePx(FmtPx(px).value) == Some(px) <==> Prints(px))
    ensures FmtPx(px).Some? && !Prints(px) ==> ParsePx(FmtPx(px).value) == None
  {
    if Prints(px) {
      var abs := Magnitude(px).value;
      var body := MagnitudeText(abs);
      ParseMagnitudeText(abs);
      TextStartsWithDigit(abs);
      FmtIsSignAndMagnitude(px);
      ParseSigned(px, body);
    } else if px == UNDEF_PRICE {
      UndefIsNoPrice();
    }
  }

  lemma ParseSigned(px: I64, body: string)
    requires px != I64_MIN && body != [] && body[0] != '-' && ParseMagnitude(body) == Magnitude(px)
    ensures ParsePx(Sign(px) + body) == Some(px)
  {
    if px < 0 {
      assert (Sign(px) + body)[1..] == body;
    } else {
      assert Sign(px) + body == body;
    }
  }

  lemma UndefIsNoPrice()
    ensures ParsePx("UNDEF_PRICE") == None
  {
    var text := "UNDEF_PRICE";
    assert |text| == 11 && text[1] == 'N';
  }

  lemma TextStartsWithDigit(abs: nat)
    ensures MagnitudeText(abs) != [] && MagnitudeText(abs)[0] != '-'
  {
    DecimalStartsWithDigit(abs / FIXED_PRICE_SCALE);
    assert MagnitudeText(abs)[0] == ToDecimal(abs / FIXED_PRICE_SCALE)[0];
  }

  /** Distinct prices print distinct texts, the null price included. */
  lemma FmtIsInjective(a: I64, b: I64)
    requires FmtPx(a).Some? && FmtPx(a) == FmtPx(b)
    ensures a == b
  {
    ParseUndoesFmt(a);
    ParseUndoesFmt(b);
  }
}

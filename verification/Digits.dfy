/** Decimal digits: printing, fixed widths and parsing. */
module Digits {
  import opened Common

  function Digit(d: nat): (c: char)
    requires d < 10
    ensures DigitValue(c) == Some(d)
  {
    ['0', '1', '2', '3', '4', '5', '6', '7', '8', '9'][d]
  }

  function DigitValue(c: char): (v: Option<nat>)
    ensures v.Some? ==> v.value < 10
  {
    if '0' <= c <= '9' then Some(c as int - '0' as int) else None
  }

  /** The number that a run of decimal digits denotes. */
  function ParseDigits(s: string): Option<nat> {
    if s == [] then Some(0)
    else
      match (ParseDigits(s[..|s| - 1]), DigitValue(s[|s| - 1]))
      case (Some(n), Some(d)) => Some(10 * n + d)
      case _ => None
  }

  /** The digits are the ten characters from ASCII 48 on, in order. */
  lemma DigitIsAscii(c: char, d: nat)
    ensures DigitValue(c) == Some(d) <==> d < 10 && c as int == 48 + d
    ensures d < 10 ==> Digit(d) as int == 48 + d
  {
  }

  /** The sum of the digits, each times ten for every place behind it. */
  function PlaceValue(s: string): int {
    if s == [] then 0 else (s[0] as int - 48) * Pow10(|s| - 1) + PlaceValue(s[1..])
  }

  lemma {:induction false} PlaceValueSnoc(s: string, c: char)
    ensures PlaceValue(s + [c]) == 10 * PlaceValue(s) + (c as int - 48)
  {
    var all := s + [c];
    if s != [] {
      PlaceValueSnoc(s[1..], c);
      assert all[1..] == s[1..] + [c];
      assert PlaceValue(all) == (s[0] as int - 48) * Pow10(|s|) + PlaceValue(s[1..] + [c]);
      assert Pow10(|s|) == 10 * Pow10(|s| - 1);
      TenFold(s[0] as int - 48, Pow10(|s| - 1));
    } else {
      assert all[1..] == [] && Pow10(0) == 1;
    }
  }

  /** Parsing succeeds exactly on digits, and gives their place value. */
  lemma {:induction false} ParseDigitsIff(s: string, n: nat)
    ensures ParseDigits(s) == Some(n) <==> (forall i :: 0 <= i < |s| ==> 48 <= s[i] as int <= 57) && PlaceValue(s) == n
  {
    if s != [] {
      var init, c := s[..|s| - 1], s[|s| - 1];
      assert s == init + [c];
      PlaceValueSnoc(init, c);
      if ParseDigits(init).Some? {
        ParseDigitsIff(init, ParseDigits(init).value);
      } else if PlaceValue(init) >= 0 {
        ParseDigitsIff(init, PlaceValue(init));
      }
      if forall i :: 0 <= i < |s| ==> 48 <= s[i] as int <= 57 {
        PlaceValueIsNat(init);
      }
    }
  }

  lemma ProductIsNat(a: nat, b: nat)
    ensures a * b >= 0
  {
  }

  lemma TenFold(a: int, p: int)
    ensures a * (10 * p) == 10 * (a * p)
  {
  }

  lemma {:induction false} PlaceValueIsNat(s: string)
    requires forall i :: 0 <= i < |s| ==> 48 <= s[i] as int <= 57
    ensures PlaceValue(s) >= 0
  {
    if s != [] {
      PlaceValueIsNat(s[1..]);
      ProductIsNat(s[0] as int - 48, Pow10(|s| - 1));
    }
  }

  /** The shortest decimal text of a number. */
  function ToDecimal(n: nat): (s: string)
    ensures s != []
  {
    if n < 10 then [Digit(n)] else ToDecimal(n / 10) + [Digit(n % 10)]
  }

  function Pow10(w: nat): (p: nat)
    ensures p > 0
  {
    if w == 0 then 1 else 10 * Pow10(w - 1)
  }

  /** The last `w` digits of a number, leading zeros included. */
  function Fixed(n: nat, w: nat): (s: string)
    ensures |s| == w
  {
    if w == 0 then [] else Fixed(n / 10, w - 1) + [Digit(n % 10)]
  }

  function Zeros(n: nat): (s: string)
    ensures |s| == n
  {
    seq(n, _ => '0')
  }

  /** Text padded with zeros on the left. */
  function PadZeros(s: string, w: nat): string {
    if |s| >= w then s else Zeros(w - |s|) + s
  }

  lemma {:induction false} ParseToDecimal(n: nat)
    ensures ParseDigits(ToDecimal(n)) == Some(n)
  {
    if n < 10 {
      assert [Digit(n)][..0] == [];
    } else {
      ParseToDecimal(n / 10);
      var s := ToDecimal(n);
      assert s[..|s| - 1] == ToDecimal(n / 10);
    }
  }

  lemma {:induction false} ParseFixed(n: nat, w: nat)
    requires n < Pow10(w)
    ensures ParseDigits(Fixed(n, w)) == Some(n)
  {
    if w > 0 {
      ParseFixed(n / 10, w - 1);
      var s := Fixed(n, w);
      assert s[..|s| - 1] == Fixed(n / 10, w - 1);
    }
  }

  /** Parsing succeeds on nothing else: digits are the fixed-width text of their number. */
  lemma {:induction false} ParsedIsFixed(s: string, n: nat)
    requires ParseDigits(s) == Some(n)
    ensures n < Pow10(|s|) && s == Fixed(n, |s|)
  {
    if s != [] {
      var init, c := s[..|s| - 1], s[|s| - 1];
      var m, d := ParseDigits(init).value, DigitValue(c).value;
      ParsedIsFixed(init, m);
      assert n == 10 * m + d && n / 10 == m && n % 10 == d;
      DigitIsAscii(c, d);
      assert s == init + [c];
    }
  }

  lemma {:induction false} DecimalStartsWithDigit(n: nat)
    ensures DigitValue(ToDecimal(n)[0]).Some?
  {
    if n >= 10 {
      DecimalStartsWithDigit(n / 10);
    }
  }

  lemma {:induction false} FixedZero(w: nat)
    ensures Fixed(0, w) == Zeros(w)
  {
    if w > 0 {
      FixedZero(w - 1);
    }
  }

  /** Padding the text of a number that fits is writing it with that many digits. */
  lemma {:induction false} PadIsFixed(n: nat, w: nat)
    requires w > 0 && n < Pow10(w)
    ensures |ToDecimal(n)| <= w && PadZeros(ToDecimal(n), w) == Fixed(n, w)
  {
    if n < 10 {
      FixedZero(w - 1);
      assert PadZeros(ToDecimal(n), w) == Zeros(w - 1) + [Digit(n)];
    } else {
      assert Pow10(0) == 1 && Pow10(1) == 10;
      PadIsFixed(n / 10, w - 1);
      assert Zeros(w - |ToDecimal(n)|) + ToDecimal(n) == Zeros(w - |ToDecimal(n)|) + ToDecimal(n / 10) + [Digit(n % 10)];
    }
  }

  function DropDigits(n: nat, k: nat): nat {
    if k == 0 then n else DropDigits(n / 10, k - 1)
  }

  /** Cutting digits off the text is dropping them from the number. */
  lemma {:induction false} FixedPrefix(n: nat, w: nat, k: nat)
    requires k <= w
    ensures Fixed(n, w)[..w - k] == Fixed(DropDigits(n, k), w - k)
  {
    if k > 0 {
      FixedPrefix(n / 10, w - 1, k - 1);
      assert Fixed(n, w)[..w - k] == Fixed(n / 10, w - 1)[..w - k];
    }
  }

  lemma {:induction false} DropLast(n: nat, k: nat)
    ensures DropDigits(n, k + 1) == DropDigits(n, k) / 10
  {
    if k > 0 {
      DropLast(n / 10, k - 1);
    }
  }

  lemma {:induction false} DropDigitsFits(n: nat, w: nat, k: nat)
    requires k <= w && n < Pow10(w)
    ensures DropDigits(n, k) < Pow10(w - k)
  {
    if k > 0 {
      DropDigitsFits(n / 10, w - 1, k - 1);
    }
  }

  lemma TenTimes(x: nat, b: nat)
    ensures (10 * x + b) / 10 == x + b / 10 && (10 * x + b) % 10 == b % 10
  {
  }

  /** Two texts of fixed width side by side are the text of both numbers put together. */
  lemma {:induction false} FixedSplit(a: nat, b: nat, w: nat, k: nat)
    requires b < Pow10(k)
    ensures Fixed(a * Pow10(k) + b, w + k) == Fixed(a, w) + Fixed(b, k)
  {
    if k > 0 {
      var n, x := a * Pow10(k) + b, a * Pow10(k - 1);
      TenFold(a, Pow10(k - 1));
      TenTimes(x, b);
      FixedSplit(a, b / 10, w, k - 1);
      assert Fixed(n, w + k) == Fixed(n / 10, w + k - 1) + [Digit(n % 10)];
      assert Fixed(b, k) == Fixed(b / 10, k - 1) + [Digit(b % 10)];
      hide Fixed, Digit, Pow10;
      Regroup(Fixed(a, w), Fixed(b / 10, k - 1), [Digit(b % 10)]);
    } else {
      assert Pow10(0) == 1 && Fixed(b, 0) == [];
    }
  }

  lemma FixedSplitAt(a: nat, b: nat, w: nat, k: nat, p: nat)
    requires p == Pow10(k) && b < p
    ensures Fixed(a * p + b, w + k) == Fixed(a, w) + Fixed(b, k)
  {
    FixedSplit(a, b, w, k);
  }
}

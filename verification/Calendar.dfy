/** Calendar dates and their decimal numbers. */
module Calendar {
  import opened Common
  import opened Digits

  /** A date of the proleptic Gregorian calendar. */
  datatype Date = Date(year: nat, month: nat, day: nat)

  predicate IsLeap(year: nat) {
    year % 4 == 0 && (year % 100 != 0 || year % 400 == 0)
  }

  function DaysIn(year: nat, month: nat): nat {
    if month == 2 then (if IsLeap(year) then 29 else 28)
    else if month in {4, 6, 9, 11} then 30
    else 31
  }

  predicate IsDate(d: Date) {
    d.year <= 9999 && 1 <= d.month <= 12 && 1 <= d.day <= DaysIn(d.year, d.month)
  }

  /** `decode_iso8601`: a date written as the decimal number YYYYMMDD. */
  function ParseDate(raw: U32): Option<Date> {
    var d := Date(raw / 10_000, raw % 10_000 / 100, raw % 10_000 % 100);
    if IsDate(d) then Some(d) else None
  }

  function PrintDate(d: Date): U32
    requires IsDate(d)
  {
    d.year * 10_000 + d.month * 100 + d.day
  }

  lemma {:induction false} DateRoundTrips(d: Date)
    requires IsDate(d)
    ensures ParseDate(PrintDate(d)) == Some(d)
  {
    var low := d.month * 100 + d.day;
    assert PrintDate(d) / 10_000 == d.year && PrintDate(d) % 10_000 == low;
    assert low / 100 == d.month && low % 100 == d.day;
  }

  lemma DateIsExact(raw: U32)
    ensures ParseDate(raw).Some? ==> IsDate(ParseDate(raw).value) && PrintDate(ParseDate(raw).value) == raw
  {
  }

  /** The number of a date is written with four digits of the year, two of the month and two of
      the day. */
  lemma DateText(d: Date)
    requires IsDate(d)
    ensures Fixed(PrintDate(d), 8) == Fixed(d.year, 4) + (Fixed(d.month, 2) + Fixed(d.day, 2))
  {
    hide Fixed;
    assert Pow10(2) == 100 && Pow10(4) == 100 * Pow10(2);
    FixedSplitAt(d.month, d.day, 2, 2, 100);
    FixedSplitAt(d.year, d.month * 100 + d.day, 4, 4, 10_000);
  }

  // ---------- which dates there are ----------

  /** The number of a date, counting days, by arithmetic on years that start in March. */
  function DayNumber(d: Date): int {
    YearStart(if d.month <= 2 then d.year - 1 else d.year) + MonthStart(d.month) + d.day
  }

  /** The days before March of a year. */
  function YearStart(y: int): int {
    365 * y + y / 4 - y / 100 + y / 400
  }

  /** The days from the start of March to the start of a month. */
  function MonthStart(month: nat): int {
    (153 * ((month + 9) % 12) + 2) / 5
  }

  /** The day after: the next in the month, or else the first of the following month. */
  function Successor(d: Date): Date {
    if IsDate(d.(day := d.day + 1)) then d.(day := d.day + 1)
    else if d.month < 12 then Date(d.year, d.month + 1, 1)
    else Date(d.year + 1, 1, 1)
  }

  const FIRST: Date := Date(0, 1, 1)

  const LAST: Date := Date(9999, 12, 31)

  lemma DivStep(y: int, k: int)
    requires k in {4, 100, 400}
    ensures y / k - (y - 1) / k == if y % k == 0 then 1 else 0
  {
  }

  lemma CenturyIsFourth(y: int)
    ensures y % 100 == 0 ==> y % 4 == 0
    ensures y % 400 == 0 ==> y % 100 == 0
  {
    if y % 100 == 0 {
      Multiples(25 * (y / 100));
      assert y == 4 * (25 * (y / 100));
    }
    if y % 400 == 0 {
      Multiples(4 * (y / 400));
      assert y == 100 * (4 * (y / 400));
    }
  }

  lemma Multiples(k: int)
    ensures (4 * k) % 4 == 0 && (100 * k) % 100 == 0
  {
  }

  /** From one March to the next there are 365 days, or 366 when a leap day is between. */
  lemma LeapYears(year: nat)
    ensures YearStart(year) - YearStart(year - 1) == if IsLeap(year) then 366 else 365
  {
    DivStep(year, 4);
    DivStep(year, 100);
    DivStep(year, 400);
    CenturyIsFourth(year);
  }

  lemma MonthLength(year: nat, month: nat)
    requires 1 <= month <= 12 && month != 2
    ensures MonthStart(if month == 12 then 1 else month + 1) - MonthStart(month) == DaysIn(year, month)
  {
    MonthStarts();
    hide MonthStart, IsLeap;
    if month <= 4 {
    } else if month <= 8 {
    }
  }

  lemma MonthStarts()
    ensures MonthStart(3) == 0 && MonthStart(4) == 31 && MonthStart(5) == 61 && MonthStart(6) == 92
    ensures MonthStart(7) == 122 && MonthStart(8) == 153 && MonthStart(9) == 184 && MonthStart(10) == 214
    ensures MonthStart(11) == 245 && MonthStart(12) == 275 && MonthStart(1) == 306 && MonthStart(2) == 337
  {
  }

  /** From every date the day after has the next number. */
  lemma SuccessorIsNext(d: Date)
    requires IsDate(d) && d != LAST
    ensures IsDate(Successor(d)) && DayNumber(Successor(d)) == DayNumber(d) + 1
  {
    hide YearStart, MonthStart;
    if d.day == DaysIn(d.year, d.month) {
      if d.month == 2 {
        LeapYears(d.year);
        MonthStarts();
      } else {
        MonthLength(d.year, d.month);
      }
    }
  }

  lemma FourCenturies(y: int)
    ensures YearStart(y + 400) == YearStart(y) + 146_097
  {
    assert (y + 400) / 4 == y / 4 + 100 && (y + 400) / 100 == y / 100 + 4 && (y + 400) / 400 == y / 400 + 1;
  }

  /** Years have 365 or 366 days, and 400 years 146,097. */
  lemma YearLength(year: nat)
    ensures DayNumber(Date(year + 1, 1, 1)) - DayNumber(Date(year, 1, 1)) == if IsLeap(year) then 366 else 365
    ensures DayNumber(Date(year + 400, 1, 1)) - DayNumber(Date(year, 1, 1)) == 146_097
  {
    LeapYears(year);
    FourCenturies(year - 1);
  }

  /** Every number from that of the first to that of the last date is the number of a date. */
  lemma {:induction false} EveryNumberIsADate(n: int) returns (d: Date)
    requires DayNumber(FIRST) <= n <= DayNumber(LAST)
    ensures IsDate(d) && DayNumber(d) == n
    decreases n - DayNumber(FIRST)
  {
    if n == DayNumber(FIRST) {
      return FIRST;
    }
    d := EveryNumberIsADate(n - 1);
    assert d != LAST;
    SuccessorIsNext(d);
    d := Successor(d);
  }
}

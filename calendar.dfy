/**
 * The local calendar date the loans handler reads from its clock, and the two
 * date helpers of loans.js: isoDateOnly (the date as text) and addDays (which
 * moves a Date by whole days through setDate, letting the Date object carry an
 * overflowing day of the month into the following months and years).
 *
 * A Date here is what getFullYear, getMonth() + 1 and getDate return for the
 * clock's instant, in the proleptic Gregorian calendar JavaScript uses. DayNumber
 * counts days from 0000-01-01 and is the reference AddDays is proved against.
 */
module Calendar {
  import opened Wrappers
  import opened JsText

  /** year, month 1..12, day of the month */
  datatype Date = Date(year: int, month: int, day: int)

  predicate IsLeapYear(y: int)
  {
    (y % 4 == 0 && y % 100 != 0) || y % 400 == 0
  }

  function DaysInMonth(y: int, m: int): int
    requires 1 <= m <= 12
  {
    if m == 2 then (if IsLeapYear(y) then 29 else 28)
    else if m == 4 || m == 6 || m == 9 || m == 11 then 30
    else 31
  }

  predicate ValidDate(d: Date)
  {
    1 <= d.month <= 12 && 1 <= d.day <= DaysInMonth(d.year, d.month)
  }

  function YearLength(y: int): int
  {
    if IsLeapYear(y) then 366 else 365
  }

  /** Days of year y that lie before the first day of month m (m == 13: the whole year). */
  function DaysBeforeMonth(y: int, m: int): int
    requires 1 <= m <= 13
  {
    [0, 31, 59, 90, 120, 151, 181, 212, 243, 273, 304, 334, 365][m - 1]
    + (if m > 2 && IsLeapYear(y) then 1 else 0)
  }

  /** Days from 0000-01-01 to the first day of year y (negative before year 0). */
  function DaysBeforeYear(y: int): int
    decreases if y < 0 then -y else y
  {
    if y == 0 then 0
    else if y > 0 then DaysBeforeYear(y - 1) + YearLength(y - 1)
    else DaysBeforeYear(y + 1) - YearLength(y)
  }

  /** Days from 0000-01-01 to d. */
  ghost function DayNumber(d: Date): int
    requires ValidDate(d)
  {
    DaysBeforeYear(d.year) + DaysBeforeMonth(d.year, d.month) + d.day - 1
  }

  lemma MonthSteps(y: int, m: int)
    requires 1 <= m <= 12
    ensures DaysBeforeMonth(y, m + 1) == DaysBeforeMonth(y, m) + DaysInMonth(y, m)
  {
  }

  lemma YearStep(y: int)
    ensures DaysBeforeYear(y + 1) == DaysBeforeYear(y) + YearLength(y)
  {
  }

  /** The calendar day after d: setDate(getDate() + 1). */
  function NextDay(d: Date): (r: Date)
    requires ValidDate(d)
    ensures ValidDate(r) && DayNumber(r) == DayNumber(d) + 1
  {
    if d.day < DaysInMonth(d.year, d.month) then
      Date(d.year, d.month, d.day + 1)
    else if d.month < 12 then
      MonthSteps(d.year, d.month);
      Date(d.year, d.month + 1, 1)
    else
      YearStep(d.year);
      Date(d.year + 1, 1, 1)
  }

  /** addDays(date, n) for n >= 0, read back through the calendar fields. */
  function AddDays(d: Date, n: nat): (r: Date)
    requires ValidDate(d)
    ensures ValidDate(r) && DayNumber(r) == DayNumber(d) + n
    decreases n
  {
    if n == 0 then d else AddDays(NextDay(d), n - 1)
  }

  lemma {:induction false} DaysBeforeYearMonotone(a: int, b: int)
    requires a < b
    ensures DaysBeforeYear(a) + YearLength(a) <= DaysBeforeYear(b)
    decreases b - a
  {
    YearStep(a);
    if a + 1 < b {
      DaysBeforeYearMonotone(a + 1, b);
    }
  }

  /** DayNumber is one-to-one on valid dates, so it determines the date AddDays returns. */
  lemma DayNumberInjective(a: Date, b: Date)
    requires ValidDate(a) && ValidDate(b)
    requires DayNumber(a) == DayNumber(b)
    ensures a == b
  {
    if a.year != b.year {
      if a.year < b.year {
        DaysBeforeYearMonotone(a.year, b.year);
      } else {
        DaysBeforeYearMonotone(b.year, a.year);
      }
      assert false;
    }
  }

  /** The date n days on is pinned down by the day count alone. */
  lemma AddDaysCharacterized(d: Date, n: nat, e: Date)
    requires ValidDate(d) && ValidDate(e)
    ensures AddDays(d, n) == e <==> DayNumber(e) == DayNumber(d) + n
  {
    if DayNumber(e) == DayNumber(d) + n {
      DayNumberInjective(AddDays(d, n), e);
    }
  }

  /** Zero-pads a month or day to two digits: String(x).padStart(2, "0"). */
  function TwoDigits(x: nat): string
  {
    PadStart(DecimalString(x), 2, '0')
  }

  /** isoDateOnly: the year as String() writes it, then the two-digit month and day,
      separated by "-". */
  function IsoDateOnly(d: Date): string
    requires ValidDate(d)
  {
    IntString(d.year) + "-" + TwoDigits(d.month) + "-" + TwoDigits(d.day)
  }

  /** Reads a date written as year "-" month "-" day with two-digit month and day. */
  function ParseIsoDate(s: string): Option<Date>
  {
    if |s| < 7 || s[|s| - 3] != '-' || s[|s| - 6] != '-' then None
    else
      match (ParseInt(s[..|s| - 6]), ParseDigits(s[|s| - 5..|s| - 3]), ParseDigits(s[|s| - 2..]))
      case (Some(y), Some(m), Some(dd)) => Some(Date(y, m, dd))
      case _ => None
  }

  lemma TwoDigitsShape(x: nat)
    requires x < 100
    ensures |TwoDigits(x)| == 2 && ParseDigits(TwoDigits(x)) == Some(x)
  {
    DecimalStringLength(x);
    PaddedDecimalRoundTrip(x, 2);
  }

  lemma IsoFields(y: string, mm: string, dd: string)
    requires |mm| == 2 && |dd| == 2 && y != []
    ensures var s := y + "-" + mm + "-" + dd;
      |s| >= 7 && s[|s| - 3] == '-' && s[|s| - 6] == '-' &&
      s[..|s| - 6] == y && s[|s| - 5..|s| - 3] == mm && s[|s| - 2..] == dd
  {
  }

  /** isoDateOnly loses nothing: the text reads back as the same date. */
  lemma IsoDateOnlyRoundTrip(d: Date)
    requires ValidDate(d)
    ensures ParseIsoDate(IsoDateOnly(d)) == Some(d)
  {
    TwoDigitsShape(d.month);
    TwoDigitsShape(d.day);
    IntStringRoundTrip(d.year);
    IsoFields(IntString(d.year), TwoDigits(d.month), TwoDigits(d.day));
  }

  lemma IsoShapeFields(y: string, mm: string, dd: string)
    requires |y| == 4 && |mm| == 2 && |dd| == 2
    requires AllDigits(y) && AllDigits(mm) && AllDigits(dd)
    ensures var s := y + "-" + mm + "-" + dd;
      |s| == 10 && s[4] == '-' && s[7] == '-' &&
      forall i :: 0 <= i < 10 && i != 4 && i != 7 ==> IsDigit(s[i])
  {
    var s := y + "-" + mm + "-" + dd;
    forall i | 0 <= i < 10 && i != 4 && i != 7 ensures IsDigit(s[i]) {
      if i < 4 { assert s[i] == y[i]; }
      else if i < 7 { assert s[i] == mm[i - 5]; }
      else { assert s[i] == dd[i - 8]; }
    }
  }

  /** For four-digit years the text is exactly YYYY-MM-DD. */
  lemma IsoDateOnlyShape(d: Date)
    requires ValidDate(d) && 1000 <= d.year <= 9999
    ensures var s := IsoDateOnly(d);
      |s| == 10 && s[4] == '-' && s[7] == '-' &&
      forall i :: 0 <= i < 10 && i != 4 && i != 7 ==> IsDigit(s[i])
  {
    DecimalStringLength(d.year);
    TwoDigitsShape(d.month);
    TwoDigitsShape(d.day);
    IsoShapeFields(IntString(d.year), TwoDigits(d.month), TwoDigits(d.day));
  }

  /** Two days on, computed one calendar day at a time. */
  lemma AddTwoDays(d: Date)
    requires ValidDate(d)
    ensures AddDays(d, 2) == NextDay(NextDay(d))
  {
    assert AddDays(d, 2) == AddDays(NextDay(d), 1);
    assert AddDays(NextDay(d), 1) == AddDays(NextDay(NextDay(d)), 0);
  }

  /** A reservation made on the last day of a year or near the end of February is due
      in the next month or year. */
  lemma DueDateExamples()
    ensures AddDays(Date(2025, 12, 31), 2) == Date(2026, 1, 2)
    ensures AddDays(Date(2024, 2, 28), 2) == Date(2024, 3, 1)
    ensures AddDays(Date(2023, 2, 28), 2) == Date(2023, 3, 2)
  {
    AddTwoDays(Date(2025, 12, 31));
    AddTwoDays(Date(2024, 2, 28));
    AddTwoDays(Date(2023, 2, 28));
  }

  /** The seeded loan's start date is what isoDateOnly writes for 7 January 2026. */
  lemma IsoDateExample()
    ensures IsoDateOnly(Date(2026, 1, 7)) == "2026-01-07"
  {
    assert DecimalString(2026) == "2026" by {
      assert DecimalString(2) == "2";
      assert DecimalString(20) == "20";
      assert DecimalString(202) == "202";
    }
    assert TwoDigits(1) == "01" && TwoDigits(7) == "07";
  }
}

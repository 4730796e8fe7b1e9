/** Calendar dates as pandas holds the cleaned `Order_Date` column: parsing
    with the layout `%d-%m-%Y`, chronological order, the day of the week, and
    `strftime('%U')`, the Sunday-based week of the year. */
module Calendar {
  import opened Wrappers
  import Text

  /** A day of the proleptic Gregorian calendar (a timestamp at midnight). */
  datatype Date = Date(year: int, month: int, day: int)

  predicate IsLeapYear(y: int) {
    y % 4 == 0 && (y % 100 != 0 || y % 400 == 0)
  }

  function DaysInYear(y: int): int {
    if IsLeapYear(y) then 366 else 365
  }

  function DaysInMonth(y: int, m: int): (n: int)
    requires 1 <= m <= 12
    ensures 28 <= n <= 31
  {
    if m == 2 then (if IsLeapYear(y) then 29 else 28)
    else if m == 4 || m == 6 || m == 9 || m == 11 then 30
    else 31
  }

  /** A real calendar day in the years Python's `datetime` supports. */
  predicate IsValid(d: Date) {
    1 <= d.year <= 9999 && 1 <= d.month <= 12 && 1 <= d.day <= DaysInMonth(d.year, d.month)
  }

  /** Chronological order: `<` between two timestamps at midnight. */
  predicate Before(a: Date, b: Date) {
    a.year < b.year
    || (a.year == b.year && (a.month < b.month || (a.month == b.month && a.day < b.day)))
  }

  // ---------------------------------------------------------------------------
  // Day of the year and day of the week
  // ---------------------------------------------------------------------------

  /** Days of year `y` that lie before the first day of month `m`. */
  function DaysBeforeMonth(y: int, m: int): (n: nat)
    requires 1 <= m <= 12
  {
    var common :=
      if m == 1 then 0 else if m == 2 then 31 else if m == 3 then 59
      else if m == 4 then 90 else if m == 5 then 120 else if m == 6 then 151
      else if m == 7 then 181 else if m == 8 then 212 else if m == 9 then 243
      else if m == 10 then 273 else if m == 11 then 304 else 334;
    if m > 2 && IsLeapYear(y) then common + 1 else common
  }

  /** The month table agrees with the month lengths: each month starts where
      the previous one ends, and December ends the year. */
  lemma {:induction false} MonthTableConsistent(y: int, m: int)
    requires 1 <= m <= 12
    ensures m < 12 ==> DaysBeforeMonth(y, m + 1) == DaysBeforeMonth(y, m) + DaysInMonth(y, m)
    ensures m == 12 ==> DaysBeforeMonth(y, m) + DaysInMonth(y, m) == DaysInYear(y)
  {
  }

  /** `tm_yday`: the number of days since 1 January of the same year. */
  function DayOfYear(d: Date): (n: nat)
    requires IsValid(d)
    ensures n < DaysInYear(d.year)
    ensures n >= d.day - 1
  {
    MonthTableConsistent(d.year, d.month);
    MonthsBeforeFitYear(d.year, d.month);
    DaysBeforeMonth(d.year, d.month) + d.day - 1
  }

  lemma {:induction false} MonthsBeforeFitYear(y: int, m: int)
    requires 1 <= m <= 12
    ensures DaysBeforeMonth(y, m) + DaysInMonth(y, m) <= DaysInYear(y)
  {
  }

  /** Days from 1 January of year 1 to 1 January of year `y`. */
  function DaysBeforeYear(y: int): int
    requires y >= 1
  {
    var p := y - 1;
    365 * p + p / 4 - p / 100 + p / 400
  }

  /** Days since 1 January of year 1. */
  function Ordinal(d: Date): int
    requires IsValid(d)
  {
    DaysBeforeYear(d.year) + DayOfYear(d)
  }

  /** `tm_wday`: 0 for Sunday up to 6 for Saturday; 1 January of year 1 of the
      proleptic Gregorian calendar was a Monday. */
  function Weekday(d: Date): (w: nat)
    requires IsValid(d)
    ensures w < 7
  {
    (Ordinal(d) + 1) % 7
  }

  /** The day after `d`. */
  function NextDay(d: Date): (e: Date)
    requires IsValid(d) && d != Date(9999, 12, 31)
    ensures IsValid(e) && Before(d, e)
  {
    if d.day < DaysInMonth(d.year, d.month) then Date(d.year, d.month, d.day + 1)
    else if d.month < 12 then Date(d.year, d.month + 1, 1)
    else Date(d.year + 1, 1, 1)
  }

  lemma {:induction false} YearLength(y: int)
    requires y >= 1
    ensures DaysBeforeYear(y + 1) == DaysBeforeYear(y) + DaysInYear(y)
  {
    var p := y - 1;
    assert (p + 1) / 4 == p / 4 + (if y % 4 == 0 then 1 else 0);
    assert (p + 1) / 100 == p / 100 + (if y % 100 == 0 then 1 else 0);
    assert (p + 1) / 400 == p / 400 + (if y % 400 == 0 then 1 else 0);
  }

  /** The next day is one ordinal later, across month and year ends. */
  lemma {:induction false} NextDayOrdinal(d: Date)
    requires IsValid(d) && d != Date(9999, 12, 31)
    ensures Ordinal(NextDay(d)) == Ordinal(d) + 1
  {
    MonthTableConsistent(d.year, d.month);
    if d.day == DaysInMonth(d.year, d.month) && d.month == 12 {
      YearLength(d.year);
    }
  }

  /** The day of the week advances by one each day, Saturday to Sunday. */
  lemma {:induction false} WeekdayOfNextDay(d: Date)
    requires IsValid(d) && d != Date(9999, 12, 31)
    ensures Weekday(NextDay(d)) == (Weekday(d) + 1) % 7
  {
    NextDayOrdinal(d);
    ModAdd(Ordinal(d) + 1, 1);
  }

  lemma {:induction false} ModAdd(x: int, y: int)
    ensures (x + y) % 7 == (x % 7 + y) % 7
  {
    var q := x / 7;
    assert x == 7 * q + x % 7;
    assert x + y == 7 * q + (x % 7 + y);
  }

  /** An anchor: 1 January 2022, the first day of the data's year, was a
      Saturday. */
  lemma {:induction false} NewYear2022IsSaturday()
    ensures Weekday(Date(2022, 1, 1)) == 6
  {
    assert DaysBeforeYear(2022) == 738155;
  }

  // ---------------------------------------------------------------------------
  // strftime('%U')
  // ---------------------------------------------------------------------------

  /** `strftime('%U')` as a number: `(tm_yday + 7 - tm_wday) / 7`. */
  function SundayWeek(d: Date): (w: nat)
    requires IsValid(d)
    ensures w <= 53
  {
    (DayOfYear(d) + 7 - Weekday(d)) / 7
  }

  /** The day of the year of the first Sunday of year `y`. */
  function FirstSunday(y: int): (n: nat)
    requires 1 <= y <= 9999
    ensures n < 7
  {
    (7 - Weekday(Date(y, 1, 1))) % 7
  }

  lemma {:induction false} WeekdayFromNewYear(d: Date)
    requires IsValid(d)
    ensures Weekday(d) == (Weekday(Date(d.year, 1, 1)) + DayOfYear(d)) % 7
  {
    var j := Date(d.year, 1, 1);
    assert Ordinal(d) == Ordinal(j) + DayOfYear(d);
    ModAdd(Ordinal(j) + 1, DayOfYear(d));
  }

  /** The meaning of `%U`: weeks begin on Sunday, the days before the year's
      first Sunday form week 0, and the first Sunday begins week 1. */
  lemma {:induction false} SundayWeekCountsSundays(d: Date)
    requires IsValid(d)
    ensures SundayWeek(d) ==
      if DayOfYear(d) < FirstSunday(d.year) then 0
      else (DayOfYear(d) - FirstSunday(d.year)) / 7 + 1
  {
    WeekdayFromNewYear(d);
    WeekArith(Weekday(Date(d.year, 1, 1)), DayOfYear(d));
  }

  /** Week arithmetic: with the year starting on weekday `w0`, day `yd` of the
      year falls in week 0 before the first Sunday and in week
      `(yd - first Sunday) / 7 + 1` from it on. */
  lemma {:induction false} WeekArith(w0: int, yd: int)
    requires 0 <= w0 < 7 && yd >= 0
    ensures (yd + 7 - (w0 + yd) % 7) / 7
            == if yd < (7 - w0) % 7 then 0 else (yd - (7 - w0) % 7) / 7 + 1
  {
    var q := (w0 + yd) / 7;
    var r := (w0 + yd) % 7;
    assert w0 + yd == 7 * q + r;
    assert yd + 7 - r == 7 * q + 7 - w0;
    if w0 == 0 {
      assert (7 * q + 7) / 7 == q + 1;
    } else if yd < 7 - w0 {
      assert q == 0;
    } else {
      assert yd - (7 - w0) == 7 * (q - 1) + r;
      assert (yd - (7 - w0)) / 7 == q - 1;
      assert (7 * q + 7 - w0) / 7 == q;
    }
  }

  /** `strftime('%U')`: the week number as two zero-padded digits. */
  function WeekText(d: Date): (s: string)
    requires IsValid(d)
    ensures |s| == 2 && Text.IsDigit(s[0]) && Text.IsDigit(s[1])
    ensures 10 * Text.DigitValue(s[0]) + Text.DigitValue(s[1]) == SundayWeek(d)
  {
    TwoDigits(SundayWeek(d))
  }

  /** Week texts sort as their numbers do, so grouping by the text orders the
      weeks chronologically within a year. */
  lemma {:induction false} WeekTextOrder(a: Date, b: Date)
    requires IsValid(a) && IsValid(b)
    ensures Text.Less(WeekText(a), WeekText(b)) <==> SundayWeek(a) < SundayWeek(b)
  {
    TwoDigitsOrder(SundayWeek(a), SundayWeek(b));
  }

  lemma {:induction false} TwoDigitsOrder(m: nat, n: nat)
    requires m < 100 && n < 100
    ensures Text.Less(TwoDigits(m), TwoDigits(n)) <==> m < n
  {
    var s, t := TwoDigits(m), TwoDigits(n);
    assert !Text.Less(s[1..][1..], t[1..][1..]) by {
      assert |s[1..][1..]| == 0;
    }
    assert Text.Less(s[1..], t[1..]) <==> s[1] < t[1];
    assert Text.Less(s, t) <==> s[0] < t[0] || (s[0] == t[0] && s[1] < t[1]);
  }

  // ---------------------------------------------------------------------------
  // pd.to_datetime(text, format='%d-%m-%Y')
  // ---------------------------------------------------------------------------

  /** `%d`, strptime's pattern `3[01]|[12]\d|0[1-9]|[1-9]| [1-9]`, over ASCII
      digits: two digits from 01 to 31, one digit from 1 to 9, or a space and
      one digit from 1 to 9. The pattern's `\d` also matches other Unicode
      decimal digits; those are not read here. */
  function DayField(t: string): Option<int>
  {
    if |t| == 2 && Text.IsDigit(t[0]) && Text.IsDigit(t[1])
       && 1 <= 10 * Text.DigitValue(t[0]) + Text.DigitValue(t[1]) <= 31
    then Some(10 * Text.DigitValue(t[0]) + Text.DigitValue(t[1]))
    else if |t| == 1 && '1' <= t[0] <= '9' then Some(Text.DigitValue(t[0]))
    else if |t| == 2 && t[0] == ' ' && '1' <= t[1] <= '9' then Some(Text.DigitValue(t[1]))
    else None
  }

  /** `%m` as the pattern `1[0-2]|0[1-9]|[1-9]` reads it. */
  function MonthField(t: string): Option<int>
  {
    if |t| == 2 && Text.IsDigit(t[0]) && Text.IsDigit(t[1])
       && 1 <= 10 * Text.DigitValue(t[0]) + Text.DigitValue(t[1]) <= 12
    then Some(10 * Text.DigitValue(t[0]) + Text.DigitValue(t[1]))
    else if |t| == 1 && '1' <= t[0] <= '9' then Some(Text.DigitValue(t[0]))
    else None
  }

  /** `%Y`, the pattern `\d\d\d\d`, over ASCII digits only: the pattern's
      `\d` also matches other Unicode decimal digits; those are not read
      here. */
  function YearField(t: string): Option<int>
  {
    if |t| == 4 && forall i :: 0 <= i < 4 ==> Text.IsDigit(t[i]) then
      Some(1000 * Text.DigitValue(t[0]) + 100 * Text.DigitValue(t[1])
           + 10 * Text.DigitValue(t[2]) + Text.DigitValue(t[3]))
    else None
  }

  /** The layout `%d-%m-%Y` matched against the whole text, then the calendar
      check: `None` where pandas raises `ValueError` (the text does not match,
      or the day does not exist in that month). No field pattern contains
      '-', so the fields are the texts around the first two dashes. */
  function ParseDayMonthYear(s: string): (r: Option<Date>)
    ensures r.Some? ==> IsValid(r.value)
  {
    match Text.Find(s, "-")
    case None => None
    case Some(i) =>
      var rest := s[i + 1..];
      match Text.Find(rest, "-")
      case None => None
      case Some(j) =>
        match (DayField(s[..i]), MonthField(rest[..j]), YearField(rest[j + 1..]))
        case (Some(d), Some(m), Some(y)) =>
          if 1 <= y && d <= DaysInMonth(y, m) then Some(Date(y, m, d)) else None
        case _ => None
  }

  /** The texts pandas turns into `NaT` instead of parsing them. */
  predicate IsNaTText(s: string) {
    s == "NaT" || s == "nat" || s == "NAT" || s == "nan" || s == "NaN" || s == "NAN"
  }

  /** The first and the last midnight a `datetime64[ns]` column can hold. */
  const FirstTimestampDay: Date := Date(1677, 9, 22)
  const LastTimestampDay: Date := Date(2262, 4, 11)

  predicate InTimestampRange(d: Date) {
    !Before(d, FirstTimestampDay) && !Before(LastTimestampDay, d)
  }

  // strftime('%d-%m-%Y'): the partner of ParseDayMonthYear.

  function TwoDigits(n: nat): (s: string)
    requires n < 100
    ensures |s| == 2 && Text.IsDigit(s[0]) && Text.IsDigit(s[1])
    ensures 10 * Text.DigitValue(s[0]) + Text.DigitValue(s[1]) == n
  {
    [Text.DigitChar(n / 10), Text.DigitChar(n % 10)]
  }

  function FourDigits(n: nat): (s: string)
    requires n < 10000
    ensures |s| == 4 && forall i :: 0 <= i < 4 ==> Text.IsDigit(s[i])
  {
    [Text.DigitChar(n / 1000), Text.DigitChar(n / 100 % 10), Text.DigitChar(n / 10 % 10), Text.DigitChar(n % 10)]
  }

  /** `d.strftime('%d-%m-%Y')` for a year written with four digits. */
  function DayMonthYearText(d: Date): string
    requires IsValid(d) && d.year >= 1000
  {
    TwoDigits(d.day) + "-" + TwoDigits(d.month) + "-" + FourDigits(d.year)
  }

  /** Parsing the formatted date gives the date back. */
  lemma {:induction false} ParseFormattedDate(d: Date)
    requires IsValid(d) && d.year >= 1000
    ensures ParseDayMonthYear(DayMonthYearText(d)) == Some(d)
  {
    var dd, mm, yy := TwoDigits(d.day), TwoDigits(d.month), FourDigits(d.year);
    var rest := mm + "-" + yy;
    var s := DayMonthYearText(d);
    assert s == dd + "-" + rest;
    FirstDashAfterTwo(dd, rest);
    FirstDashAfterTwo(mm, yy);
    assert s[3..] == rest;
    assert DayField(dd) == Some(d.day);
    assert MonthField(mm) == Some(d.month);
    FourDigitsRead(d.year);
  }

  lemma {:induction false} FirstDashAfterTwo(a: string, b: string)
    requires |a| == 2 && Text.IsDigit(a[0]) && Text.IsDigit(a[1])
    ensures Text.Find(a + "-" + b, "-") == Some(2)
    ensures (a + "-" + b)[..2] == a && (a + "-" + b)[3..] == b
  {
    var s := a + "-" + b;
    assert s[2..][..1] == "-";
    assert Text.Find(s[2..], "-") == Some(0);
    assert s[1..][1..] == s[2..] && s[1..][..1] == [a[1]];
    assert Text.Find(s[1..], "-") == Some(1);
    assert s[..1] == [a[0]];
  }

  lemma {:induction false} FourDigitsRead(n: nat)
    requires 1000 <= n < 10000
    ensures YearField(FourDigits(n)) == Some(n)
  {
    var t := FourDigits(n);
    assert n == 10 * (n / 10) + n % 10;
    assert n / 10 == 10 * (n / 100) + n / 10 % 10;
    assert n / 100 == 10 * (n / 1000) + n / 100 % 10;
    assert Text.DigitValue(t[0]) == n / 1000 && Text.DigitValue(t[1]) == n / 100 % 10;
    assert Text.DigitValue(t[2]) == n / 10 % 10 && Text.DigitValue(t[3]) == n % 10;
  }

  /** An example from the data: 19-03-2022 is read as 19 March 2022. */
  lemma {:induction false} ParseExampleDate()
    ensures ParseDayMonthYear("19-03-2022") == Some(Date(2022, 3, 19))
  {
    ParseFormattedDate(Date(2022, 3, 19));
    assert DayMonthYearText(Date(2022, 3, 19)) == "19-03-2022";
  }
}

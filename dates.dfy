/** Calendar dates as the dashboards see them: texts `DD/MM/YYYY` read by
    `pd.to_datetime(..., format='%d/%m/%Y', errors='coerce')`, written back by
    `strftime('%d/%m/%Y')`, compared with the clock, and labelled by month
    with `strftime('%B/%Y')`. */
module Dates {
  import opened Wrappers
  import opened Strings

  datatype Date = Date(day: int, month: int, year: int)

  /** The Gregorian leap-year rule. */
  predicate IsLeapYear(year: int)
  {
    year % 4 == 0 && (year % 100 != 0 || year % 400 == 0)
  }

  function DaysInMonth(month: int, year: int): (n: int)
    requires 1 <= month <= 12
    ensures 28 <= n <= 31
    ensures n == 29 <==> month == 2 && IsLeapYear(year)
  {
    if month == 2 then (if IsLeapYear(year) then 29 else 28)
    else if month == 4 || month == 6 || month == 9 || month == 11 then 30
    else 31
  }

  /** Calendar order: by year, then by month, then by day. */
  predicate Before(a: Date, b: Date)
  {
    a.year < b.year ||
    (a.year == b.year && (a.month < b.month || (a.month == b.month && a.day < b.day)))
  }

  predicate NotAfter(a: Date, b: Date)
  {
    a == b || Before(a, b)
  }

  /** The first and the last day whose midnight a pandas `Timestamp`
      (nanoseconds in a signed 64-bit integer) can hold; a date outside this
      range is coerced to `NaT`. */
  const FirstTimestampDay := Date(22, 9, 1677)
  const LastTimestampDay := Date(11, 4, 2262)

  predicate IsCalendarDate(d: Date)
  {
    1 <= d.month <= 12 && 1 <= d.day <= DaysInMonth(d.month, d.year)
  }

  /** A date that `to_datetime` can produce. */
  predicate Valid(d: Date)
  {
    IsCalendarDate(d) && NotAfter(FirstTimestampDay, d) && NotAfter(d, LastTimestampDay)
  }

  /** The pieces of a text between its `/` separators, as `s.split('/')`. */
  function Fields(s: string): (r: seq<string>)
    ensures |r| > 0
    ensures '/' !in s ==> r == [s]
    decreases |s|
  {
    if '/' in s then
      var k := IndexOf(s, '/');
      [s[..k]] + Fields(s[k + 1..])
    else [s]
  }

  /** A day or month field: one or two digits. */
  predicate ShortField(f: string)
  {
    1 <= |f| <= 2 && AllDigits(f)
  }

  /** A `%Y` field: four digits. */
  predicate YearField(f: string)
  {
    |f| == 4 && AllDigits(f)
  }

  /** `to_datetime(text, format='%d/%m/%Y', errors='coerce')` on a text: the
      date if the text is a day of one or two digits, a month of one or two
      digits and a year of four digits separated by `/`, naming a real day
      that a `Timestamp` can hold; `None` (for `NaT`) otherwise. */
  function ParseDate(s: string): (r: Option<Date>)
    ensures r.Some? ==> Valid(r.value)
  {
    var f := Fields(s);
    if |f| == 3 && ShortField(f[0]) && ShortField(f[1]) && YearField(f[2]) then
      var d := Date(DigitsValue(f[0]), DigitsValue(f[1]), DigitsValue(f[2]));
      if Valid(d) then Some(d) else None
    else None
  }

  /** A date a `Timestamp` column can hold. */
  type Day = d: Date | Valid(d) witness Date(1, 1, 2000)

  /** A cell of a date column: a missing cell is `NaT` too. */
  function ParseDateCell(c: Option<string>): (r: Option<Day>)
    ensures c.None? ==> r.None?
    ensures c.Some? ==> (r.Some? <==> ParseDate(c.value).Some?)
    ensures r.Some? ==> Some(r.value) == ParseDate(c.value)
  {
    if c.Some? then
      var d := ParseDate(c.value);
      if d.Some? then Some(d.value) else None
    else None
  }

  /** `strftime('%d/%m/%Y')`: day and month on two digits, year on four. */
  function FormatDate(d: Date): string
    requires Valid(d)
  {
    FixedDigits(d.day, 2) + "/" + FixedDigits(d.month, 2) + "/" + FixedDigits(d.year, 4)
  }

  /** A first field without `/` is split off at the first separator. */
  lemma FieldsCons(a: string, rest: string)
    requires '/' !in a
    ensures Fields(a + "/" + rest) == [a] + Fields(rest)
  {
    var s := a + "/" + rest;
    assert s == a + ("/" + rest);
    IndexOfAfterPrefix(a, "/" + rest, '/');
    assert s[..|a|] == a;
    assert s[|a| + 1..] == rest;
  }

  lemma FieldsOfThree(a: string, b: string, c: string)
    requires '/' !in a && '/' !in b && '/' !in c
    ensures Fields(a + "/" + b + "/" + c) == [a, b, c]
  {
    var bc := b + "/" + c;
    assert Fields(bc) == [b, c] by {
      FieldsCons(b, c);
    }
    assert a + "/" + b + "/" + c == a + "/" + bc;
    FieldsCons(a, bc);
  }

  lemma DigitsHaveNoSlash(s: string)
    requires AllDigits(s)
    ensures '/' !in s
  {
  }

  /** Round trip: the text `strftime('%d/%m/%Y')` writes is read back by
      `to_datetime(..., format='%d/%m/%Y')` as the same date. */
  lemma {:induction false} ParseFormattedDate(d: Date)
    requires Valid(d)
    ensures ParseDate(FormatDate(d)) == Some(d)
  {
    var a, b, c := FixedDigits(d.day, 2), FixedDigits(d.month, 2), FixedDigits(d.year, 4);
    DigitsHaveNoSlash(a);
    DigitsHaveNoSlash(b);
    DigitsHaveNoSlash(c);
    FieldsOfThree(a, b, c);
    ParseDateFields(FormatDate(d), a, b, c, d);
  }

  lemma ParseDateFields(s: string, a: string, b: string, c: string, d: Date)
    requires Fields(s) == [a, b, c]
    requires ShortField(a) && ShortField(b) && YearField(c)
    requires d == Date(DigitsValue(a), DigitsValue(b), DigitsValue(c)) && Valid(d)
    ensures ParseDate(s) == Some(d)
  {
  }

  /** The name `%B` writes for month `j + 1` in the English (C) locale. */
  function MonthName(j: nat): string
    requires j < 12
  {
    match j
    case 0 => "January"
    case 1 => "February"
    case 2 => "March"
    case 3 => "April"
    case 4 => "May"
    case 5 => "June"
    case 6 => "July"
    case 7 => "August"
    case 8 => "September"
    case 9 => "October"
    case 10 => "November"
    case 11 => "December"
  }

  /** `strftime('%B/%Y')` in the English locale: the month's name, `/`, and
      the year on four digits. */
  function MonthYear(d: Date): string
    requires Valid(d)
  {
    MonthName(d.month - 1) + "/" + FixedDigits(d.year, 4)
  }

  /** An instant of the clock: a day and the seconds elapsed since its
      midnight. */
  datatype Moment = Moment(date: Date, seconds: real)

  predicate ValidMoment(now: Moment)
  {
    Valid(now.date) && 0.0 <= now.seconds < 86400.0
  }

  /** `Timestamp(day) > now`: the midnight that starts `day` comes after the
      instant `now`. */
  predicate MidnightAfter(day: Date, now: Moment)
  {
    Before(now.date, day) || (day == now.date && 0.0 > now.seconds)
  }
}

/**
 * The part of JavaScript's `Date` that the components use, on integer milliseconds:
 * the multi-argument constructor `new Date(y, m, d, h, min, ...)` with its month and day
 * overflow, the validity check (`isNaN(getTime())`) and `setMonth(getMonth() - 1)`.
 * Local time is taken to be UTC (no time zone, no daylight saving).  NaN is `None`.
 */
module JsDate {
  import opened Wrappers

  const MsPerMinute: int := 60000
  const MsPerHour: int := 3600000
  const MsPerDay: int := 86400000
  /** A time value further than 10^8 days from the epoch is NaN (section 21.4.1.1 of ECMA-262). */
  const MaxTimeValue: int := 8_640_000_000_000_000
  const MaxDays: int := 100_000_000

  type Num = Option<int>

  // ---------------------------------------------------------------------------
  // The proleptic Gregorian calendar. Months are numbered 0..11 as in JavaScript.

  predicate IsLeapYear(y: int) {
    y % 4 == 0 && (y % 100 != 0 || y % 400 == 0)
  }

  function DaysInYear(y: int): int {
    if IsLeapYear(y) then 366 else 365
  }

  function DaysInMonth(y: int, mo: int): (n: int)
    requires 0 <= mo < 12
    ensures 28 <= n <= 31
  {
    if mo == 1 then (if IsLeapYear(y) then 29 else 28)
    else if mo == 3 || mo == 5 || mo == 8 || mo == 10 then 30
    else 31
  }

  /** Days of year `y` before the first of month `mo`; month 12 stands for the next year. */
  function MonthStart(y: int, mo: int): int
    requires 0 <= mo <= 12
  {
    if mo == 0 then 0 else MonthStart(y, mo - 1) + DaysInMonth(y, mo - 1)
  }

  /** The twelve months fill the year. */
  lemma MonthStartStep(y: int, mo: int)
    requires 0 <= mo < 12
    ensures MonthStart(y, mo + 1) == MonthStart(y, mo) + DaysInMonth(y, mo)
    ensures MonthStart(y, 12) == DaysInYear(y)
  {
    var leap := if IsLeapYear(y) then 1 else 0;
    assert MonthStart(y, 1) == 31;
    assert MonthStart(y, 2) == 59 + leap;
    assert MonthStart(y, 3) == 90 + leap;
    assert MonthStart(y, 4) == 120 + leap;
    assert MonthStart(y, 5) == 151 + leap;
    assert MonthStart(y, 6) == 181 + leap;
    assert MonthStart(y, 7) == 212 + leap;
    assert MonthStart(y, 8) == 243 + leap;
    assert MonthStart(y, 9) == 273 + leap;
    assert MonthStart(y, 10) == 304 + leap;
    assert MonthStart(y, 11) == 334 + leap;
    assert MonthStart(y, 12) == 365 + leap;
  }

  lemma {:induction false} MonthStartMonotone(y: int, a: int, b: int)
    requires 0 <= a <= b <= 12
    ensures MonthStart(y, a) <= MonthStart(y, b)
    ensures a < b ==> MonthStart(y, a) + DaysInMonth(y, a) <= MonthStart(y, b)
    decreases b - a
  {
    if a < b {
      MonthStartMonotone(y, a, b - 1);
    }
  }

  /** Day number (days since 1970-01-01) of the first day of year `y`. */
  function DayFromYear(y: int): int
    decreases if y < 1970 then 1970 - y else y - 1970
  {
    if y == 1970 then 0
    else if y > 1970 then DayFromYear(y - 1) + DaysInYear(y - 1)
    else DayFromYear(y + 1) - DaysInYear(y)
  }

  lemma DayFromYearStep(y: int)
    ensures DayFromYear(y + 1) == DayFromYear(y) + DaysInYear(y)
  {
  }

  /** Between the starts of two years lie 365 or 366 days per year. */
  lemma {:induction false} DayFromYearBounds(a: int, b: int)
    requires a <= b
    ensures DayFromYear(a) + 365 * (b - a) <= DayFromYear(b) <= DayFromYear(a) + 366 * (b - a)
    decreases b - a
  {
    if a < b {
      DayFromYearBounds(a, b - 1);
      DayFromYearStep(b - 1);
    }
  }

  /**
   * MakeDay of ECMA-262: the day number of day `date` of month `month` of `year`, where a
   * month outside 0..11 moves into a neighbouring year and a day outside the month moves
   * into a neighbouring month.
   */
  function MakeDay(year: int, month: int, date: int): int {
    var ym := year + month / 12;
    var mn := month % 12;
    DayFromYear(ym) + MonthStart(ym, mn) + date - 1
  }

  /** Within a year, MakeDay is the year's first day plus the days before the month. */
  lemma MakeDayInYear(y: int, mo: int, d: int)
    requires 0 <= mo < 12
    ensures MakeDay(y, mo, d) == DayFromYear(y) + MonthStart(y, mo) + d - 1
  {
    assert mo / 12 == 0 && mo % 12 == mo;
  }

  /** A calendar date as the `Date` getters report it. */
  datatype Civil = Civil(year: int, month: int, day: int)

  predicate ValidCivil(c: Civil) {
    0 <= c.month < 12 && 1 <= c.day <= DaysInMonth(c.year, c.month)
  }

  function DayOf(c: Civil): int {
    MakeDay(c.year, c.month, c.day)
  }

  /** Day `d` of a month is day `d` plus the previous month's length of the previous month. */
  lemma MakeDayBorrow(y: int, mo: int, d: int)
    requires 0 <= mo < 12
    ensures mo == 0 ==> MakeDay(y, mo, d) == MakeDay(y - 1, 11, d + DaysInMonth(y - 1, 11))
    ensures mo > 0 ==> MakeDay(y, mo, d) == MakeDay(y, mo - 1, d + DaysInMonth(y, mo - 1))
  {
    MakeDayInYear(y, mo, d);
    if mo == 0 {
      DayFromYearStep(y - 1);
      MonthStartStep(y - 1, 11);
      MakeDayInYear(y - 1, 11, d + DaysInMonth(y - 1, 11));
    } else {
      MonthStartStep(y, mo - 1);
      MakeDayInYear(y, mo - 1, d + DaysInMonth(y, mo - 1));
    }
  }

  /** Day `d` of a month is day `d` minus this month's length of the next month. */
  lemma MakeDayCarry(y: int, mo: int, d: int)
    requires 0 <= mo < 12
    ensures mo == 11 ==> MakeDay(y, mo, d) == MakeDay(y + 1, 0, d - DaysInMonth(y, mo))
    ensures mo < 11 ==> MakeDay(y, mo, d) == MakeDay(y, mo + 1, d - DaysInMonth(y, mo))
  {
    MakeDayInYear(y, mo, d);
    MonthStartStep(y, mo);
    if mo == 11 {
      DayFromYearStep(y);
      MakeDayInYear(y + 1, 0, d - DaysInMonth(y, mo));
    } else {
      MakeDayInYear(y, mo + 1, d - DaysInMonth(y, mo));
    }
  }

  /** Moves an overflowing day into the month it falls in, one month at a time. */
  function Normalize(y: int, mo: int, d: int): (c: Civil)
    requires 0 <= mo < 12
    ensures ValidCivil(c) && DayOf(c) == MakeDay(y, mo, d)
    decreases if d < 1 then 1 else 0, if d < 1 then -d else d
  {
    if d < 1 then
      MakeDayBorrow(y, mo, d);
      if mo == 0 then Normalize(y - 1, 11, d + DaysInMonth(y - 1, 11))
      else Normalize(y, mo - 1, d + DaysInMonth(y, mo - 1))
    else if d > DaysInMonth(y, mo) then
      MakeDayCarry(y, mo, d);
      if mo == 11 then Normalize(y + 1, 0, d - DaysInMonth(y, mo))
      else Normalize(y, mo + 1, d - DaysInMonth(y, mo))
    else
      Civil(y, mo, d)
  }

  /** The calendar date of a day number (YearFromTime, MonthFromTime, DateFromTime). */
  function CivilFromDays(z: int): (c: Civil)
    ensures ValidCivil(c) && DayOf(c) == z
  {
    MakeDayInYear(1970, 0, z + 1);
    Normalize(1970, 0, z + 1)
  }

  /** A valid date lies inside its year. */
  lemma DayOfInYear(c: Civil)
    requires ValidCivil(c)
    ensures DayFromYear(c.year) <= DayOf(c) < DayFromYear(c.year + 1)
  {
    MakeDayInYear(c.year, c.month, c.day);
    MonthStartStep(c.year, c.month);
    MonthStartMonotone(c.year, 0, c.month);
    MonthStartMonotone(c.year, c.month + 1, 12);
    DayFromYearStep(c.year);
  }

  /** Distinct valid dates have distinct day numbers. */
  lemma CivilUnique(a: Civil, b: Civil)
    requires ValidCivil(a) && ValidCivil(b) && DayOf(a) == DayOf(b)
    ensures a == b
  {
    DayOfInYear(a);
    DayOfInYear(b);
    MakeDayInYear(a.year, a.month, a.day);
    MakeDayInYear(b.year, b.month, b.day);
    if a.year < b.year {
      DayFromYearBounds(a.year + 1, b.year);
    } else if b.year < a.year {
      DayFromYearBounds(b.year + 1, a.year);
    }
    assert a.year == b.year;
    if a.month < b.month {
      MonthStartMonotone(a.year, a.month, b.month);
    } else if b.month < a.month {
      MonthStartMonotone(a.year, b.month, a.month);
    }
  }

  /** `CivilFromDays` reads back the date a valid `Civil` names. */
  lemma CivilFromDaysOf(c: Civil)
    requires ValidCivil(c)
    ensures CivilFromDays(DayOf(c)) == c
  {
    CivilUnique(CivilFromDays(DayOf(c)), c);
  }

  /** Moving the month by one through MakeDay does not depend on how the month is written. */
  lemma MakeDayPreviousMonth(year: int, month: int, date: int)
    ensures MakeDay(year, month - 1, date) == MakeDay(year + month / 12, month % 12 - 1, date)
  {
    var q, r := month / 12, month % 12;
    assert month == 12 * q + r && 0 <= r < 12;
    if r >= 1 {
      assert (month - 1) / 12 == q && (month - 1) % 12 == r - 1;
      assert (r - 1) / 12 == 0 && (r - 1) % 12 == r - 1;
    } else {
      assert (month - 1) / 12 == q - 1 && (month - 1) % 12 == 11;
      assert (r - 1) / 12 == -1 && (r - 1) % 12 == 11;
    }
  }

  // ---------------------------------------------------------------------------
  // Time values.

  /** The constructor reads a year 0..99 as 1900..1999. */
  function YearArg(y: int): int {
    if 0 <= y <= 99 then 1900 + y else y
  }

  function MakeTime(h: int, min: int, s: int, ms: int): int {
    h * MsPerHour + min * MsPerMinute + s * 1000 + ms
  }

  /** TimeClip: NaN outside the representable range. */
  function TimeClip(t: int): (r: Num)
    ensures r.Some? <==> -MaxTimeValue <= t <= MaxTimeValue
    ensures r.Some? ==> r.value == t
  {
    if -MaxTimeValue <= t <= MaxTimeValue then Some(t) else None
  }

  /** The time value of millisecond `ms` of day number `day`. */
  function TimeValue(day: int, ms: int): int {
    day * MsPerDay + ms
  }

  /** Moving the day moves the time value by whole days. */
  lemma TimeValueShift(day: int, days: int, ms: int)
    ensures TimeValue(day + days, ms) == TimeValue(day, ms) + days * MsPerDay
  {
  }

  /** `new Date(y, mo, d, h, min, s, ms)`: NaN when any argument is NaN or the result is out of range. */
  function NewDate(y: Num, mo: Num, d: Num, h: Num, min: Num, s: Num, ms: Num): Num {
    if y.None? || mo.None? || d.None? || h.None? || min.None? || s.None? || ms.None? then None
    else TimeClip(TimeValue(MakeDay(YearArg(y.value), mo.value, d.value),
                            MakeTime(h.value, min.value, s.value, ms.value)))
  }

  function ArgOr(args: seq<Num>, i: nat, default: int): Num {
    if i < |args| then args[i] else Some(default)
  }

  /** `new Date(...args)` with at least two arguments; missing ones default as in ECMA-262. */
  function NewDateFromArgs(args: seq<Num>): Num
    requires |args| >= 2
  {
    NewDate(args[0], args[1], ArgOr(args, 2, 1), ArgOr(args, 3, 0), ArgOr(args, 4, 0),
            ArgOr(args, 5, 0), ArgOr(args, 6, 0))
  }

  /** `date.setMonth(date.getMonth() - 1)`: same day of month and time of day, one month earlier. */
  function SetMonthBack(t: Num): Num {
    match t
    case None => None
    case Some(v) =>
      var c := CivilFromDays(v / MsPerDay);
      TimeClip(TimeValue(MakeDay(c.year, c.month - 1, c.day), v % MsPerDay))
  }

  /** A day within 10^8 days of the epoch, at any time of that day, is a valid time value. */
  lemma DayInRange(z: int, r: int)
    requires -MaxDays < z < MaxDays && 0 <= r < MsPerDay
    ensures TimeClip(TimeValue(z, r)) == Some(TimeValue(z, r))
  {
  }

  lemma DayAndTime(z: int, r: int)
    requires 0 <= r < MsPerDay
    ensures TimeValue(z, r) / MsPerDay == z && TimeValue(z, r) % MsPerDay == r
  {
  }

  /**
   * The constructor names the calendar date and time it was given: for a real date in a
   * four-digit-or-longer year and a time of day, the getters read back exactly those fields.
   */
  lemma NewDateFields(y: int, mo: int, d: int, h: int, min: int)
    requires ValidCivil(Civil(y, mo, d)) && !(0 <= y <= 99)
    requires 0 <= h < 24 && 0 <= min < 60
    requires -MaxDays < MakeDay(y, mo, d) < MaxDays
    ensures NewDate(Some(y), Some(mo), Some(d), Some(h), Some(min), Some(0), Some(0))
            == Some(TimeValue(MakeDay(y, mo, d), MakeTime(h, min, 0, 0)))
    ensures var t := NewDate(Some(y), Some(mo), Some(d), Some(h), Some(min), Some(0), Some(0)).value;
            CivilFromDays(t / MsPerDay) == Civil(y, mo, d) && t % MsPerDay == h * MsPerHour + min * MsPerMinute
  {
    var z, tod := MakeDay(y, mo, d), MakeTime(h, min, 0, 0);
    assert 0 <= tod < MsPerDay;
    assert YearArg(y) == y;
    var t := TimeValue(z, tod);
    DayInRange(z, tod);
    assert NewDate(Some(y), Some(mo), Some(d), Some(h), Some(min), Some(0), Some(0)) == Some(t);
    DayAndTime(z, tod);
    CivilFromDaysOf(Civil(y, mo, d));
  }
}

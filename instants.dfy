/**
 * The two ways the components turn a stored `YYYY-MM-DD` date and `HH:MM` time into an
 * instant.
 *
 * The record form spreads the split parts into the constructor, reading the calendar month as
 * a zero-based month, and then moves the result back by one month with `setMonth`
 * (components/NewRecordForm.tsx:43-48). The alert sweep subtracts one from the month before
 * constructing (components/MaintenanceAlert.tsx:23-25). The two agree on every real date
 * except when the day does not exist in the following calendar month (the 31st of January,
 * say): the form's constructor then overflows into the month after, and moving back one month
 * lands a few days late.
 */
module Instants {
  import opened Wrappers
  import opened TextUtil
  import opened JsDate

  /** `parts.map(Number)`. */
  function Numbers(parts: seq<string>): seq<Num> {
    seq(|parts|, i requires 0 <= i < |parts| => JsNumber(parts[i]))
  }

  /** An element of a destructured array; a missing one is `undefined`, which is NaN in arithmetic. */
  function Part(xs: seq<Num>, i: nat): Num {
    if i < |xs| then xs[i] else None
  }

  /** `m - 1`. */
  function Pred(x: Num): Num {
    match x
    case None => None
    case Some(v) => Some(v - 1)
  }

  /** The record form's instant from the numbers of the date and of the time, as written. */
  function FormInstantFrom(ds: seq<Num>, ts: seq<Num>): Num
    requires |ds| >= 1 && |ts| >= 1
  {
    SetMonthBack(NewDateFromArgs(ds + ts))
  }

  /** The alert sweep's instant from the numbers of the date and of the time: `new Date(y, m - 1, d, h, min)`. */
  function AlertInstantFrom(ds: seq<Num>, ts: seq<Num>): Num {
    NewDate(Part(ds, 0), Pred(Part(ds, 1)), Part(ds, 2), Part(ts, 0), Part(ts, 1), Some(0), Some(0))
  }

  function FormInstant(date: string, time: string): Num {
    FormInstantFrom(Numbers(Split(date, '-')), Numbers(Split(time, ':')))
  }

  function AlertInstant(date: string, time: string): Num {
    AlertInstantFrom(Numbers(Split(date, '-')), Numbers(Split(time, ':')))
  }

  /** The form's instant for numeric fields. */
  function FormInstantOf(y: int, m: int, d: int, h: int, min: int): Num {
    FormInstantFrom([Some(y), Some(m), Some(d)], [Some(h), Some(min)])
  }

  /** The alert's instant for numeric fields. */
  function AlertInstantOf(y: int, m: int, d: int, h: int, min: int): Num {
    AlertInstantFrom([Some(y), Some(m), Some(d)], [Some(h), Some(min)])
  }

  /** With numeric fields, the form constructs from the calendar month and then steps back one month. */
  lemma FormInstantOfIs(y: int, m: int, d: int, h: int, min: int)
    ensures FormInstantOf(y, m, d, h, min)
            == SetMonthBack(NewDate(Some(y), Some(m), Some(d), Some(h), Some(min), Some(0), Some(0)))
  {
    var args := [Some(y), Some(m), Some(d)] + [Some(h), Some(min)];
    assert args == [Some(y), Some(m), Some(d), Some(h), Some(min)];
  }

  /** With numeric fields, the alert constructs from the month minus one. */
  lemma AlertInstantOfIs(y: int, m: int, d: int, h: int, min: int)
    ensures AlertInstantOf(y, m, d, h, min)
            == NewDate(Some(y), Some(m - 1), Some(d), Some(h), Some(min), Some(0), Some(0))
  {
  }

  lemma {:induction false} DigitsExclude(s: string, c: char)
    requires AllDigits(s) && !IsDigit(c)
    ensures c !in s
  {
  }

  lemma {:induction false} SplitTwo(a: string, b: string, sep: char)
    requires sep !in a && sep !in b
    ensures Split(a + [sep] + b, sep) == [a, b]
  {
    SplitAfterPiece(a, sep, b);
    SplitNoSeparator(b, sep);
  }

  lemma {:induction false} SplitThree(a: string, b: string, c: string, sep: char)
    requires sep !in a && sep !in b && sep !in c
    ensures Split(a + [sep] + b + [sep] + c, sep) == [a, b, c]
  {
    SplitTwo(b, c, sep);
    SplitAfterPiece(a, sep, b + [sep] + c);
    assert a + [sep] + b + [sep] + c == a + [sep] + (b + [sep] + c);
  }

  /** A date written `Y-M-D` in digits splits into its three numbers. */
  lemma {:induction false} DateFieldsOfDigits(ys: string, ms: string, ds: string)
    requires AllDigits(ys) && AllDigits(ms) && AllDigits(ds)
    ensures Numbers(Split(ys + "-" + ms + "-" + ds, '-'))
            == [Some(DigitsValue(ys)), Some(DigitsValue(ms)), Some(DigitsValue(ds))]
  {
    DigitsExclude(ys, '-');
    DigitsExclude(ms, '-');
    DigitsExclude(ds, '-');
    SplitThree(ys, ms, ds, '-');
  }

  /** A time written `H:MIN` in digits splits into its two numbers. */
  lemma {:induction false} TimeFieldsOfDigits(hs: string, mins: string)
    requires AllDigits(hs) && AllDigits(mins)
    ensures Numbers(Split(hs + ":" + mins, ':')) == [Some(DigitsValue(hs)), Some(DigitsValue(mins))]
  {
    DigitsExclude(hs, ':');
    DigitsExclude(mins, ':');
    SplitTwo(hs, mins, ':');
  }

  /** On digit fields written `Y-M-D` and `H:MIN`, the form sees exactly the numbers written. */
  lemma {:induction false} FormInstantOfDigits(ys: string, ms: string, ds: string, hs: string, mins: string)
    requires AllDigits(ys) && AllDigits(ms) && AllDigits(ds) && AllDigits(hs) && AllDigits(mins)
    ensures FormInstant(ys + "-" + ms + "-" + ds, hs + ":" + mins)
            == FormInstantOf(DigitsValue(ys), DigitsValue(ms), DigitsValue(ds), DigitsValue(hs), DigitsValue(mins))
  {
    DateFieldsOfDigits(ys, ms, ds);
    TimeFieldsOfDigits(hs, mins);
    var dn := [Some(DigitsValue(ys)), Some(DigitsValue(ms)), Some(DigitsValue(ds))];
    var tn := [Some(DigitsValue(hs)), Some(DigitsValue(mins))];
    assert FormInstant(ys + "-" + ms + "-" + ds, hs + ":" + mins) == FormInstantFrom(dn, tn);
  }

  /** On digit fields written `Y-M-D` and `H:MIN`, the alert sees exactly the numbers written. */
  lemma {:induction false} AlertInstantOfDigits(ys: string, ms: string, ds: string, hs: string, mins: string)
    requires AllDigits(ys) && AllDigits(ms) && AllDigits(ds) && AllDigits(hs) && AllDigits(mins)
    ensures AlertInstant(ys + "-" + ms + "-" + ds, hs + ":" + mins)
            == AlertInstantOf(DigitsValue(ys), DigitsValue(ms), DigitsValue(ds), DigitsValue(hs), DigitsValue(mins))
  {
    DateFieldsOfDigits(ys, ms, ds);
    TimeFieldsOfDigits(hs, mins);
    var dn := [Some(DigitsValue(ys)), Some(DigitsValue(ms)), Some(DigitsValue(ds))];
    var tn := [Some(DigitsValue(hs)), Some(DigitsValue(mins))];
    assert AlertInstant(ys + "-" + ms + "-" + ds, hs + ":" + mins) == AlertInstantFrom(dn, tn);
  }

  /** Within a year, the days of the following month start where this month ends. */
  lemma MakeDayNextMonth(y: int, m: int, d: int)
    requires 0 <= m < 12
    ensures MakeDay(y, m + 1, d) == MakeDay(y, m, d) + DaysInMonth(y, m)
  {
    MakeDayInYear(y, m, d);
    MonthStartStep(y, m);
    if m < 11 {
      MakeDayInYear(y, m + 1, d);
    } else {
      assert (m + 1) / 12 == 1 && (m + 1) % 12 == 0;
      DayFromYearStep(y);
    }
  }

  /** The number of days the form's instant lies after the written date; zero when the day exists in the following month. */
  function FormShift(y: int, m: int, d: int): int
    requires 1 <= m <= 12
  {
    var next := DaysInMonth(y + m / 12, m % 12);
    if d <= next then 0 else DaysInMonth(y, m - 1) - next
  }

  /**
   * The day `setMonth(getMonth() - 1)` reaches from the day the form constructs: for a real
   * date (calendar month `m`, a day that month has), the same day one month back when the day
   * exists in the following calendar month, and otherwise that many days later than the
   * difference of the two months' lengths.
   */
  lemma MonthBackDay(y: int, m: int, d: int)
    requires 1 <= m <= 12 && 1 <= d <= DaysInMonth(y, m - 1)
    ensures var c := CivilFromDays(MakeDay(y, m, d));
            MakeDay(c.year, c.month - 1, c.day) == MakeDay(y, m - 1, d) + FormShift(y, m, d)
  {
    if d <= DaysInMonth(y + m / 12, m % 12) {
      MonthBackExisting(y, m, d);
    } else {
      assert m <= 11 && m / 12 == 0 && m % 12 == m;
      assert DaysInMonth(y, m) < d;
      MonthBackOverflow(y, m, d);
    }
  }

  lemma MonthBackExisting(y: int, m: int, d: int)
    requires 1 <= m <= 12 && 1 <= d <= DaysInMonth(y + m / 12, m % 12)
    ensures var c := CivilFromDays(MakeDay(y, m, d));
            MakeDay(c.year, c.month - 1, c.day) == MakeDay(y, m - 1, d) + FormShift(y, m, d)
  {
    var c := Civil(y + m / 12, m % 12, d);
    MakeDayInYear(y + m / 12, m % 12, d);
    CivilFromDaysOf(c);
    MakeDayPreviousMonth(y, m, d);
  }

  lemma MonthBackOverflow(y: int, m: int, d: int)
    requires 1 <= m <= 11 && DaysInMonth(y, m) < d <= DaysInMonth(y, m - 1)
    ensures var c := CivilFromDays(MakeDay(y, m, d));
            MakeDay(c.year, c.month - 1, c.day) == MakeDay(y, m - 1, d) + FormShift(y, m, d)
  {
    assert m / 12 == 0 && m % 12 == m;
    assert FormShift(y, m, d) == DaysInMonth(y, m - 1) - DaysInMonth(y, m);
    var d2 := d - DaysInMonth(y, m);
    MakeDayNextMonth(y, m, d2);
    MakeDayNextMonth(y, m - 1, d);
    MakeDayInYear(y, m, d);
    MakeDayInYear(y, m, d2);
    MakeDayInYear(y, m + 1, d2);
    var c := Civil(y, m + 1, d2);
    assert DayOf(c) == MakeDay(y, m, d);
    CivilFromDaysOf(c);
  }

  /** `setMonth(getMonth() - 1)` on an instant inside the range keeps the time of day. */
  lemma SetMonthBackOf(z: int, tod: int)
    requires 0 <= tod < MsPerDay && -MaxDays < z < MaxDays
    ensures var c := CivilFromDays(z);
            SetMonthBack(Some(TimeValue(z, tod))) == TimeClip(TimeValue(MakeDay(c.year, c.month - 1, c.day), tod))
  {
    DayAndTime(z, tod);
  }

  /**
   * The form's instant for a real calendar date (calendar month `m` in 1..12, a day that month
   * has) and a time of day: the written day pushed on by `FormShift`, at the written time.
   */
  lemma FormInstantExact(y: int, m: int, d: int, h: int, min: int)
    requires 1 <= m <= 12 && 1 <= d <= DaysInMonth(YearArg(y), m - 1)
    requires 0 <= h < 24 && 0 <= min < 60
    requires -MaxDays < MakeDay(YearArg(y), m - 1, d) && MakeDay(YearArg(y), m - 1, d) + 31 < MaxDays
    ensures 0 <= FormShift(YearArg(y), m, d) <= 3
    ensures FormInstantOf(y, m, d, h, min)
            == Some(TimeValue(MakeDay(YearArg(y), m - 1, d) + FormShift(YearArg(y), m, d), MakeTime(h, min, 0, 0)))
  {
    FormInstantOfIs(y, m, d, h, min);
    var Y := YearArg(y);
    var tod := MakeTime(h, min, 0, 0);
    assert 0 <= tod < MsPerDay;
    MakeDayNextMonth(Y, m - 1, d);
    var z := MakeDay(Y, m, d);
    DayInRange(z, tod);
    assert NewDate(Some(y), Some(m), Some(d), Some(h), Some(min), Some(0), Some(0)) == Some(TimeValue(z, tod));
    SetMonthBackOf(z, tod);
    MonthBackDay(Y, m, d);
    var c := CivilFromDays(z);
    var formDay := MakeDay(c.year, c.month - 1, c.day);
    assert formDay == MakeDay(Y, m - 1, d) + FormShift(Y, m, d);
    DayInRange(formDay, tod);
  }

  /**
   * For a real calendar date and a time of day, the form's instant is the alert's instant
   * pushed on by `FormShift` days; so the two agree exactly when the day exists in the
   * following calendar month.
   */
  lemma FormVersusAlert(y: int, m: int, d: int, h: int, min: int)
    requires 1 <= m <= 12 && 1 <= d <= DaysInMonth(YearArg(y), m - 1)
    requires 0 <= h < 24 && 0 <= min < 60
    requires -MaxDays < MakeDay(YearArg(y), m - 1, d) && MakeDay(YearArg(y), m - 1, d) + 31 < MaxDays
    ensures AlertInstantOf(y, m, d, h, min).Some? && FormInstantOf(y, m, d, h, min).Some?
    ensures FormInstantOf(y, m, d, h, min).value
            == AlertInstantOf(y, m, d, h, min).value + FormShift(YearArg(y), m, d) * MsPerDay
    ensures FormInstantOf(y, m, d, h, min) == AlertInstantOf(y, m, d, h, min)
            <==> d <= DaysInMonth(YearArg(y) + m / 12, m % 12)
  {
    FormInstantExact(y, m, d, h, min);
    AlertInstantOfIs(y, m, d, h, min);
    var alertDay := MakeDay(YearArg(y), m - 1, d);
    var tod := MakeTime(h, min, 0, 0);
    DayInRange(alertDay, tod);
    assert AlertInstantOf(y, m, d, h, min) == Some(TimeValue(alertDay, tod));
    TimeValueShift(alertDay, FormShift(YearArg(y), m, d), tod);
  }

  /**
   * The alert's instant names the date and time written: for a real date in a year from 100
   * on and a time of day, it is that calendar day's number times a day plus the time of day.
   */
  lemma AlertInstantExact(y: int, m: int, d: int, h: int, min: int)
    requires y >= 100 && 1 <= m <= 12 && ValidCivil(Civil(y, m - 1, d))
    requires 0 <= h < 24 && 0 <= min < 60
    requires -MaxDays < MakeDay(y, m - 1, d) < MaxDays
    ensures AlertInstantOf(y, m, d, h, min)
            == Some(TimeValue(DayOf(Civil(y, m - 1, d)), MakeTime(h, min, 0, 0)))
  {
    AlertInstantOfIs(y, m, d, h, min);
    NewDateFields(y, m - 1, d, h, min);
  }
}

/**
 * `calculateTotalHours` of the record form (components/NewRecordForm.tsx:37-73): the time
 * between the start and the end of a job in hundredths of an hour, as the text `toFixed(2)`
 * writes, with `0` for every missing, unparsable or negative interval.
 *
 * Instants are integer milliseconds. The start and end fields can be read two ways: as the
 * source writes it (`AsWritten`: construct from the calendar month, then one month back) or
 * as the alert sweep does and the source's comment intends (`Intended`: construct from the
 * month minus one). The record form of this model is built with either: `AsWritten` is the
 * source's form and `Intended` the corrected one; see module `Instants` for where they disagree.
 */
module FormHours {
  import opened Wrappers
  import opened TextUtil
  import opened JsDate
  import opened Instants
  import opened Types

  datatype Reading = AsWritten | Intended

  /** The instant a `YYYY-MM-DD` date field and an `HH:MM` time field name. */
  function ReadInstant(reading: Reading, date: string, time: string): Num {
    match reading
    case AsWritten => FormInstant(date, time)
    case Intended => AlertInstant(date, time)
  }

  /**
   * `(diff / 3600000).toFixed(2)` in hundredths: the nearest hundredth of an hour, a tie
   * going up.
   */
  function RoundHundredths(diff: nat): (n: nat)
    ensures n * 36000 <= diff + 18000 < n * 36000 + 36000
  {
    (diff + 18000) / 36000
  }

  /**
   * The end of the interval: the clock reading `now` while awaiting parts, the end fields when
   * both are filled in, and otherwise none (the early `"0.00"` at line 60).
   */
  function EndInstant(reading: Reading, status: string, endDate: string, endTime: string, now: int): Option<Num> {
    if status == AWAITING_PARTS then Some(Some(now))
    else if endDate != "" && endTime != "" then Some(ReadInstant(reading, endDate, endTime))
    else None
  }

  /**
   * `calculateTotalHours`, in hundredths of an hour. Hours are only ever counted from a valid
   * start to an end: the clock reading while awaiting parts, otherwise both end fields.
   */
  function TotalHundredths(reading: Reading, startDate: string, startTime: string, endDate: string,
                           endTime: string, status: string, now: int): (r: nat)
    ensures r > 0 ==> startDate != "" && startTime != "" && ReadInstant(reading, startDate, startTime).Some?
    ensures r > 0 ==> status == AWAITING_PARTS || (endDate != "" && endTime != "")
  {
    if startDate == "" || startTime == "" then 0
    else
      var start := ReadInstant(reading, startDate, startTime);
      var end := EndInstant(reading, status, endDate, endTime, now);
      if end.None? || start.None? || end.value.None? then 0
      else if end.value.value - start.value < 0 then 0
      else RoundHundredths(end.value.value - start.value)
  }

  /**
   * The total is the nearest hundredth of an hour of the time from the start to the end when
   * both are valid instants and the end is not earlier; it is zero without a start, without
   * an end, and for an invalid or negative interval.
   */
  lemma {:induction false} TotalIsElapsed(reading: Reading, startDate: string, startTime: string, endDate: string,
                                          endTime: string, status: string, now: int)
    ensures var n := TotalHundredths(reading, startDate, startTime, endDate, endTime, status, now);
            var start := ReadInstant(reading, startDate, startTime);
            var end := if status == AWAITING_PARTS then Some(now) else ReadInstant(reading, endDate, endTime);
            if startDate != "" && startTime != "" && (status == AWAITING_PARTS || (endDate != "" && endTime != ""))
               && start.Some? && end.Some? && start.value <= end.value
            then n * 36000 <= end.value - start.value + 18000 < n * 36000 + 36000
            else n == 0
  {
  }

  /** No start date or no start time: `"0.00"`. */
  lemma NoStartNoHours(reading: Reading, startDate: string, startTime: string, endDate: string,
                       endTime: string, status: string, now: int)
    requires startDate == "" || startTime == ""
    ensures TotalHundredths(reading, startDate, startTime, endDate, endTime, status, now) == 0
  {
  }

  /** Any status other than awaiting parts, without both end fields: `"0.00"`, whatever the status. */
  lemma NoEndNoHours(reading: Reading, startDate: string, startTime: string, endDate: string,
                     endTime: string, status: string, now: int)
    requires status != AWAITING_PARTS && (endDate == "" || endTime == "")
    ensures TotalHundredths(reading, startDate, startTime, endDate, endTime, status, now) == 0
  {
  }

  /** Awaiting parts, the end fields are ignored: the interval ends at the clock reading. */
  lemma AwaitingIgnoresEnd(reading: Reading, startDate: string, startTime: string, endDate: string,
                           endTime: string, endDate': string, endTime': string, now: int)
    ensures TotalHundredths(reading, startDate, startTime, endDate, endTime, AWAITING_PARTS, now)
            == TotalHundredths(reading, startDate, startTime, endDate', endTime', AWAITING_PARTS, now)
  {
  }

  /** Rounding never goes down as the interval grows. */
  lemma RoundMonotone(a: nat, b: nat)
    requires a <= b
    ensures RoundHundredths(a) <= RoundHundredths(b)
  {
  }

  /** While awaiting parts, a later clock reading never gives fewer hours. */
  lemma {:induction false} AwaitingHoursGrow(reading: Reading, startDate: string, startTime: string, endDate: string,
                                             endTime: string, now: int, later: int)
    requires now <= later
    ensures TotalHundredths(reading, startDate, startTime, endDate, endTime, AWAITING_PARTS, now)
            <= TotalHundredths(reading, startDate, startTime, endDate, endTime, AWAITING_PARTS, later)
  {
    var start := ReadInstant(reading, startDate, startTime);
    if startDate != "" && startTime != "" && start.Some? && now - start.value >= 0 {
      RoundMonotone(now - start.value, later - start.value);
    }
  }

  /**
   * For a whole number of minutes `m` the total is the nearest integer to `5m/3` hundredths,
   * and the rounding never meets a tie, so floating-point behaviour at a half cannot matter.
   */
  lemma WholeMinutes(m: nat)
    ensures var n := RoundHundredths(m * 60000);
            -1 <= 3 * n - 5 * m <= 1 && (m * 60000 + 18000) % 36000 != 0
  {
    var n := RoundHundredths(m * 60000);
    assert n * 36000 <= m * 60000 + 18000 < n * 36000 + 36000;
  }

  // ---------------------------------------------------------------------------
  // The text `toFixed(2)` writes, and reading it back.

  /** `toFixed(2)` of `n` hundredths: the whole part, a point, and exactly two decimals. */
  function FormatHundredths(n: nat): (r: string)
    ensures |r| >= 4 && forall i :: 0 <= i < |r| ==> IsDecimalChar(r[i])
  {
    NatToString(n / 100) + "." + [DigitChar(n % 100 / 10), DigitChar(n % 10)]
  }

  /** Reads a `<digits>.<two digits>` text as hundredths; anything else is `None`. */
  function ParseHundredths(s: string): Option<nat> {
    var parts := Split(s, '.');
    if |parts| == 2 && parts[0] != "" && AllDigits(parts[0]) && |parts[1]| == 2 && AllDigits(parts[1])
    then Some(DigitsValue(parts[0]) * 100 + DigitsValue(parts[1]))
    else None
  }

  /** The text written for `n` hundredths reads back as `n`. */
  lemma {:induction false} FormatParse(n: nat)
    ensures ParseHundredths(FormatHundredths(n)) == Some(n)
  {
    var whole := NatToString(n / 100);
    var frac := [DigitChar(n % 100 / 10), DigitChar(n % 10)];
    assert FormatHundredths(n) == whole + ['.'] + frac;
    DigitsExclude(whole, '.');
    DigitsExclude(frac, '.');
    SplitTwo(whole, frac, '.');
    NatToStringValue(n / 100);
    assert frac[..1] == [DigitChar(n % 100 / 10)] && frac[..1][..0] == [];
    assert DigitsValue(frac[..1]) == n % 100 / 10;
    assert DigitsValue(frac) == n % 100;
  }

  /** The form's default hours text is zero hundredths. */
  lemma ZeroText()
    ensures FormatHundredths(0) == "0.00" && ParseHundredths("0.00") == Some(0)
  {
    FormatParse(0);
  }

  // ---------------------------------------------------------------------------
  // The last day of January, where the two readings part.

  /** The last day of January of a year from 100 to 9999 lies well inside the range of time values. */
  lemma January31InRange(y: int)
    requires 100 <= y <= 9999
    ensures -MaxDays < MakeDay(y, 0, 31) && MakeDay(y, 0, 31) + 62 < MaxDays
    ensures MakeDay(y, 1, 1) == MakeDay(y, 0, 31) + 1
  {
    if y < 1970 {
      DayFromYearBounds(y, 1970);
    } else {
      DayFromYearBounds(1970, y);
    }
    MakeDayInYear(y, 0, 31);
    MakeDayInYear(y, 1, 1);
    MonthStartStep(y, 0);
  }

  /**
   * Read as written, `y-01-31 h:min` is the same time two or three days later: 31 February
   * overflows into March, and stepping back a month lands in February.
   */
  lemma January31Written(y: int, h: int, min: int)
    requires 100 <= y <= 9999 && 0 <= h < 24 && 0 <= min < 60
    ensures FormInstantOf(y, 1, 31, h, min)
            == Some(TimeValue(MakeDay(y, 0, 31), MakeTime(h, min, 0, 0)) + (31 - DaysInMonth(y, 1)) * MsPerDay)
  {
    January31InRange(y);
    assert YearArg(y) == y;
    assert FormShift(y, 1, 31) == 31 - DaysInMonth(y, 1);
    FormInstantExact(y, 1, 31, h, min);
    TimeValueShift(MakeDay(y, 0, 31), 31 - DaysInMonth(y, 1), MakeTime(h, min, 0, 0));
  }

  /** Read as written, `y-02-01 h:min` is that time on 1 February, a day after 31 January. */
  lemma February1Written(y: int, h: int, min: int)
    requires 100 <= y <= 9999 && 0 <= h < 24 && 0 <= min < 60
    ensures FormInstantOf(y, 2, 1, h, min)
            == Some(TimeValue(MakeDay(y, 0, 31), MakeTime(h, min, 0, 0)) + MsPerDay)
  {
    January31InRange(y);
    assert YearArg(y) == y;
    assert FormShift(y, 2, 1) == 0;
    FormInstantExact(y, 2, 1, h, min);
    TimeValueShift(MakeDay(y, 0, 31), 1, MakeTime(h, min, 0, 0));
  }

  /** Read as intended, `y-01-31 h:min` is that time on 31 January and `y-02-01 h:min` one day later. */
  lemma MonthEndIntended(y: int, h: int, min: int)
    requires 100 <= y <= 9999 && 0 <= h < 24 && 0 <= min < 60
    ensures var t := TimeValue(MakeDay(y, 0, 31), MakeTime(h, min, 0, 0));
            && AlertInstantOf(y, 1, 31, h, min) == Some(t)
            && AlertInstantOf(y, 2, 1, h, min) == Some(t + MsPerDay)
  {
    January31InRange(y);
    var z, tod := MakeDay(y, 0, 31), MakeTime(h, min, 0, 0);
    AlertInstantExact(y, 1, 31, h, min);
    AlertInstantExact(y, 2, 1, h, min);
    TimeValueShift(z, 1, tod);
  }

  /**
   * A job from `Y-01-31 H:M` to `Y-02-01 H:M` (any texts whose parts read as these numbers)
   * lasts one day. Read as written, the start lands on 2 or 3 February, after the end, and
   * the form shows `"0.00"`.
   */
  lemma {:induction false} MonthEndJobWritten(start: string, end: string, time: string, y: int, h: int, min: int, now: int)
    requires Numbers(Split(start, '-')) == [Some(y), Some(1), Some(31)]
    requires Numbers(Split(end, '-')) == [Some(y), Some(2), Some(1)]
    requires Numbers(Split(time, ':')) == [Some(h), Some(min)]
    requires 100 <= y <= 9999 && 0 <= h < 24 && 0 <= min < 60
    ensures TotalHundredths(AsWritten, start, time, end, time, COMPLETED, now) == 0
  {
    assert start != "" && end != "" && time != "";
    assert FormInstant(start, time) == FormInstantOf(y, 1, 31, h, min);
    assert FormInstant(end, time) == FormInstantOf(y, 2, 1, h, min);
    January31Written(y, h, min);
    February1Written(y, h, min);
  }

  /** Read as intended, the same job shows `"24.00"`. */
  lemma {:induction false} MonthEndJobIntended(start: string, end: string, time: string, y: int, h: int, min: int, now: int)
    requires Numbers(Split(start, '-')) == [Some(y), Some(1), Some(31)]
    requires Numbers(Split(end, '-')) == [Some(y), Some(2), Some(1)]
    requires Numbers(Split(time, ':')) == [Some(h), Some(min)]
    requires 100 <= y <= 9999 && 0 <= h < 24 && 0 <= min < 60
    ensures TotalHundredths(Intended, start, time, end, time, COMPLETED, now) == 2400
  {
    assert start != "" && end != "" && time != "";
    assert AlertInstant(start, time) == AlertInstantOf(y, 1, 31, h, min);
    assert AlertInstant(end, time) == AlertInstantOf(y, 2, 1, h, min);
    MonthEndIntended(y, h, min);
  }

  /** The text `2024-01-31` splits into the numbers it shows. */
  lemma January31Fields()
    ensures Numbers(Split("2024" + "-" + "01" + "-" + "31", '-')) == [Some(2024), Some(1), Some(31)]
  {
    FourDigitsValue("2024");
    TwoDigitsValue("01");
    TwoDigitsValue("31");
    DateFieldsOfDigits("2024", "01", "31");
  }

  /** The text `2024-02-01` splits into the numbers it shows. */
  lemma February1Fields()
    ensures Numbers(Split("2024" + "-" + "02" + "-" + "01", '-')) == [Some(2024), Some(2), Some(1)]
  {
    FourDigitsValue("2024");
    TwoDigitsValue("02");
    TwoDigitsValue("01");
    DateFieldsOfDigits("2024", "02", "01");
  }

  /** The text `08:00` splits into the numbers it shows. */
  lemma EightOClockFields()
    ensures Numbers(Split("08" + ":" + "00", ':')) == [Some(8), Some(0)]
  {
    TwoDigitsValue("08");
    TwoDigitsValue("00");
    TimeFieldsOfDigits("08", "00");
  }

  /** The job from 2024-01-31 08:00 to 2024-02-01 08:00. */
  lemma January31Job2024(now: int)
    ensures TotalHundredths(AsWritten, "2024" + "-" + "01" + "-" + "31", "08" + ":" + "00",
                            "2024" + "-" + "02" + "-" + "01", "08" + ":" + "00", COMPLETED, now) == 0
    ensures TotalHundredths(Intended, "2024" + "-" + "01" + "-" + "31", "08" + ":" + "00",
                            "2024" + "-" + "02" + "-" + "01", "08" + ":" + "00", COMPLETED, now) == 2400
  {
    January31Fields();
    February1Fields();
    EightOClockFields();
    var start, end, time := "2024" + "-" + "01" + "-" + "31", "2024" + "-" + "02" + "-" + "01", "08" + ":" + "00";
    MonthEndJobWritten(start, end, time, 2024, 8, 0, now);
    MonthEndJobIntended(start, end, time, 2024, 8, 0, now);
  }

  /**
   * Read as intended, digit fields name the written calendar date and time: the instant is
   * that day's number times a day plus the time of day.
   */
  lemma {:induction false} IntendedReadsWrittenDate(ys: string, ms: string, ds: string, hs: string, mins: string)
    requires AllDigits(ys) && AllDigits(ms) && AllDigits(ds) && AllDigits(hs) && AllDigits(mins)
    requires DigitsValue(ys) >= 100 && 1 <= DigitsValue(ms) <= 12
    requires ValidCivil(Civil(DigitsValue(ys), DigitsValue(ms) - 1, DigitsValue(ds)))
    requires DigitsValue(hs) < 24 && DigitsValue(mins) < 60
    requires MakeDay(DigitsValue(ys), DigitsValue(ms) - 1, DigitsValue(ds)) < MaxDays
    ensures ReadInstant(Intended, ys + "-" + ms + "-" + ds, hs + ":" + mins)
            == Some(TimeValue(DayOf(Civil(DigitsValue(ys), DigitsValue(ms) - 1, DigitsValue(ds))),
                              MakeTime(DigitsValue(hs), DigitsValue(mins), 0, 0)))
  {
    var y: int, m: int, d: int := DigitsValue(ys), DigitsValue(ms), DigitsValue(ds);
    AlertInstantOfDigits(ys, ms, ds, hs, mins);
    if y < 1970 {
      DayFromYearBounds(y, 1970);
    } else {
      DayFromYearBounds(1970, y);
    }
    DayOfInYear(Civil(y, m - 1, d));
    AlertInstantExact(y, m, d, DigitsValue(hs), DigitsValue(mins));
  }
}

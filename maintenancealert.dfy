/**
 * The staleness alert of the dashboard (components/MaintenanceAlert.tsx): every minute, the
 * records awaiting parts whose start lies at least an hour back are collected, and each is
 * shown with the time it has been stopped, in whole hours and minutes.
 */
module MaintenanceAlert {
  import opened Wrappers
  import opened JsDate
  import opened Instants
  import opened Types
  import opened Seqs

  /** The start instant of a record as the sweep reads it, `new Date(y, m - 1, d, h, min)`. */
  function StartOf(log: MaintenanceLog): Num
    requires !Blank(log.startDate) && !Blank(log.startTime)
  {
    AlertInstant(log.startDate.value, log.startTime.value)
  }

  /** The filter of `checkAlerts`: awaiting parts, both start fields, a valid start, an hour gone. */
  predicate Qualifies(log: MaintenanceLog, now: int) {
    log.status == AWAITING_PARTS && !Blank(log.startDate) && !Blank(log.startTime)
    && StartOf(log).Some? && now - StartOf(log).value >= MsPerHour
  }

  function QualifiesAt(now: int): MaintenanceLog -> bool {
    (log: MaintenanceLog) => Qualifies(log, now)
  }

  /** `checkAlerts`: the qualifying records, as the list has them. */
  function CheckAlerts(logs: seq<MaintenanceLog>, now: int): (r: seq<MaintenanceLog>)
    ensures |r| <= |logs|
    ensures forall log :: log in r ==> log in logs && Qualifies(log, now)
  {
    Filter(logs, QualifiesAt(now))
  }

  /**
   * A record is in the alert list exactly when it is in the input, awaits parts, has both
   * start fields, a start that is a valid instant, and at least an hour has gone since.
   */
  lemma AlertsAreQualifying(logs: seq<MaintenanceLog>, now: int, log: MaintenanceLog)
    ensures log in CheckAlerts(logs, now) <==>
              log in logs && log.status == AWAITING_PARTS && !Blank(log.startDate) && !Blank(log.startTime)
              && StartOf(log).Some? && now - StartOf(log).value >= MsPerHour
  {
    if log in logs && Qualifies(log, now) {
      FilterKeeps(logs, QualifiesAt(now), log);
    }
  }

  /** The alert list keeps the input's order and repeats nothing the input does not. */
  lemma AlertsInOrder(logs: seq<MaintenanceLog>, now: int)
    ensures IsSubsequence(CheckAlerts(logs, now), logs)
    ensures |CheckAlerts(logs, now)| <= |logs|
  {
    FilterIsSubsequence(logs, QualifiesAt(now));
  }

  /** Exactly sixty minutes after the start the record alerts; fifty-nine minutes after, not yet. */
  lemma OneHourBoundary(log: MaintenanceLog)
    requires log.status == AWAITING_PARTS && !Blank(log.startDate) && !Blank(log.startTime)
    requires StartOf(log).Some?
    ensures Qualifies(log, StartOf(log).value + 60 * MsPerMinute)
    ensures !Qualifies(log, StartOf(log).value + 59 * MsPerMinute)
  {
  }

  /** A record that alerts keeps alerting at every later check while the list is the same. */
  lemma AlertsPersist(logs: seq<MaintenanceLog>, now: int, later: int, log: MaintenanceLog)
    requires now <= later && log in CheckAlerts(logs, now)
    ensures log in CheckAlerts(logs, later)
  {
    AlertsAreQualifying(logs, now, log);
    AlertsAreQualifying(logs, later, log);
  }

  /** JavaScript's `%`: the remainder takes the sign of the dividend. */
  function JsRem(a: int, b: int): (r: int)
    requires b > 0
    ensures -b < r < b && (a >= 0 ==> r >= 0) && (a < 0 ==> r <= 0)
    ensures (a - r) % b == 0
  {
    if a >= 0 then
      var q := a / b;
      assert a - a % b == b * q;
      MultipleMod(q, b);
      a % b
    else
      var q := (-a) / b;
      assert a + (-a) % b == b * -q;
      MultipleMod(-q, b);
      -((-a) % b)
  }

  /** A multiple of `b` leaves no remainder. */
  lemma MultipleMod(q: int, b: int)
    requires b > 0
    ensures (b * q) % b == 0
  {
    var t := q - (b * q) / b;
    assert b * t == (b * q) % b;
  }

  datatype Duration = Duration(hours: int, minutes: int)

  /**
   * `Math.floor(diff / 1h)` and `Math.floor((diff % 1h) / 1min)`; Dafny's `/` with a positive
   * divisor is `Math.floor` of the quotient.
   */
  function Elapsed(diff: int): Duration {
    Duration(diff / MsPerHour, JsRem(diff, MsPerHour) / MsPerMinute)
  }

  /**
   * For a non-negative interval the display is whole hours and the minutes left over: the
   * minutes are 0 to 59 and together they are the whole minutes of the interval.
   */
  lemma ElapsedSplits(diff: int)
    requires diff >= 0
    ensures 0 <= Elapsed(diff).minutes <= 59 && Elapsed(diff).hours >= 0
    ensures Elapsed(diff).hours * 60 + Elapsed(diff).minutes == diff / MsPerMinute
  {
    var h := diff / MsPerHour;
    var r := diff % MsPerHour;
    assert diff == h * MsPerHour + r;
    assert diff == (h * 60 + r / MsPerMinute) * MsPerMinute + r % MsPerMinute;
  }

  /** Ninety minutes shows as 1 hour 30 minutes. */
  lemma NinetyMinutes()
    ensures Elapsed(90 * MsPerMinute) == Duration(1, 30)
  {
  }

  /** One line of the banner: the record and how long it has been stopped (none for NaN). */
  datatype AlertLine = AlertLine(log: MaintenanceLog, stopped: Option<Duration>)

  /** The line for a record at clock reading `now`, from `(log.startDate || '')` and the same for the time. */
  function LineOf(log: MaintenanceLog, now: int): AlertLine {
    var date := if Blank(log.startDate) then "" else log.startDate.value;
    var time := if Blank(log.startTime) then "" else log.startTime.value;
    var start := AlertInstant(date, time);
    AlertLine(log, if start.Some? then Some(Elapsed(now - start.value)) else None)
  }

  function Lines(alerts: seq<MaintenanceLog>, now: int): (r: seq<AlertLine>)
    ensures |r| == |alerts| && forall i :: 0 <= i < |r| ==> r[i] == LineOf(alerts[i], now)
  {
    seq(|alerts|, i requires 0 <= i < |alerts| => LineOf(alerts[i], now))
  }

  /** The banner's state: the `alerts` field that each check overwrites. */
  class AlertPanel {
    var alerts: seq<MaintenanceLog>

    constructor ()
      ensures alerts == []
    {
      alerts := [];
    }

    /** A check, on mounting, when the list changes and every minute: recomputed from scratch. */
    method Tick(logs: seq<MaintenanceLog>, now: int)
      modifies this
      ensures alerts == CheckAlerts(logs, now)
    {
      alerts := CheckAlerts(logs, now);
    }

    /** What the banner shows at `now`: nothing without alerts, else one line per alert. */
    function Render(now: int): (r: Option<seq<AlertLine>>)
      reads this
      ensures r.None? <==> alerts == []
      ensures r.Some? ==> r.value == Lines(alerts, now)
    {
      if alerts == [] then None else Some(Lines(alerts, now))
    }
  }

  /**
   * Every line shown after a check at `checked`, rendered at a later `now`, has a duration of
   * at least an hour with minutes from 0 to 59.
   */
  lemma LinesAfterCheck(logs: seq<MaintenanceLog>, checked: int, now: int)
    requires checked <= now
    ensures forall line :: line in Lines(CheckAlerts(logs, checked), now) ==>
              line.stopped.Some? && line.stopped.value.hours >= 1 && 0 <= line.stopped.value.minutes <= 59
  {
    var alerts := CheckAlerts(logs, checked);
    forall line | line in Lines(alerts, now)
      ensures line.stopped.Some? && line.stopped.value.hours >= 1 && 0 <= line.stopped.value.minutes <= 59
    {
      var i :| 0 <= i < |alerts| && line == LineOf(alerts[i], now);
      var log := alerts[i];
      assert log in alerts;
      AlertsAreQualifying(logs, checked, log);
      ElapsedSplits(now - StartOf(log).value);
    }
  }
}

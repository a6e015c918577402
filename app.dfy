/**
 * The record-list state of the application shell (App.tsx): the list of records, the record
 * shown in detail, the record being edited, the status filter of the list view, the current
 * tab and whether the form is open; and the generator of the next `MAN-<n>` code.
 */
module App {
  import opened Wrappers
  import opened TextUtil
  import opened Types
  import opened Seqs
  import opened NewRecordForm

  // ---------------------------------------------------------------------------
  // `getNextId`: the first `MAN-(\d+)` match of each code, the largest, plus one.

  const CODE_PREFIX: string := "MAN-"

  /** The regular expression `/MAN-(\d+)/` matches at `i`. */
  predicate CodeMatchAt(code: string, i: int) {
    HasAt(code, i, CODE_PREFIX) && i + |CODE_PREFIX| < |code| && IsDigit(code[i + |CODE_PREFIX|])
  }

  /** The length of the run of digits starting at `i`: what the greedy `\d+` takes. */
  function DigitRun(s: string, i: nat): (n: nat)
    requires i <= |s|
    ensures i + n <= |s| && AllDigits(s[i..i + n])
    ensures i + n == |s| || !IsDigit(s[i + n])
    decreases |s| - i
  {
    if i < |s| && IsDigit(s[i]) then
      var n := 1 + DigitRun(s, i + 1);
      assert s[i..i + n] == [s[i]] + s[i + 1..i + n];
      n
    else 0
  }

  /** The leftmost match at or after `from`. */
  function FirstCodeMatch(code: string, from: nat): (r: Option<nat>)
    ensures r.Some? ==> from <= r.value && CodeMatchAt(code, r.value)
                        && forall j :: from <= j < r.value ==> !CodeMatchAt(code, j)
    ensures r.None? ==> forall j :: from <= j ==> !CodeMatchAt(code, j)
    decreases |code| - from
  {
    if from >= |code| then None
    else if CodeMatchAt(code, from) then Some(from)
    else FirstCodeMatch(code, from + 1)
  }

  /** `parseInt(code.match(/MAN-(\d+)/)[1])`, or none when the code has no match. */
  function CodeNumber(code: string): Option<nat> {
    match FirstCodeMatch(code, 0)
    case None => None
    case Some(i) =>
      var k := i + |CODE_PREFIX|;
      Some(DigitsValue(code[k..k + DigitRun(code, k)]))
  }

  /** One step of the `reduce`: a matching code larger than the maximum so far replaces it. */
  function MaxStep(max: nat, log: MaintenanceLog): nat {
    match CodeNumber(log.code)
    case None => max
    case Some(num) => if num > max then num else max
  }

  /** `logs.reduce(step, max)`, from the left. */
  function MaxNumber(logs: seq<MaintenanceLog>, max: nat): nat
    decreases |logs|
  {
    if logs == [] then max else MaxNumber(logs[1..], MaxStep(max, logs[0]))
  }

  /** `padStart(3, '0')`: zeros in front up to three characters; a longer text is kept whole. */
  function PadStart3(s: string): (r: string)
    ensures |r| == if |s| >= 3 then |s| else 3
    ensures r[|r| - |s|..] == s
    ensures forall i :: 0 <= i < |r| - |s| ==> r[i] == '0'
  {
    if |s| >= 3 then s else seq(3 - |s|, _ => '0') + s
  }

  /** The number the next code carries. */
  function NextNumber(logs: seq<MaintenanceLog>): nat {
    MaxNumber(logs, 0) + 1
  }

  /** `getNextId()`. */
  function NextCode(logs: seq<MaintenanceLog>): (r: string)
    ensures |r| >= 7 && r[..4] == CODE_PREFIX
  {
    CODE_PREFIX + PadStart3(NatToString(NextNumber(logs)))
  }

  /**
   * The fold's result is at least its start and every extracted number, and it is one of
   * them: the maximum.
   */
  lemma {:induction false} MaxNumberIsMaximum(logs: seq<MaintenanceLog>, max: nat)
    ensures max <= MaxNumber(logs, max)
    ensures forall i :: 0 <= i < |logs| && CodeNumber(logs[i].code).Some? ==>
              CodeNumber(logs[i].code).value <= MaxNumber(logs, max)
    ensures MaxNumber(logs, max) == max
            || exists i :: 0 <= i < |logs| && CodeNumber(logs[i].code) == Some(MaxNumber(logs, max))
    decreases |logs|
  {
    if logs != [] {
      var m := MaxStep(max, logs[0]);
      MaxNumberIsMaximum(logs[1..], m);
      forall i | 1 <= i < |logs| && CodeNumber(logs[i].code).Some?
        ensures CodeNumber(logs[i].code).value <= MaxNumber(logs, max)
      {
        assert logs[i] == logs[1..][i - 1];
      }
      if MaxNumber(logs, max) != max && MaxNumber(logs, max) != m {
        var i :| 0 <= i < |logs[1..]| && CodeNumber(logs[1..][i].code) == Some(MaxNumber(logs, max));
        assert logs[1..][i] == logs[i + 1];
      }
    }
  }

  /** The next number is larger than every `MAN-` number in the list, and 1 without any. */
  lemma NextNumberAbove(logs: seq<MaintenanceLog>)
    ensures forall log :: log in logs && CodeNumber(log.code).Some? ==> CodeNumber(log.code).value < NextNumber(logs)
    ensures (forall log :: log in logs ==> CodeNumber(log.code).None?) ==> NextNumber(logs) == 1
  {
    MaxNumberIsMaximum(logs, 0);
  }

  /** The next number is one more than the largest `MAN-` number, when the list has one. */
  lemma NextNumberAttained(logs: seq<MaintenanceLog>)
    ensures NextNumber(logs) == 1 || exists log :: log in logs && CodeNumber(log.code) == Some(NextNumber(logs) - 1)
  {
    MaxNumberIsMaximum(logs, 0);
  }

  /** Zeros in front do not change the value of a digit string. */
  lemma PadValue(s: string)
    requires AllDigits(s)
    ensures AllDigits(PadStart3(s)) && DigitsValue(PadStart3(s)) == DigitsValue(s)
  {
    if |s| < 3 {
      var zeros := seq(3 - |s|, _ => '0');
      LeadingZeroValue(s);
      if |s| < 2 {
        LeadingZeroValue("0" + s);
        if |s| < 1 {
          assert "0" + ("0" + s) == "00" + s;
          LeadingZeroValue("00" + s);
          assert zeros + s == "0" + ("00" + s);
        } else {
          assert zeros + s == "0" + ("0" + s);
        }
      } else {
        assert zeros + s == "0" + s;
      }
    }
  }

  /**
   * The generated code is read back as the number it was made from: `MAN-` matches at its
   * start and the run of digits after it is the whole padded number.
   */
  lemma NextCodeReadsBack(logs: seq<MaintenanceLog>)
    ensures CodeNumber(NextCode(logs)) == Some(NextNumber(logs))
    ensures NextCode(logs)[..4] == CODE_PREFIX && |NextCode(logs)| >= 7
  {
    var digits := PadStart3(NatToString(NextNumber(logs)));
    var code := NextCode(logs);
    PadValue(NatToString(NextNumber(logs)));
    NatToStringValue(NextNumber(logs));
    assert code[4..] == digits;
    assert HasAt(code, 0, CODE_PREFIX);
    assert IsDigit(code[4]) by { assert code[4] == digits[0]; }
    assert CodeMatchAt(code, 0);
    assert FirstCodeMatch(code, 0) == Some(0);
    var n := DigitRun(code, 4);
    assert 4 + n == |code|;
    assert code[4..4 + n] == digits;
  }

  /** With no number yet, the first code is `MAN-001`. */
  lemma FirstCode(logs: seq<MaintenanceLog>)
    requires forall log :: log in logs ==> CodeNumber(log.code).None?
    ensures NextCode(logs) == "MAN-001"
  {
    NextNumberAbove(logs);
    assert NatToString(1) == "1";
  }

  /** After `MAN-007` comes `MAN-008`: the number is padded to three digits. */
  lemma PadsToThree(logs: seq<MaintenanceLog>)
    requires MaxNumber(logs, 0) == 7
    ensures NextCode(logs) == "MAN-008"
  {
    assert NatToString(8) == "8";
  }

  /** After `MAN-999` comes `MAN-1000`: a longer number is not cut. */
  lemma DoesNotTruncate(logs: seq<MaintenanceLog>)
    requires MaxNumber(logs, 0) == 999
    ensures NextCode(logs) == "MAN-1000"
  {
    assert NatToString(1) == "1";
    assert NatToString(10) == NatToString(1) + "0";
    assert NatToString(100) == NatToString(10) + "0";
    assert NatToString(1000) == NatToString(100) + "0";
  }

  // ---------------------------------------------------------------------------
  // Saving a record from the form.

  /** `{ ...log, ...data, status, stopType, time: data.startTime }`: the form's fields over the record. */
  function Merged(log: MaintenanceLog, data: FormData): MaintenanceLog {
    log.(code := data.code, equipmentCode := Some(data.equipmentCode), title := data.title,
         time := data.startTime, startDate := Some(data.startDate), startTime := Some(data.startTime),
         endDate := Some(data.endDate), endTime := Some(data.endTime), status := data.status,
         mechanic := Some(data.mechanic), totalHours := Some(data.totalHours),
         observations := Some(data.observations), stopType := Some(data.stopType))
  }

  /** The record built for a new entry: the form's fields, `time` from the start time, no `date`. */
  function NewLog(id: string, data: FormData): MaintenanceLog {
    MaintenanceLog(id, data.code, Some(data.equipmentCode), data.title, data.startTime, None,
                   Some(data.startDate), Some(data.startTime), Some(data.endDate), Some(data.endTime),
                   data.status, Some(data.mechanic), Some(data.totalHours), Some(data.observations),
                   Some(data.stopType))
  }

  /** `logs.map(log => log.id === id ? merged : log)`. */
  function Edited(logs: seq<MaintenanceLog>, id: string, data: FormData): (r: seq<MaintenanceLog>)
    ensures |r| == |logs|
  {
    seq(|logs|, i requires 0 <= i < |logs| => if logs[i].id == id then Merged(logs[i], data) else logs[i])
  }

  /**
   * An edit changes only the records with the edited id, in place: they keep their id and
   * `date`, take every field of the form and show the start time; every other record, the
   * length and the order are unchanged.
   */
  lemma EditedInPlace(logs: seq<MaintenanceLog>, id: string, data: FormData)
    ensures |Edited(logs, id, data)| == |logs|
    ensures forall i :: 0 <= i < |logs| && logs[i].id != id ==> Edited(logs, id, data)[i] == logs[i]
    ensures forall i :: 0 <= i < |logs| && logs[i].id == id ==>
              var r := Edited(logs, id, data)[i];
              r.id == id && r.date == logs[i].date && r.time == data.startTime && r.code == data.code
              && r.status == data.status && r.startDate == Some(data.startDate)
              && r.endDate == Some(data.endDate) && r.endTime == Some(data.endTime)
              && r.totalHours == Some(data.totalHours) && r.observations == Some(data.observations)
    ensures forall i :: 0 <= i < |logs| ==> Edited(logs, id, data)[i].id == logs[i].id
  {
  }

  /** Saving the same form twice over the same record gives what saving it once does. */
  lemma EditedIdempotent(logs: seq<MaintenanceLog>, id: string, data: FormData)
    ensures Edited(Edited(logs, id, data), id, data) == Edited(logs, id, data)
  {
  }

  /** The new record carries every field of the form in the record's own shape. */
  lemma NewLogFields(id: string, data: FormData)
    ensures var r := NewLog(id, data);
            r.id == id && r.time == data.startTime && r.date.None? && r.code == data.code
            && r.status == data.status && r.startTime == Some(data.startTime)
            && r.totalHours == Some(data.totalHours) && r.stopType == Some(data.stopType)
    ensures forall log :: Merged(log, data) == NewLog(log.id, data).(date := log.date)
  {
  }

  /** `log => log.id !== id`. */
  function IdIsNot(id: string): MaintenanceLog -> bool {
    (log: MaintenanceLog) => log.id != id
  }

  /**
   * Deleting keeps exactly the records with another id, in order and as often as before,
   * and no record with the id remains.
   */
  lemma DeletedExactly(logs: seq<MaintenanceLog>, id: string)
    ensures var r := Filter(logs, IdIsNot(id));
            IsSubsequence(r, logs) && (forall log :: log in r ==> log.id != id)
            && forall log: MaintenanceLog :: log.id != id ==> multiset(r)[log] == multiset(logs)[log]
  {
    FilterIsSubsequence(logs, IdIsNot(id));
    forall log: MaintenanceLog | log.id != id
      ensures multiset(Filter(logs, IdIsNot(id)))[log] == multiset(logs)[log]
    {
      FilterMultiplicity(logs, IdIsNot(id), log);
    }
  }

  // ---------------------------------------------------------------------------
  // The state.

  datatype Tab = Home | LogsTab | ConfigTab

  /** What the form is opened with: the next code for a new record, or the record to edit. */
  datatype FormProps = FormProps(initialCode: Option<string>, initialData: Option<MaintenanceLog>)

  class AppState {
    var logs: seq<MaintenanceLog>
    var selectedLog: Option<MaintenanceLog>
    var editingLog: Option<MaintenanceLog>
    var logFilter: Option<string>
    var currentTab: Tab
    var showForm: bool

    constructor (initialLogs: seq<MaintenanceLog>)
      ensures logs == initialLogs && selectedLog.None? && editingLog.None? && logFilter.None?
      ensures currentTab == Home && !showForm
    {
      logs := initialLogs;
      selectedLog, editingLog, logFilter := None, None, None;
      currentTab, showForm := Home, false;
    }

    /** The props of the open form (App.tsx:255-256). */
    function Props(): (p: FormProps)
      reads this
      ensures p.initialData == editingLog
      ensures p.initialCode.Some? <==> editingLog.None?
      ensures p.initialCode.Some? ==> CodeNumber(p.initialCode.value) == Some(NextNumber(logs))
    {
      NextCodeReadsBack(logs);
      if editingLog.Some? then FormProps(None, editingLog) else FormProps(Some(NextCode(logs)), None)
    }

    /**
     * `handleSaveLog`: an edit rewrites the records with the edited id in place and ends the
     * edit; a new record goes to the front with the fresh `newId`. The form closes either way.
     */
    method SaveLog(data: FormData, newId: string)
      modifies this
      ensures old(editingLog).Some? ==> logs == Edited(old(logs), old(editingLog).value.id, data) && editingLog.None?
      ensures old(editingLog).None? ==> logs == [NewLog(newId, data)] + old(logs) && editingLog.None?
      ensures !showForm
      ensures selectedLog == old(selectedLog) && logFilter == old(logFilter) && currentTab == old(currentTab)
    {
      if editingLog.Some? {
        logs := Edited(logs, editingLog.value.id, data);
        editingLog := None;
      } else {
        logs := [NewLog(newId, data)] + logs;
      }
      showForm := false;
    }

    /** `handleDeleteLog`: the records with the id go, and so does the detail view if it shows one. */
    method DeleteLog(id: string)
      modifies this
      ensures logs == Filter(old(logs), IdIsNot(id))
      ensures selectedLog == if old(selectedLog).Some? && old(selectedLog).value.id == id then None else old(selectedLog)
      ensures editingLog == old(editingLog) && logFilter == old(logFilter)
      ensures currentTab == old(currentTab) && showForm == old(showForm)
    {
      logs := Filter(logs, IdIsNot(id));
      if selectedLog.Some? && selectedLog.value.id == id {
        selectedLog := None;
      }
    }

    /** `onTabChange`: any tab but the list clears the filter. */
    method ChangeTab(tab: Tab)
      modifies this
      ensures currentTab == tab
      ensures logFilter == if tab == LogsTab then old(logFilter) else None
      ensures logs == old(logs) && selectedLog == old(selectedLog) && editingLog == old(editingLog)
      ensures showForm == old(showForm)
    {
      currentTab := tab;
      if tab != LogsTab {
        logFilter := None;
      }
    }

    /** `handleFilterClick`: the list opens filtered to one status. */
    method FilterClick(status: string)
      modifies this
      ensures logFilter == Some(status) && currentTab == LogsTab
      ensures logs == old(logs) && selectedLog == old(selectedLog) && editingLog == old(editingLog)
      ensures showForm == old(showForm)
    {
      logFilter := Some(status);
      currentTab := LogsTab;
    }

    /** `onSeeAll` of the dashboard and `onClose` of the list: both drop the filter. */
    method SeeAll(tab: Tab)
      requires tab == LogsTab || tab == Home
      modifies this
      ensures logFilter.None? && currentTab == tab
      ensures logs == old(logs) && selectedLog == old(selectedLog) && editingLog == old(editingLog)
      ensures showForm == old(showForm)
    {
      logFilter := None;
      currentTab := tab;
    }

    /** `handleEditClick`: the detail view closes and the form opens on the record. */
    method EditClick(log: MaintenanceLog)
      modifies this
      ensures selectedLog.None? && editingLog == Some(log) && showForm
      ensures logs == old(logs) && logFilter == old(logFilter) && currentTab == old(currentTab)
    {
      selectedLog := None;
      editingLog := Some(log);
      showForm := true;
    }

    /** `onNewRecord`: the form opens on a new record. */
    method NewRecord()
      modifies this
      ensures editingLog.None? && showForm
      ensures logs == old(logs) && selectedLog == old(selectedLog) && logFilter == old(logFilter)
      ensures currentTab == old(currentTab)
    {
      editingLog := None;
      showForm := true;
    }

    /** The form's `onClose`: it closes and any edit ends. */
    method CloseForm()
      modifies this
      ensures editingLog.None? && !showForm
      ensures logs == old(logs) && selectedLog == old(selectedLog) && logFilter == old(logFilter)
      ensures currentTab == old(currentTab)
    {
      showForm := false;
      editingLog := None;
    }
  }
}

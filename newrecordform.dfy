/**
 * The state of the record form (components/NewRecordForm.tsx) and the handlers that change
 * it: the initial state, the field inputs, the status selector that fills in the end of the
 * job on completion, the hours-refresh effect, the observations effect and the submit.
 *
 * The form's reading of its date and time fields is a parameter: with `AsWritten` the form is
 * the source's, with `Intended` it is the corrected form (see module `FormHours`).
 *
 * The clock is a parameter: `today` and `currentTime` are what the form computes on the
 * render that handles an input, `now` is the clock reading of a refresh. The effects run when
 * their caller invokes them; React's scheduling of them is not modelled.
 */
module NewRecordForm {
  import opened Wrappers
  import opened TextUtil
  import opened Types
  import opened FormHours
  import opened FormObservations

  const DEFAULT_CODE: string := "MAN-"
  const DEFAULT_STATUS: string := "PENDENTE"
  const DEFAULT_HOURS: string := "0.00"
  const MECHANICAL_STOP: string := "PARADA MECÂNICA"
  const OPPORTUNITY: string := "OPORTUNIDADE"

  /** The `formData` record the form keeps and submits. */
  datatype FormData = FormData(
    code: string,
    equipmentCode: string,
    title: string,
    status: string,
    startDate: string,
    startTime: string,
    endDate: string,
    endTime: string,
    mechanic: string,
    totalHours: string,
    observations: string,
    stopType: string)

  /** The inputs of the form, each bound to one field. */
  datatype Input = Code | EquipmentCode | Title | Observations | Mechanic
                 | StartDate | EndDate | StartTime | EndTime

  /** The two buttons of the stop-type choice. */
  datatype StopChoice = Mechanical | Opportunity {
    function Text(): string {
      match this
      case Mechanical => MECHANICAL_STOP
      case Opportunity => OPPORTUNITY
    }
  }

  /** `value || fallback` on a text that may be absent. */
  function OrElse(value: Option<string>, fallback: string): string {
    if value.Some? && value.value != "" then value.value else fallback
  }

  /** `value || fallback` on a text that is present whenever the record is. */
  function TextOrElse(value: string, fallback: string): string {
    if value != "" then value else fallback
  }

  /** The state `useState` starts from: the record being edited, or the defaults. */
  function InitialData(initialCode: Option<string>, initial: Option<MaintenanceLog>, today: string,
                       currentTime: string): FormData
  {
    match initial
    case None =>
      FormData(OrElse(initialCode, DEFAULT_CODE), "", "", DEFAULT_STATUS, today, currentTime, today, "",
               "", DEFAULT_HOURS, "", MECHANICAL_STOP)
    case Some(log) =>
      FormData(TextOrElse(log.code, OrElse(initialCode, DEFAULT_CODE)),
               OrElse(log.equipmentCode, ""),
               TextOrElse(log.title, ""),
               TextOrElse(log.status, DEFAULT_STATUS),
               OrElse(log.startDate, today),
               OrElse(log.startTime, currentTime),
               OrElse(log.endDate, today),
               OrElse(log.endTime, ""),
               OrElse(log.mechanic, ""),
               OrElse(log.totalHours, DEFAULT_HOURS),
               OrElse(log.observations, ""),
               OrElse(log.stopType, MECHANICAL_STOP))
  }

  /** Which inputs upper-case what is typed: the text inputs, not the date and time pickers. */
  predicate UpperCased(input: Input) {
    input in {Code, EquipmentCode, Title, Observations, Mechanic}
  }

  /** The record after `input` receives `text`. */
  function WithInput(d: FormData, input: Input, text: string): FormData {
    match input
    case Code => d.(code := Upper(text))
    case EquipmentCode => d.(equipmentCode := Upper(text))
    case Title => d.(title := Upper(text))
    case Observations => d.(observations := Upper(text))
    case Mechanic => d.(mechanic := Upper(text))
    case StartDate => d.(startDate := text)
    case EndDate => d.(endDate := text)
    case StartTime => d.(startTime := text)
    case EndTime => d.(endTime := text)
  }

  class RecordForm {
    /** Whether the form edits an existing record (`initialData` was given). */
    const editing: bool
    /** How the hours computation reads the date and time fields. */
    const reading: Reading

    var code: string
    var equipmentCode: string
    var title: string
    var status: string
    var startDate: string
    var startTime: string
    var endDate: string
    var endTime: string
    var mechanic: string
    var totalHours: string
    var observations: string
    var stopType: string

    function Data(): FormData
      reads this
    {
      FormData(code, equipmentCode, title, status, startDate, startTime, endDate, endTime, mechanic,
               totalHours, observations, stopType)
    }

    /**
     * `calculateTotalHours()` on the current fields, in hundredths, at clock reading `now`, with
     * the form's reading of the fields.
     */
    function Hours(now: int): nat
      reads this
    {
      TotalHundredths(reading, startDate, startTime, endDate, endTime, status, now)
    }

    /**
     * A browser form does not submit while a `required` input is empty: the code, the
     * equipment code, the title and the start always, the end fields while the job is completed.
     */
    predicate Missing()
      reads this
    {
      code == "" || equipmentCode == "" || title == "" || startDate == "" || startTime == ""
      || (status == COMPLETED && (endDate == "" || endTime == ""))
    }

    constructor (reading: Reading, initialCode: Option<string>, initial: Option<MaintenanceLog>, today: string,
                 currentTime: string)
      ensures editing == initial.Some? && this.reading == reading
      ensures Data() == InitialData(initialCode, initial, today, currentTime)
    {
      var d := InitialData(initialCode, initial, today, currentTime);
      editing := initial.Some?;
      this.reading := reading;
      code, equipmentCode, title, status := d.code, d.equipmentCode, d.title, d.status;
      startDate, startTime, endDate, endTime := d.startDate, d.startTime, d.endDate, d.endTime;
      mechanic, totalHours, observations, stopType := d.mechanic, d.totalHours, d.observations, d.stopType;
    }

    /**
     * A change of one input. The end date and time are disabled unless the job is completed,
     * so they only change then.
     */
    method Edit(input: Input, text: string)
      modifies this
      ensures (input == EndDate || input == EndTime) && old(status) != COMPLETED ==> Data() == old(Data())
      ensures !((input == EndDate || input == EndTime) && old(status) != COMPLETED) ==>
                Data() == WithInput(old(Data()), input, text)
    {
      match input
      case Code => code := Upper(text);
      case EquipmentCode => equipmentCode := Upper(text);
      case Title => title := Upper(text);
      case Observations => observations := Upper(text);
      case Mechanic => mechanic := Upper(text);
      case StartDate => startDate := text;
      case StartTime => startTime := text;
      case EndDate => if status == COMPLETED { endDate := text; }
      case EndTime => if status == COMPLETED { endTime := text; }
    }

    /** A click on one of the stop-type buttons. */
    method ChooseStop(choice: StopChoice)
      modifies this
      ensures Data() == old(Data()).(stopType := choice.Text())
    {
      stopType := choice.Text();
    }

    /**
     * The status selector: completing the job sets its end to the render's date and time;
     * any other status leaves the end fields as they were.
     */
    method ChangeStatus(newStatus: string, today: string, currentTime: string)
      modifies this
      ensures newStatus == COMPLETED ==>
                Data() == old(Data()).(status := newStatus, endDate := today, endTime := currentTime)
      ensures newStatus != COMPLETED ==> Data() == old(Data()).(status := newStatus)
    {
      status := newStatus;
      if newStatus == COMPLETED {
        endDate := today;
        endTime := currentTime;
      }
    }

    /**
     * The hours-refresh effect (and each minute's tick while awaiting parts): the hours text
     * becomes the current total, and it reads back as that total.
     */
    method RecomputeHours(now: int)
      modifies this
      ensures Data() == old(Data()).(totalHours := FormatHundredths(old(Hours(now))))
      ensures ParseHundredths(totalHours) == Some(Hours(now)) && IsHoursText(totalHours)
    {
      var total := FormatHundredths(TotalHundredths(reading, startDate, startTime, endDate, endTime, status, now));
      if totalHours != total {
        totalHours := total;
      }
      FormatParse(Hours(now));
    }

    /**
     * The observations effect. The result is upper case and carries the awaiting tag while
     * awaiting parts. When the hours text is a number and the text was upper case before,
     * running the effect again with the same status and hours changes nothing.
     */
    method RecomputeObservations()
      modifies this
      ensures Data() == old(Data()).(observations := UpdatedObservations(old(observations), status, totalHours))
      ensures IsUpper(observations)
      ensures status == AWAITING_PARTS ==> Contains(observations, AWAITING_TAG)
      ensures IsHoursText(totalHours) && IsUpper(old(observations)) ==>
                UpdatedObservations(observations, status, totalHours) == observations
    {
      var newObs := observations;
      if status == AWAITING_PARTS {
        if !Contains(newObs, AWAITING_TAG) {
          newObs := Append(newObs, AWAITING_TAG);
        }
      }
      assert newObs == TagAwaiting(observations, status);
      if Contains(newObs, MARKER) {
        newObs := ReplaceFirst(newObs, TotalTag(totalHours));
      } else if status == COMPLETED {
        newObs := Append(newObs, TotalTag(totalHours));
      }
      var upper := Upper(newObs);
      ghost var o := observations;
      if upper != observations {
        observations := upper;
      }
      ObservationsUpper(o, status, totalHours);
      if status == AWAITING_PARTS {
        AwaitingTagStored(o, status, totalHours);
      }
      if IsHoursText(totalHours) && IsUpper(o) {
        ObservationsIdempotent(o, status, totalHours);
      }
    }

    /**
     * A submit: the record handed to `onSubmit`, or none when a required input is empty (the
     * browser does not call `handleSubmit`) or an edit is not confirmed (`confirmed` is the
     * answer to the confirmation dialog, asked only when editing).
     */
    function Submitted(confirmed: bool): (r: Option<FormData>)
      reads this
      ensures r.None? <==> Missing() || (editing && !confirmed)
      ensures r.Some? ==> r.value == Data() && Data().code != "" && Data().title != ""
      ensures r.Some? && status == COMPLETED ==> Data().endDate != "" && Data().endTime != ""
    {
      if Missing() || (editing && !confirmed) then None else Some(Data())
    }
  }

  /** A new form: the given code or `MAN-`, start and end date today, no end time, zero hours. */
  lemma NewFormDefaults(initialCode: Option<string>, today: string, currentTime: string)
    ensures var d := InitialData(initialCode, None, today, currentTime);
            d.code == (if initialCode.Some? && initialCode.value != "" then initialCode.value else DEFAULT_CODE)
            && d.status == DEFAULT_STATUS && d.startDate == today && d.endDate == today
            && d.startTime == currentTime && d.endTime == "" && d.totalHours == DEFAULT_HOURS
            && d.observations == "" && d.stopType == MECHANICAL_STOP
  {
  }

  /**
   * The defaults agree with the computation: a new form has no end time and is not awaiting
   * parts, so its total is zero, which is the `0.00` it starts with.
   */
  lemma NewFormHoursAgree(reading: Reading, initialCode: Option<string>, today: string, currentTime: string, now: int)
    ensures var d := InitialData(initialCode, None, today, currentTime);
            TotalHundredths(reading, d.startDate, d.startTime, d.endDate, d.endTime, d.status, now) == 0
            && FormatHundredths(0) == d.totalHours
  {
    var d := InitialData(initialCode, None, today, currentTime);
    assert d.status != AWAITING_PARTS;
    NoEndNoHours(reading, d.startDate, d.startTime, d.endDate, d.endTime, d.status, now);
    ZeroText();
  }

  /** Editing keeps every non-empty field of the record and falls back only for empty ones. */
  lemma EditKeepsFields(initialCode: Option<string>, log: MaintenanceLog, today: string, currentTime: string)
    ensures var d := InitialData(initialCode, Some(log), today, currentTime);
            (log.code != "" ==> d.code == log.code)
            && (log.title != "" ==> d.title == log.title)
            && (log.status != "" ==> d.status == log.status)
            && (!Blank(log.startDate) ==> d.startDate == log.startDate.value)
            && (!Blank(log.startTime) ==> d.startTime == log.startTime.value)
            && (!Blank(log.endDate) ==> d.endDate == log.endDate.value)
            && (!Blank(log.endTime) ==> d.endTime == log.endTime.value)
            && (!Blank(log.totalHours) ==> d.totalHours == log.totalHours.value)
            && (!Blank(log.observations) ==> d.observations == log.observations.value)
            && (Blank(log.startDate) ==> d.startDate == today)
            && (Blank(log.endTime) ==> d.endTime == "")
  {
  }

  /** The text inputs hold upper-case text, whatever is typed into them. */
  lemma InputsUpperCase(d: FormData, input: Input, text: string)
    ensures var e := WithInput(d, input, text);
            (input == Code ==> IsUpper(e.code))
            && (input == EquipmentCode ==> IsUpper(e.equipmentCode))
            && (input == Title ==> IsUpper(e.title))
            && (input == Observations ==> IsUpper(e.observations))
            && (input == Mechanic ==> IsUpper(e.mechanic))
            && (!UpperCased(input) ==> e.code == d.code && e.observations == d.observations)
  {
    UpperIsUpper(text);
  }
}

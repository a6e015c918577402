# Maintenance log: a verified model of its rules

The application records machine-maintenance jobs. Each job is a record: a `MAN-<n>` code, an
equipment code, a status, start and end date and time, the hours worked and free-text
observations. A handful of rules sit inside its React components, and this project models them
in Dafny and proves what they do:

- the record form works out the hours between the start and the end of a job;
- the form's observations get an `AGUARDANDO PEÇA` tag and a `TOTAL DE HORAS: <n>H` tag;
- selecting `CONCLUÍDO` fills in the end date and time;
- the application shell generates codes and saves, edits and deletes records in its list;
- the staleness alert collects jobs that have been awaiting parts for an hour or more;
- the date-text converters turn dates into `DD/MM/YYYY` and back to `YYYY-MM-DD`;
- the settings page edits the mechanics and equipment lookup lists;
- the list view filters by status, and the dashboard counts jobs.

Instants are integer milliseconds. JavaScript's `Date` is modelled in module `JsDate`:
`MakeDay`, `MakeTime` and `TimeClip` with the month and day overflow of the multi-argument
constructor, and `setMonth`. Local time is taken to be UTC. Hours are integer hundredths, with
the rounding `toFixed(2)` does. `toUpperCase` upper-cases the ASCII letters and the Latin-1
letters `à` to `þ`, which covers Portuguese text.

Modules, one per source file or shared concern:

- `Wrappers`: `Option`.
- `Types`: the records, statuses and roles of `types.ts`.
- `TextUtil`: digit strings, `split`, `includes`, `toUpperCase`.
- `Seqs`: `filter` and what it keeps.
- `JsDate`: the `Date` arithmetic.
- `Instants`: the two ways the components read a date and a time.
- `FormHours`: `calculateTotalHours`.
- `FormObservations`: the observations effect as a text transformation.
- `NewRecordForm`: the form's state as a class.
- `App`: the code generator and the record list as a class.
- `MaintenanceAlert`: the alert sweep and its panel.
- `DateUtils`: the date-text converters.
- `Config`: the settings page as a class.
- `LogsView`: the list view.
- `Dashboard`: the counters.

Three behaviours of the code are easy to miss, and the model keeps them:

- Without parts pending, the hours are computed from the end fields for ANY status, not only
  for `CONCLUÍDO`.
- The tags are matched case-sensitively, before the text is upper-cased. A hand-typed
  `TOTAL DE HORAS: 5h` is therefore only upper-cased by the first pass and rewritten by the
  second (`FormObservations.LowerCaseTagChangesTwice`). The effect is idempotent on upper-case
  text, which is what every input of the form stores (`FormObservations.ObservationsIdempotent`).
- An unparsable start does not leave the observations alone: the observations effect runs on
  its own trigger and applies its tags whatever the hours are.

## Model

| member | source | states |
|---|---|---|
| `Types.MaintenanceStatus.Text` | types.ts:2-6 | The three status texts: `CONCLUÍDO` for completed and `AGUARDANDO PEÇA` for awaiting parts, and no other value maps to either. |
| `DateUtils.FormatDateToBR` | utils/dateUtils.ts:6-23 | `formatDateToBR`: the display text is never empty, and a stored date keeps its length on conversion. |
| `DateUtils.NormalizeToISO` | utils/dateUtils.ts:28-42 | `normalizeToISO`: the stored text has the length of the given text, and is empty without one. |
| `DateUtils.MissingDate` | utils/dateUtils.ts:7-29 | An absent or empty date is `N/A` for the Brazilian format (line 7) and empty for the ISO format (line 29). |
| `DateUtils.FormatKeepsBrDates` | utils/dateUtils.ts:10-13 | `DD/MM/YYYY` and `DD/MM` texts come back unchanged. |
| `DateUtils.FormatReordersIsoDate` | utils/dateUtils.ts:16-20 | `YYYY-MM-DD` becomes `DD/MM/YYYY` by moving the digit groups, with no range check. |
| `DateUtils.NormalizeReordersBrDate` | utils/dateUtils.ts:32-36 | `DD/MM/YYYY` becomes `YYYY-MM-DD` by moving the digit groups. |
| `DateUtils.OtherTextUnchanged` | utils/dateUtils.ts:22-41 | Any other non-empty text comes back unchanged from both converters. |
| `DateUtils.IsoRoundTrip` | utils/dateUtils.ts:16-36 | Converting an ISO date to the Brazilian format and back gives the ISO date. |
| `DateUtils.BrRoundTrip` | utils/dateUtils.ts:16-36 | Converting a Brazilian date to ISO and back gives the Brazilian date. |
| `DateUtils.FormatIdempotent` | utils/dateUtils.ts:6-23 | Converting to the Brazilian format twice is converting once. |
| `DateUtils.NormalizeIdempotent` | utils/dateUtils.ts:28-42 | Converting to ISO twice is converting once. |
| `Instants.FormInstantOfDigits` | components/NewRecordForm.tsx:43-48 | Digit fields `Y-M-D` and `H:MIN` give the form's instant for those numbers. |
| `Instants.AlertInstantOfDigits` | components/MaintenanceAlert.tsx:23-25 | Digit fields `Y-M-D` and `H:MIN` give the alert's instant `new Date(Y, M-1, D, H, MIN)`. |
| `Instants.MonthBackDay` | components/NewRecordForm.tsx:48 | Moving the constructed day back one month lands on the written day, with a `FormShift` of days added when that day does not exist in the following month. |
| `Instants.FormInstantExact` | components/NewRecordForm.tsx:43-48 | For a real date and time of day, the form's instant is the written day plus `FormShift` (0 to 3) days, at the written time. |
| `Instants.FormVersusAlert` | components/NewRecordForm.tsx:43-48 | The form's instant is the alert's plus `FormShift` days; they agree exactly when the day exists in the following calendar month. |
| `Instants.AlertInstantExact` | components/MaintenanceAlert.tsx:25 | The alert's instant is the written calendar day and time. |
| `FormHours.TotalHundredths` | components/NewRecordForm.tsx:37-73 | `calculateTotalHours`: a positive total needs both start fields, a valid start and an end, which is the clock while awaiting parts and otherwise both end fields. |
| `FormHours.RoundHundredths` | components/NewRecordForm.tsx:68-69 | The nearest hundredth of an hour, a tie going up. |
| `FormHours.TotalIsElapsed` | components/NewRecordForm.tsx:37-73 | The total is the rounded time from start to end when both are valid and the end is not earlier; otherwise it is zero. |
| `FormHours.NoStartNoHours` | components/NewRecordForm.tsx:38-40 | No start date or no start time gives zero. |
| `FormHours.NoEndNoHours` | components/NewRecordForm.tsx:53-61 | Not awaiting parts and missing an end field gives zero, whatever the status. |
| `FormHours.AwaitingIgnoresEnd` | components/NewRecordForm.tsx:51-52 | While awaiting parts the end fields do not matter: the end is the clock reading. |
| `FormHours.AwaitingHoursGrow` | components/NewRecordForm.tsx:51-69 | While awaiting parts, a later clock reading never gives fewer hours. |
| `FormHours.WholeMinutes` | components/NewRecordForm.tsx:68-69 | For whole minutes the total is within one third of 5·minutes/3 hundredths and never a tie. |
| `FormHours.FormatHundredths` | components/NewRecordForm.tsx:69 | `toFixed(2)` writes at least four characters, all digits or a point. |
| `FormHours.FormatParse` | components/NewRecordForm.tsx:69 | The text written for n hundredths reads back as n. |
| `FormHours.ZeroText` | components/NewRecordForm.tsx:39 | Zero hundredths is written `0.00`. |
| `FormHours.MonthEndJobWritten` | components/NewRecordForm.tsx:43-69 | As written, a job from the 31st of January to the 1st of February at the same time shows 0 hours. |
| `FormHours.MonthEndJobIntended` | components/NewRecordForm.tsx:43-69 | With the intended reading the same job shows 24.00 hours. |
| `FormHours.January31Job2024` | components/NewRecordForm.tsx:43-69 | The fields `2024-01-31` and `2024-02-01` at `08:00` give 0 as written and 2400 hundredths as intended. |
| `FormHours.IntendedReadsWrittenDate` | components/NewRecordForm.tsx:43-48 | The intended reading of a real date and time is that calendar day at that time. |
| `FormObservations.UpdatedObservations` | components/NewRecordForm.tsx:100-123 | The observations effect's result, upper case; the rows below state what it does to the tags. |
| `FormObservations.RunLength` | components/NewRecordForm.tsx:115 | The run of `[\d.]` characters from a position is maximal. |
| `FormObservations.FirstMatch` | components/NewRecordForm.tsx:115 | The leftmost match of the hours pattern, or none when no position matches. |
| `FormObservations.TagAwaitingAdds` | components/NewRecordForm.tsx:106-110 | While awaiting parts the text ends up with the awaiting tag; a text that has it, or any other status, is left alone; the old text stays in front. |
| `FormObservations.ReplacedFirst` | components/NewRecordForm.tsx:115 | Only the first hours tag is rewritten: text before and after it is kept and the new tag is the first match. |
| `FormObservations.ReplaceIdempotent` | components/NewRecordForm.tsx:115 | Rewriting the first tag twice with the same hours is rewriting once. |
| `FormObservations.AppendedFirst` | components/NewRecordForm.tsx:116-117 | On completion without a marker, the tag is joined with ` \| ` (or stands alone) and is the first match. |
| `FormObservations.UpsertWritesHours` | components/NewRecordForm.tsx:114-118 | When a match is there, or on completion without a marker, the first tag afterwards carries the current hours. |
| `FormObservations.UpsertWithoutMatch` | components/NewRecordForm.tsx:114-115 | A marker without a full match leaves the text unchanged, whatever the status. |
| `FormObservations.UpsertIdempotent` | components/NewRecordForm.tsx:114-118 | The upsert twice with the same status and hours is the upsert once. |
| `FormObservations.AwaitingTagSurvives` | components/NewRecordForm.tsx:115 | Rewriting the hours tag keeps the awaiting tag. |
| `FormObservations.UpsertKeepsAwaitingTag` | components/NewRecordForm.tsx:105-118 | The upsert keeps the awaiting tag, so a second pass adds no second one. |
| `FormObservations.ObservationsUpper` | components/NewRecordForm.tsx:120-121 | The stored text is upper case. |
| `FormObservations.AwaitingTagStored` | components/NewRecordForm.tsx:105-122 | While awaiting parts the stored text carries the awaiting tag. |
| `FormObservations.ObservationsIdempotent` | components/NewRecordForm.tsx:100-123 | On upper-case text, a second pass with the same status and hours changes nothing. |
| `FormObservations.ObservationsSettle` | components/NewRecordForm.tsx:100-123 | On any text, passes after the first change nothing. |
| `FormObservations.LowerCaseTagChangesTwice` | components/NewRecordForm.tsx:114-122 | `TOTAL DE HORAS: 5h` is upper-cased by the first pass and rewritten by the second. |
| `NewRecordForm.RecordForm.constructor` | components/NewRecordForm.tsx:22-35 | The form starts from the edited record, field by field falling back to the defaults, with the given reading of its date fields. |
| `NewRecordForm.NewFormDefaults` | components/NewRecordForm.tsx:22-35 | A new form has the given code or `MAN-`, `PENDENTE`, start and end date today, no end time, `0.00` and a mechanical stop. |
| `NewRecordForm.NewFormHoursAgree` | components/NewRecordForm.tsx:26-40 | Under either reading, a new form's computed total is zero, which is the `0.00` it starts with. |
| `NewRecordForm.EditKeepsFields` | components/NewRecordForm.tsx:22-35 | Editing keeps every non-empty field of the record. |
| `NewRecordForm.InputsUpperCase` | components/NewRecordForm.tsx:171-226 | The text inputs store upper-case text. |
| `NewRecordForm.RecordForm.Edit` | components/NewRecordForm.tsx:171-333 | An input changes its own field only; the end fields change only while the job is completed. |
| `NewRecordForm.RecordForm.ChooseStop` | components/NewRecordForm.tsx:248 | A stop-type button sets the stop type and nothing else. |
| `NewRecordForm.RecordForm.ChangeStatus` | components/NewRecordForm.tsx:262-271 | `CONCLUÍDO` sets the end date and time to the render's date and time; any other status leaves them. |
| `NewRecordForm.RecordForm.RecomputeHours` | components/NewRecordForm.tsx:75-86 | The hours text becomes the current total under the form's reading (`AsWritten` for the source's form), reads back as that total, and nothing else changes. |
| `NewRecordForm.RecordForm.RecomputeObservations` | components/NewRecordForm.tsx:100-123 | The observations become the effect's result, upper case, with the awaiting tag while awaiting parts, and stable under a second run. |
| `NewRecordForm.RecordForm.Submitted` | components/NewRecordForm.tsx:125-135 | Nothing is handed over while a `required` input is empty (code, equipment code, title, start date and time at lines 174-318; the end fields while completed, lines 305 and 333) or when an edit is not confirmed; otherwise the form's data is. |
| `App.NextCode` | App.tsx:164-174 | `getNextId`: the code starts with `MAN-` and has at least three digits after it. |
| `App.FirstCodeMatch` | App.tsx:166 | The leftmost `MAN-<digit>` position of a code, or none. |
| `App.DigitRun` | App.tsx:166 | The greedy `\d+`: the maximal run of digits. |
| `App.MaxNumberIsMaximum` | App.tsx:165-172 | The fold gives the largest extracted number, or its start when that is larger. |
| `App.NextNumberAbove` | App.tsx:165-173 | The next number exceeds every extracted number, and is 1 without any. |
| `App.NextNumberAttained` | App.tsx:165-172 | The next number is one more than an extracted number, or 1. |
| `App.PadStart3` | App.tsx:173 | Zeros in front up to three characters; a longer text is kept whole. |
| `App.NextCodeReadsBack` | App.tsx:166-173 | The generated code extracts back to the number it was made from. |
| `App.FirstCode` | App.tsx:165-173 | With no `MAN-` numbers the next code is `MAN-001`. |
| `App.PadsToThree` | App.tsx:173 | After 7 comes `MAN-008`. |
| `App.DoesNotTruncate` | App.tsx:173 | After 999 comes `MAN-1000`. |
| `App.EditedInPlace` | App.tsx:124-133 | An edit changes only the records with the edited id, in place, and their `time` becomes the start time. |
| `App.EditedIdempotent` | App.tsx:124-132 | Saving the same edit twice is saving it once. |
| `App.NewLogFields` | App.tsx:137-152 | A new record carries the form's fields, with `time` from the start time. |
| `App.DeletedExactly` | App.tsx:177 | Deleting keeps exactly the records with another id, in order and as often as before. |
| `App.AppState.constructor` | App.tsx:96-101 | The shell starts on the home tab, without filter, selection, edit or form. |
| `App.AppState.Props` | App.tsx:255-256 | The form gets the next code for a new record, or the edited record without a code. |
| `App.AppState.SaveLog` | App.tsx:121-156 | An edit rewrites the list in place and ends the edit; a new record goes to the front; the form closes. |
| `App.AppState.DeleteLog` | App.tsx:176-181 | The records with the id go; the detail view closes only if it shows that id. |
| `App.AppState.ChangeTab` | App.tsx:198-201 | Any tab but the list clears the filter. |
| `App.AppState.FilterClick` | App.tsx:116-119 | A counter card opens the list filtered to its status. |
| `App.AppState.SeeAll` | App.tsx:213-230 | "See all" and closing the list drop the filter. |
| `App.AppState.EditClick` | App.tsx:158-162 | Editing from the detail view closes it and opens the form on the record. |
| `App.AppState.NewRecord` | App.tsx:207-210 | A new record opens the form without an edited record. |
| `App.AppState.CloseForm` | App.tsx:250-253 | Closing the form ends any edit. |
| `MaintenanceAlert.CheckAlerts` | components/MaintenanceAlert.tsx:14-39 | `checkAlerts`: every alert is a record of the list that qualifies, and there are no more alerts than records. |
| `MaintenanceAlert.AlertsAreQualifying` | components/MaintenanceAlert.tsx:16-32 | A record alerts exactly when it awaits parts, has both start fields and a valid start, and an hour has gone. |
| `MaintenanceAlert.AlertsInOrder` | components/MaintenanceAlert.tsx:16-38 | The alerts are a subsequence of the records. |
| `MaintenanceAlert.OneHourBoundary` | components/MaintenanceAlert.tsx:29-32 | Sixty minutes alerts, fifty-nine does not. |
| `MaintenanceAlert.AlertsPersist` | components/MaintenanceAlert.tsx:29-32 | An alert stays at every later check of the same list. |
| `MaintenanceAlert.JsRem` | components/MaintenanceAlert.tsx:58 | JavaScript's `%`: the remainder has the sign of the dividend, is smaller than the divisor, and differs from the dividend by a multiple of it. |
| `MaintenanceAlert.ElapsedSplits` | components/MaintenanceAlert.tsx:56-58 | Hours and minutes 0 to 59 that make up the whole minutes of the interval. |
| `MaintenanceAlert.NinetyMinutes` | components/MaintenanceAlert.tsx:57-58 | Ninety minutes shows as 1 hour 30 minutes. |
| `MaintenanceAlert.Lines` | components/MaintenanceAlert.tsx:50-58 | One line per alert, in order. |
| `MaintenanceAlert.AlertPanel.constructor` | components/MaintenanceAlert.tsx:11 | The panel starts without alerts. |
| `MaintenanceAlert.AlertPanel.Tick` | components/MaintenanceAlert.tsx:14-42 | Each check recomputes the alerts from scratch. |
| `MaintenanceAlert.AlertPanel.Render` | components/MaintenanceAlert.tsx:46-50 | Nothing is shown without alerts; otherwise one line each. |
| `MaintenanceAlert.LinesAfterCheck` | components/MaintenanceAlert.tsx:50-58 | Every line shown after a check has at least one hour and 0 to 59 minutes. |
| `Config.AddKeepsNoDuplicates` | components/Config.tsx:22-23 | Adding an absent value keeps a list free of duplicates. |
| `Config.RemoveKeepsNoDuplicates` | components/Config.tsx:29 | Removing keeps a list free of duplicates. |
| `Config.RemoveDropsAll` | components/Config.tsx:28-30 | Removing drops every equal entry and keeps the others in order. |
| `Config.SavedListsUnchanged` | components/Config.tsx:43-47 | With the lists equal to the given ones, only the operator and unit count as changes. |
| `Config.ConfigPage.constructor` | components/Config.tsx:13-19 | The page starts with copies of the lists, the default operator and unit, and no changes. |
| `Config.ConfigPage.TypeEntry` | components/Config.tsx:89-127 | The entry inputs store upper-case text. |
| `Config.ConfigPage.Add` | components/Config.tsx:21-37 | A non-empty, absent upper-cased entry goes at the end and the input clears; otherwise nothing changes. |
| `Config.ConfigPage.Remove` | components/Config.tsx:28-41 | The list becomes the entries different from the name. |
| `Config.ConfigPage.SetProfile` | components/Config.tsx:72-159 | The operator is upper-cased; the unit is stored as chosen. |
| `Config.ConfigPage.Save` | components/Config.tsx:49-55 | Without changes nothing happens; otherwise both lists are handed over and the page shows that it saved. |
| `Config.ConfigPage.ReceiveLists` | App.tsx:236-240 | The application passes the lists it holds back to the page; the local copies stay. |
| `Config.ConfigPage.SavedFeedbackEnds` | components/Config.tsx:56 | The feedback after a save ends. |
| `LogsView.ShownLogs` | components/Logs.tsx:19-21 | The list shown: never longer than the records, and only records of the filtered status while a filter is set. |
| `LogsView.FilteredByStatus` | components/Logs.tsx:19-20 | With a filter, a record is shown exactly when it has that status. |
| `LogsView.ShownInOrder` | components/Logs.tsx:19-21 | The shown records are a subsequence of the list, and the list itself without a filter. |
| `LogsView.EmptyStateExactly` | components/Logs.tsx:85 | The empty state shows exactly when no record has the filtered status. |
| `LogsView.DeleteOnlyAdmin` | components/Logs.tsx:68-75 | A delete goes out only for an administrator who confirmed, and names the clicked record. |
| `Dashboard.CountersCount` | components/Dashboard.tsx:40-41 | The counters are the numbers of records awaiting parts and completed. |
| `Dashboard.CountersBounded` | components/Dashboard.tsx:40-41 | The two counters add up to at most the number of records. |
| `Dashboard.PendingMatchesList` | components/Dashboard.tsx:40 | The pending counter is the length of the list the pending card opens. |
| `Dashboard.CountersIgnoreOrder` | components/Dashboard.tsx:40-41 | Reordering the records changes neither counter. |

## Left out

- Backend sign-in, profile lookup and persistence (App.tsx:51-94, components/Login.tsx) are network calls. The role is a parameter.
- Timers are not modelled: the minute refreshes and the delayed resets (components/NewRecordForm.tsx:88-96, components/MaintenanceAlert.tsx:41-43, components/Config.tsx:56, App.tsx:243). A tick is an explicit call (`RecordForm.RecomputeHours`, `AlertPanel.Tick`) that takes the clock reading.
- The order in which React runs the two form effects is not modelled. Each effect is a method that its caller invokes.
- The clock and locale are parameters: `new Date()`, `toISOString` and `toLocaleTimeString` become `now`, `today` and `currentTime`, and `Date.now()` becomes the new record's `newId`.
- Time zones and daylight saving time are not modelled: local time is UTC.
- Floating point is not modelled: hours are integer hundredths rounded as `toFixed(2)` rounds the exact quotient.
- `toUpperCase` upper-cases only the ASCII letters and the Latin-1 letters `à` to `þ` (U+00E0 to U+00FE, without `÷`). `ß`, `µ` and `ÿ` are left unchanged, although JavaScript turns them into `SS`, `Μ` and `Ÿ`: the first doubles in length and the other two lie outside Latin-1. No other Unicode case mapping is modelled.
- `Number(...)` is modelled only for digit strings (the empty string gives 0) and as NaN for everything else. Signs, spaces and exponents in date fields are not modelled.
- App.getNextId: `parseInt` of more than 15 digits loses precision in JavaScript; the model reads such numbers exactly.
- `String.replace` is modelled with a literal replacement text. `$` patterns in the hours text are not interpreted, and the form never produces them.
- The `try`/`catch` blocks (components/NewRecordForm.tsx:42-72, components/MaintenanceAlert.tsx:21-35) catch nothing in the model: every operation modelled is total.
- The dialogs (`window.confirm`) become a boolean parameter.
- Rendering, styling and the presentation-only components (Layout, StatsCards, RecordDetails, RecentActivity, Login) are not modelled.
- App.AppState.constructor: the initial record list (App.tsx:12-45) and the lookup lists are parameters, not the constants the source holds. The lists of the settings page live in `Config.ConfigPage`.
- FormObservations.ObservationsIdempotent: requires the stored text to be upper case. On other text the effect can change the text on a second pass (`FormObservations.LowerCaseTagChangesTwice`).

## Findings

| source | as written | input that shows it | evidently intended | confidence | as-written member | corrected member |
|---|---|---|---|---|---|---|
| components/NewRecordForm.tsx:43-48 | The start and end are built as `new Date(y, m, d, h, min)`, which overflows into the month after the written one when day `d` does not exist there, and are then moved back with `setMonth(getMonth() - 1)`. | Completed job from `2024-01-31` `08:00` to `2024-02-01` `08:00`: the start lands on 2 February, after the end, and the form shows `0.00`. | `new Date(y, m - 1, d, h, min)`, as components/MaintenanceAlert.tsx:25 reads the same fields: the job lasted `24.00` hours. | not executed | `FormHours.MonthEndJobWritten` | `FormHours.MonthEndJobIntended` |

`NewRecordForm.RecordForm` takes the reading as a constructor argument: built with `AsWritten` it
is the source's form, built with `Intended` it is the corrected form. `Instants.FormVersusAlert`
states exactly where the two readings disagree. `FormHours.IntendedReadsWrittenDate` proves that
the intended reading names the written calendar day.

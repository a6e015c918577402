/**
 * The record list (components/Logs.tsx): the records shown under the active status filter,
 * the empty-state message, and the delete button that only administrators get.
 */
module LogsView {
  import opened Wrappers
  import opened Types
  import opened Seqs

  /** `activeFilter ? logs.filter(log => log.status === activeFilter) : logs`. */
  function ShownLogs(logs: seq<MaintenanceLog>, activeFilter: Option<string>): (r: seq<MaintenanceLog>)
    ensures |r| <= |logs|
    ensures activeFilter.Some? && activeFilter.value != "" ==> forall log :: log in r ==> log.status == activeFilter.value
  {
    if activeFilter.Some? && activeFilter.value != "" then Filter(logs, StatusIs(activeFilter.value)) else logs
  }

  /** The empty-state message is shown. */
  predicate ShowsEmptyState(logs: seq<MaintenanceLog>, activeFilter: Option<string>) {
    |ShownLogs(logs, activeFilter)| == 0
  }

  /** The delete button is rendered for the role. */
  predicate DeleteOffered(role: UserRole) {
    role == Admin
  }

  /** A click on the delete button: the id handed to `onDeleteLog`, if any. */
  function DeleteRequest(role: UserRole, log: MaintenanceLog, confirmed: bool): Option<string> {
    if DeleteOffered(role) && confirmed then Some(log.id) else None
  }

  /** With a filter, a record is shown exactly when it is in the list and has that status. */
  lemma FilteredByStatus(logs: seq<MaintenanceLog>, status: string, log: MaintenanceLog)
    requires status != ""
    ensures log in ShownLogs(logs, Some(status)) <==> log in logs && log.status == status
  {
    if log in logs && log.status == status {
      FilterKeeps(logs, StatusIs(status), log);
    }
  }

  /** The shown records keep the list's order, and there are no more of them than in the list. */
  lemma ShownInOrder(logs: seq<MaintenanceLog>, activeFilter: Option<string>)
    ensures IsSubsequence(ShownLogs(logs, activeFilter), logs)
    ensures |ShownLogs(logs, activeFilter)| <= |logs|
    ensures activeFilter.None? ==> ShownLogs(logs, activeFilter) == logs
  {
    if activeFilter.Some? && activeFilter.value != "" {
      FilterIsSubsequence(logs, StatusIs(activeFilter.value));
    } else {
      SubsequenceOfItself(logs);
    }
  }

  lemma {:induction false} SubsequenceOfItself<T>(s: seq<T>)
    ensures IsSubsequence(s, s)
    decreases |s|
  {
    if s != [] {
      SubsequenceOfItself(s[1..]);
    }
  }

  /** The empty state appears exactly when no record of the list has the filtered status. */
  lemma EmptyStateExactly(logs: seq<MaintenanceLog>, activeFilter: Option<string>)
    ensures ShowsEmptyState(logs, activeFilter) <==>
              if activeFilter.Some? && activeFilter.value != ""
              then forall log :: log in logs ==> log.status != activeFilter.value
              else logs == []
  {
    if activeFilter.Some? && activeFilter.value != "" {
      FilterEmpty(logs, StatusIs(activeFilter.value));
    }
  }

  /** A delete goes out only for an administrator who confirmed it, and names the clicked record. */
  lemma DeleteOnlyAdmin(role: UserRole, log: MaintenanceLog, confirmed: bool)
    ensures DeleteRequest(role, log, confirmed).Some? <==> role == Admin && confirmed
    ensures DeleteRequest(role, log, confirmed).Some? ==> DeleteRequest(role, log, confirmed).value == log.id
  {
  }
}

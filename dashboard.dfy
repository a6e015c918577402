/**
 * The counters of the dashboard (components/Dashboard.tsx:40-41): how many records await
 * parts and how many are completed.
 */
module Dashboard {
  import opened Wrappers
  import opened Types
  import opened Seqs
  import opened LogsView

  /** `logs.filter(l => l.status === 'AGUARDANDO PEÇA').length`. */
  function Pending(logs: seq<MaintenanceLog>): nat {
    |Filter(logs, StatusIs(AWAITING_PARTS))|
  }

  /** `logs.filter(l => l.status === 'CONCLUÍDO').length`. */
  function Completed(logs: seq<MaintenanceLog>): nat {
    |Filter(logs, StatusIs(COMPLETED))|
  }

  /** The number of records with a status, counted one record at a time. */
  function CountStatus(logs: seq<MaintenanceLog>, status: string): nat
    decreases |logs|
  {
    if logs == [] then 0 else (if logs[0].status == status then 1 else 0) + CountStatus(logs[1..], status)
  }

  lemma {:induction false} FilterCounts(logs: seq<MaintenanceLog>, status: string)
    ensures |Filter(logs, StatusIs(status))| == CountStatus(logs, status)
    decreases |logs|
  {
    if logs != [] {
      FilterCounts(logs[1..], status);
    }
  }

  /** The counters are the numbers of records awaiting parts and completed. */
  lemma CountersCount(logs: seq<MaintenanceLog>)
    ensures Pending(logs) == CountStatus(logs, AWAITING_PARTS)
    ensures Completed(logs) == CountStatus(logs, COMPLETED)
  {
    FilterCounts(logs, AWAITING_PARTS);
    FilterCounts(logs, COMPLETED);
  }

  /** No record is counted twice: the two counters add up to at most the number of records. */
  lemma CountersBounded(logs: seq<MaintenanceLog>)
    ensures Pending(logs) + Completed(logs) <= |logs|
  {
    FilterDisjoint(logs, StatusIs(AWAITING_PARTS), StatusIs(COMPLETED));
  }

  /** The pending counter is the length of the list the pending card opens. */
  lemma PendingMatchesList(logs: seq<MaintenanceLog>)
    ensures Pending(logs) == |ShownLogs(logs, Some(AWAITING_PARTS))|
    ensures Completed(logs) == |ShownLogs(logs, Some(COMPLETED))|
  {
  }

  /** Reordering the records changes neither counter. */
  lemma CountersIgnoreOrder(logs: seq<MaintenanceLog>, reordered: seq<MaintenanceLog>)
    requires multiset(logs) == multiset(reordered)
    ensures Pending(logs) == Pending(reordered) && Completed(logs) == Completed(reordered)
  {
    FilterPermutation(logs, reordered, StatusIs(AWAITING_PARTS));
    FilterPermutation(logs, reordered, StatusIs(COMPLETED));
  }
}

/** The records of the maintenance log and the users' roles. */
module Types {
  import opened Wrappers

  const COMPLETED: string := "CONCLUÍDO"
  const AWAITING_PARTS: string := "AGUARDANDO PEÇA"
  const YESTERDAY: string := "ONTEM"

  /** The three values of the status enumeration. */
  datatype MaintenanceStatus = Completed | AwaitingParts | Yesterday {

    /** The text the enumeration stores for the value. */
    function Text(): (t: string)
      ensures t == COMPLETED <==> this == Completed
      ensures t == AWAITING_PARTS <==> this == AwaitingParts
    {
      match this
      case Completed => COMPLETED
      case AwaitingParts => AWAITING_PARTS
      case Yesterday => YESTERDAY
    }
  }

  /**
   * A maintenance record. The status is kept as text: the form starts at a status outside
   * the enumeration and the record list stores the form's status without checking it.
   */
  datatype MaintenanceLog = MaintenanceLog(
    id: string,
    code: string,
    equipmentCode: Option<string>,
    title: string,
    time: string,
    date: Option<string>,
    startDate: Option<string>,
    startTime: Option<string>,
    endDate: Option<string>,
    endTime: Option<string>,
    status: string,
    mechanic: Option<string>,
    totalHours: Option<string>,
    observations: Option<string>,
    stopType: Option<string>)

  datatype UserRole = Admin | Universal

  datatype User = User(username: string, role: UserRole)

  /** The filter predicate `log => log.status === st`. */
  function StatusIs(st: string): MaintenanceLog -> bool {
    (log: MaintenanceLog) => log.status == st
  }

  /** `!field` on an optional text: absent or empty. */
  predicate Blank(field: Option<string>) {
    field.None? || field.value == ""
  }
}

/** Types shared by the models of the article inspection service. */
module Common {

  datatype Option<+T> = None | Some(value: T)

  /** Primary keys. Auto-increment columns start at 1; 0 is the "absent" value. */
  type Id = nat

  /** Instants and durations, in nanoseconds. */
  type Time = int

  const SECOND: Time := 1_000_000_000

  datatype TaskStatus = TaskPending | TaskRunning | TaskSuccess | TaskFailed | TaskPartial

  ghost predicate Ascending(ids: seq<Id>) {
    forall i, j | 0 <= i < j < |ids| :: ids[i] < ids[j]
  }
}

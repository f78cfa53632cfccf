/**
 * The task record handed to and returned by the store, and the task status
 * with the text under which it is stored.
 */
module ScheduledTasks {
  import opened Wrappers
  import Json

  /** The lifecycle state of a task. */
  datatype TaskStatus = Scheduled | Active | Complete | Failed

  /** `TaskStatus(text)`: the status stored under `text`, if any. */
  function ParseStatus(text: string): Option<TaskStatus> {
    if text == "scheduled" then Some(Scheduled)
    else if text == "active" then Some(Active)
    else if text == "complete" then Some(Complete)
    else if text == "failed" then Some(Failed)
    else None
  }

  /** The text a status is stored as; parsing it back gives the same status. */
  function StatusText(s: TaskStatus): (text: string)
    ensures ParseStatus(text) == Some(s)
  {
    match s
    case Scheduled => "scheduled"
    case Active => "active"
    case Complete => "complete"
    case Failed => "failed"
  }

  /** Exactly the four status texts parse, and each parses to the status written as it. */
  lemma ParseStatusExact(text: string)
    ensures ParseStatus(text).Some? <==> text in {"scheduled", "active", "complete", "failed"}
    ensures ParseStatus(text).Some? ==> StatusText(ParseStatus(text).value) == text
  {
  }

  /** Distinct statuses are stored as distinct texts. */
  lemma StatusTextInjective(a: TaskStatus, b: TaskStatus)
    ensures StatusText(a) == StatusText(b) <==> a == b
  {
  }

  /** A task as the store's callers see it; `params` and `result` are decoded JSON objects. */
  datatype ScheduledTask = ScheduledTask(
    id: string,
    action: string,
    status: TaskStatus,
    timestamp: int,
    resourceId: Option<string>,
    params: Option<Json.JsonMapping>,
    result: Option<Json.JsonMapping>,
    error: Option<string>)
}

/**
 * The task record shared with the remote task service, the outcome of a
 * remote call, and the local validation predicate (src/hooks/Query.ts).
 */
module Query {
  import opened Wrappers
  import opened Text

  datatype Status = Pending | Completed

  /** A task as the service returns it. `description` is optional. */
  datatype Task = Task(id: int, title: string, description: Option<string>, status: Status)
  {
    /** The same task seen as a partial task (every field present). */
    function Fields(): TaskFields {
      TaskFields(Some(id), Some(title), description, Some(status))
    }
  }

  /** A task without its id: the draft the create form edits. */
  datatype Draft = Draft(title: string, description: Option<string>, status: Status)
  {
    function Fields(): TaskFields {
      TaskFields(None, Some(title), description, Some(status))
    }
  }

  /** A partial task: any field may be absent. Update requests carry one. */
  datatype TaskFields = TaskFields(
    id: Option<int>, title: Option<string>, description: Option<string>, status: Option<Status>)

  /** The blank draft the create form starts from and returns to. */
  const EmptyDraft := Draft("", Some(""), Pending)

  /** The outcome of an awaited remote call: the service's answer, or a
      rejected promise (network failure, non-2xx status, ...). */
  datatype Response<T> = Ok(value: T) | Fail

  /** `updateTask(id, patch)`: the request a handler sends. */
  datatype UpdateRequest = UpdateRequest(id: int, patch: TaskFields)

  function Flip(s: Status): Status {
    if s == Pending then Completed else Pending
  }

  /** `validateTask`: the title is present, is not the empty string, and
      does not trim to the empty string. Only the title is consulted. */
  function ValidateTask(task: TaskFields): (r: bool)
    ensures r <==> task.title.Some? && !AllWhitespace(task.title.value)
  {
    task.title.Some? && task.title.value != "" && |Trim(task.title.value)| > 0
  }

  /** A title with a character that is not whitespace is valid; the missing,
      the empty and the whitespace-only title are not. */
  lemma ValidateExamples(id: int, description: Option<string>, status: Option<Status>)
    ensures !ValidateTask(TaskFields(Some(id), None, description, status))
    ensures !ValidateTask(TaskFields(Some(id), Some(""), description, status))
    ensures !ValidateTask(TaskFields(Some(id), Some("   "), description, status))
    ensures ValidateTask(TaskFields(Some(id), Some("Buy milk"), description, status))
  {
    assert !IsWhitespace("Buy milk"[0]);
  }

  /** Validity depends on the title alone. */
  lemma ValidateReadsOnlyTitle(a: TaskFields, b: TaskFields)
    requires a.title == b.title
    ensures ValidateTask(a) == ValidateTask(b)
  {
  }

  /** Flipping the status twice gives it back. */
  lemma FlipTwice(s: Status)
    ensures Flip(Flip(s)) == s
  {
  }
}

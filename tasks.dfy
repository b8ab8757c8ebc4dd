/** The task record of the in-memory task service and the rule that guards
    its priority field. */
module Tasks {

  /** An optional value: a field the client may leave out, or the id of a
      record that has not been stored yet. */
  datatype Option<+T> = None | Some(value: T) {
    /** The value held, or `d` when there is none. */
    function GetOr(d: T): T {
      match this
      case Some(v) => v
      case None => d
    }
  }

  /** The outcome of an operation that can fail with an error of type E. */
  datatype Result<+T, +E> = Ok(value: T) | Err(error: E)

  /** A creation time. The model never inspects it: it is carried from the
      request payload to the stored record unchanged. */
  type Timestamp = int

  /** A task. `id` is None until the store assigns one. */
  datatype Task = Task(
    id: Option<int>,
    title: string,
    description: string,
    completed: bool,
    createdAt: Timestamp,
    priority: int)

  /** The one validation failure the record has: a priority outside the
      admitted range (answered with 422 Unprocessable Entity). */
  datatype ValidationError = PriorityOutOfRange

  const MinPriority: int := -1000
  const MaxPriority: int := 1000

  /** The priorities a stored task may carry. */
  predicate ValidPriority(p: int) {
    MinPriority <= p <= MaxPriority
  }

  /** The priority validator: it rejects a value below the minimum or above
      the maximum and hands every other value back unchanged. */
  function ValidatePriority(v: int): (r: Result<int, ValidationError>)
    ensures r.Ok? <==> ValidPriority(v)
    ensures r.Ok? ==> r.value == v
    ensures r.Err? ==> r.error == PriorityOutOfRange
  {
    if v < MinPriority || v > MaxPriority then Err(PriorityOutOfRange) else Ok(v)
  }

  /** The admitted range written out, and the boundary values the service's
      tests exercise. */
  lemma PriorityBoundaries()
    ensures forall p :: ValidPriority(p) <==> -1000 <= p <= 1000
    ensures ValidatePriority(-1001) == Err(PriorityOutOfRange)
    ensures ValidatePriority(1001) == Err(PriorityOutOfRange)
    ensures ValidatePriority(-1000) == Ok(-1000)
    ensures ValidatePriority(1000) == Ok(1000)
    ensures ValidatePriority(500) == Ok(500)
  {
  }

  /** Building a task from a request payload. Fields the client leaves out
      take their defaults: not completed, priority 0, and as creation time
      the single reading `importTime` taken when the service was loaded.
      The validator runs only on a priority the client supplied; a default
      priority is never validated (it is in range anyway). */
  function NewTask(
    id: Option<int>,
    title: string,
    description: string,
    completed: Option<bool>,
    createdAt: Option<Timestamp>,
    priority: Option<int>,
    importTime: Timestamp): (r: Result<Task, ValidationError>)
    ensures r.Ok? <==> priority.None? || ValidPriority(priority.value)
    ensures r.Ok? ==> r.value.id == id && r.value.title == title && r.value.description == description
    ensures r.Ok? ==> r.value.completed == (completed == Some(true))
    ensures r.Ok? ==> r.value.createdAt == (if createdAt.Some? then createdAt.value else importTime)
    ensures r.Ok? ==> r.value.priority == (if priority.Some? then priority.value else 0)
    ensures r.Ok? ==> ValidPriority(r.value.priority)
    ensures r.Err? ==> r.error == PriorityOutOfRange
  {
    var p := priority.GetOr(0);
    if priority.Some? && ValidatePriority(p).Err? then
      Err(ValidatePriority(p).error)
    else
      Ok(Task(id, title, description, completed.GetOr(false), createdAt.GetOr(importTime), p))
  }

  /** Every supplied priority in range yields a task carrying exactly that
      priority; every one out of range yields the validation error. */
  lemma NewTaskPriority(title: string, description: string, p: int, importTime: Timestamp)
    ensures var r := NewTask(None, title, description, None, None, Some(p), importTime);
      if ValidPriority(p) then r.Ok? && r.value.priority == p
      else r == Err(PriorityOutOfRange)
  {
  }
}

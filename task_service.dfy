/** TaskService: validates input, drives the repository and turns every failure
    into one of the errors the handlers expect: 400 "Title is required", 404 "Task
    not found", or a generic error without a status code. */
module Service {
  import opened Wrappers
  import opened Model
  import opened Strings
  import opened Repository

  const TitleRequired: Error := Error("Title is required", Some(400))
  const TaskNotFound: Error := Error("Task not found", Some(404))
  const FetchFailed: Error := Error("Failed to fetch incomplete tasks", None)
  const CreateFailed: Error := Error("Failed to create task", None)
  const MarkFailed: Error := Error("Failed to mark task as completed", None)

  /** The body a client posts to create a task; either field may be missing. */
  datatype CreateTaskDto = CreateTaskDto(title: Option<string>, description: Option<string>)

  /** What the service logs, in order: the two info events and the errors it
      catches and wraps, with the operation and the caught error. */
  datatype LogEntry =
    | TaskCreated(id: int, title: string)
    | TaskMarkedCompleted(id: int, title: string)
    | ErrorIn(operation: string, cause: Error)

  /** `!title || title.trim().length === 0` rejects the title; otherwise the
      repository receives `title.trim()`. */
  function CheckTitle(title: Option<string>): (r: Result<string>)
    ensures r.Err? <==> title.None? || Blank(title.value)
    ensures r.Err? ==> r.error == TitleRequired
    ensures r.Ok? ==> r.value == Trim(title.value) && r.value != []
    ensures r.Ok? ==> !IsWhitespace(r.value[0]) && !IsWhitespace(r.value[|r.value| - 1])
  {
    if title.None? || Trim(title.value) == [] then Err(TitleRequired) else Ok(Trim(title.value))
  }

  /** `description?.trim() || null`: a missing or blank description becomes null,
      any other is trimmed. */
  function TrimDescription(description: Option<string>): (r: Option<string>)
    ensures r.None? <==> description.None? || Blank(description.value)
    ensures r.Some? ==> r.value == Trim(description.value) && r.value != []
  {
    if description.None? || Trim(description.value) == [] then None
    else Some(Trim(description.value))
  }

  /** Trimming "  Test Task  " gives "Test Task". */
  lemma TrimsPaddedTitle()
    ensures CheckTitle(Some("  Test Task  ")) == Ok("Test Task")
  {
    var t := "  Test Task  ";
    assert t[2..11] == "Test Task";
    assert BlankBetween(t, 0, 2) && BlankBetween(t, 11, |t|);
    assert !IsWhitespace(t[2]) && !IsWhitespace(t[10]);
    TrimUnique(t, 2, 11);
  }

  /** Trimming "  Test Description  " gives "Test Description". */
  lemma TrimsPaddedDescription()
    ensures TrimDescription(Some("  Test Description  ")) == Some("Test Description")
  {
    var d := "  Test Description  ";
    assert d[2..18] == "Test Description";
    assert BlankBetween(d, 0, 2) && BlankBetween(d, 18, |d|);
    assert !IsWhitespace(d[2]) && !IsWhitespace(d[17]);
    TrimUnique(d, 2, 18);
  }

  /** A catch block of the service rethrows an error whose status code is `keep`
      unchanged and logs and replaces every other error. */
  predicate PassesThrough(e: Error, keep: int) {
    e.statusCode == Some(keep)
  }

  /** The error a catch block throws for the caught `e`: `e` itself when it carries
      status `keep`, otherwise `wrapped`. */
  function Rethrow(e: Error, keep: int, wrapped: Error): (r: Error)
    ensures PassesThrough(e, keep) ==> r == e
    ensures !PassesThrough(e, keep) ==> r == wrapped
  {
    if PassesThrough(e, keep) then e else wrapped
  }

  /** The classified errors thrown inside a try survive its catch block: 400
      "Title is required" in `createTask` and 404 "Task not found" in
      `markTaskAsCompleted`. */
  lemma ClassifiedErrorsSurvive()
    ensures Rethrow(TitleRequired, 400, CreateFailed) == TitleRequired
    ensures Rethrow(TaskNotFound, 404, MarkFailed) == TaskNotFound
  {
  }

  /** The lifecycle of the rows from `before` to `after`: no row disappears, each
      keeps every column but `completed`, and `completed` only goes from false to
      true. */
  ghost predicate Evolves(before: map<int, Task>, after: map<int, Task>) {
    forall k :: k in before ==>
      && k in after
      && after[k].(completed := before[k].completed) == before[k]
      && (before[k].completed ==> after[k].completed)
  }

  /** Lifecycles compose, so any sequence of service calls is one. */
  lemma EvolvesTransitive(a: map<int, Task>, b: map<int, Task>, c: map<int, Task>)
    requires Evolves(a, b) && Evolves(b, c)
    ensures Evolves(a, c)
  {
  }

  /** The service and the repository it drives; `log` is what it has logged. */
  class TaskService {
    const repo: TaskRepository
    var log: seq<LogEntry>

    ghost predicate Valid()
      reads this, repo
    {
      repo.Valid()
    }

    constructor (repo: TaskRepository)
      requires repo.Valid()
      ensures Valid() && this.repo == repo && log == []
    {
      this.repo := repo;
      log := [];
    }

    /** `getIncompleteTasks(limit = 5)`: the repository's answer, or the generic
        fetch error, logged, when the repository fails. */
    method GetIncompleteTasks(fault: Option<string>, limit: int := DefaultLimit)
      returns (r: Result<seq<Task>>)
      requires Valid()
      modifies this
      ensures Valid()
      ensures fault.None? ==> r.Ok? && IsNewestIncomplete(repo.rows, limit, r.value) && log == old(log)
      ensures fault.None? ==> r == repo.FindIncompleteTasks(None, limit)
      ensures fault.Some? ==>
        r == Err(FetchFailed) && log == old(log) + [ErrorIn("getIncompleteTasks", StoreError(fault.value))]
    {
      var found := repo.FindIncompleteTasks(fault, limit);
      if found.Err? {
        log := log + [ErrorIn("getIncompleteTasks", found.error)];
        return Err(FetchFailed);
      }
      r := found;
    }

    /** `createTask(data)`: rejects a missing or blank title with 400 before the
        repository is called; otherwise creates the task from the trimmed title and
        description. A repository failure becomes the generic create error. */
    method CreateTask(data: CreateTaskDto, elapsed: nat, fault: Option<string>) returns (r: Result<Task>)
      requires Valid()
      modifies this, repo
      ensures Valid()
      ensures Evolves(old(repo.rows), repo.rows)
      ensures CheckTitle(data.title).Err? ==>
        r == Err(TitleRequired) && unchanged(repo) && log == old(log)
      ensures CheckTitle(data.title).Ok? && fault.Some? ==>
        && r == Err(CreateFailed) && unchanged(repo)
        && log == old(log) + [ErrorIn("createTask", StoreError(fault.value))]
      ensures (CheckTitle(data.title).Ok? && fault.None? &&
               (!ValuesFit(CheckTitle(data.title).value, TrimDescription(data.description)) ||
                old(repo.nextId) > IdMax)) ==>
        && r == Err(CreateFailed) && unchanged(repo)
        && log == old(log) + [ErrorIn("createTask", StoreError(
             InsertRejection(old(repo.nextId), CheckTitle(data.title).value, TrimDescription(data.description)).value))]
      ensures (CheckTitle(data.title).Ok? && fault.None? &&
               ValuesFit(CheckTitle(data.title).value, TrimDescription(data.description)) &&
               old(repo.nextId) <= IdMax) ==>
        && r.Ok?
        && r.value == Task(old(repo.nextId), CheckTitle(data.title).value,
                           TrimDescription(data.description), false, old(repo.clock) + elapsed)
        && r.value.id !in old(repo.rows)
        && repo.rows == old(repo.rows)[r.value.id := r.value]
        && repo.nextId == old(repo.nextId) + 1 && repo.clock == r.value.createdAt
        && log == old(log) + [TaskCreated(r.value.id, r.value.title)]
    {
      var attempt: Result<Task>;
      var title := CheckTitle(data.title);
      if title.Err? {
        attempt := Err(title.error);
      } else {
        // A trimmed value ends in a character other than a space, so the columns
        // accept it exactly when it fits and store it unchanged.
        var description := TrimDescription(data.description);
        StorableFits(title.value, description);
        assert StoredDescription(description) == description;
        assert InsertRejection(repo.nextId, title.value, description).None? <==>
          ValuesFit(title.value, description) && repo.nextId <= IdMax;
        attempt := repo.Create(title.value, description, elapsed, fault);
        if attempt.Ok? {
          assert FitsColumns(attempt.value) && Stored(attempt.value) == attempt.value;
          log := log + [TaskCreated(attempt.value.id, attempt.value.title)];
        }
      }
      if attempt.Err? {
        if !PassesThrough(attempt.error, 400) {
          log := log + [ErrorIn("createTask", attempt.error)];
        }
        return Err(Rethrow(attempt.error, 400, CreateFailed));
      }
      r := attempt;
    }

    /** `markTaskAsCompleted(id)`: the completed task, 404 when the repository finds
        no task `id`, the generic error when a database call fails. */
    method MarkTaskAsCompleted(id: int, readFault: Option<string>, writeFault: Option<string>)
      returns (r: Result<Task>)
      requires Valid()
      modifies this, repo
      ensures Valid()
      ensures Evolves(old(repo.rows), repo.rows)
      ensures repo.nextId == old(repo.nextId) && repo.clock == old(repo.clock)
      ensures readFault.None? && id !in old(repo.rows) ==>
        r == Err(TaskNotFound) && repo.rows == old(repo.rows) && log == old(log)
      ensures readFault.Some? ==>
        && r == Err(MarkFailed) && repo.rows == old(repo.rows)
        && log == old(log) + [ErrorIn("markTaskAsCompleted", StoreError(readFault.value))]
      ensures readFault.None? && id in old(repo.rows) && writeFault.Some? ==>
        && r == Err(MarkFailed) && repo.rows == old(repo.rows)
        && log == old(log) + [ErrorIn("markTaskAsCompleted", StoreError(writeFault.value))]
      ensures readFault.None? && id in old(repo.rows) && writeFault.None? ==>
        && r == Ok(old(repo.rows)[id].(completed := true))
        && repo.rows == MarkedRows(old(repo.rows), id)
        && log == old(log) + [TaskMarkedCompleted(id, r.value.title)]
    {
      var attempt: Result<Task>;
      var found := repo.MarkAsCompleted(id, readFault, writeFault);
      if found.Err? {
        attempt := Err(found.error);
      } else if found.value.None? {
        attempt := Err(TaskNotFound);
      } else {
        attempt := Ok(found.value.value);
        log := log + [TaskMarkedCompleted(attempt.value.id, attempt.value.title)];
      }
      if attempt.Err? {
        if !PassesThrough(attempt.error, 404) {
          log := log + [ErrorIn("markTaskAsCompleted", attempt.error)];
        }
        return Err(Rethrow(attempt.error, 404, MarkFailed));
      }
      r := attempt;
    }
  }

  /** The errors the service throws: the two classified ones and the three generic
      ones. */
  predicate IsServiceError(e: Error) {
    e in {TitleRequired, TaskNotFound, FetchFailed, CreateFailed, MarkFailed}
  }

  /** No store error is classified, so the repository's failures are always wrapped. */
  lemma StoreErrorsAreWrapped(cause: string, keep: int, wrapped: Error)
    ensures Rethrow(StoreError(cause), keep, wrapped) == wrapped
  {
  }
}

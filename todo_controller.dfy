/** The request handlers: each calls the service and maps its outcome to an HTTP
    status and a JSON body. */
module Controller {
  import opened Wrappers
  import opened Model
  import opened Repository
  import opened Service

  /** `getTodos` lists the 5 most recent incomplete tasks. */
  const TodosLimit: int := 5

  const FetchFallback: string := "Error fetching todos"
  const CreateFallback: string := "Error creating todo"
  const UpdateFallback: string := "Error updating todo"
  const DoneMessage: string := "Todo marked as done"

  /** The JSON bodies the handlers send. */
  datatype Body =
    | TaskList(tasks: seq<Task>)              // an array of tasks
    | TaskBody(task: Task)                    // one task
    | Done(message: string, task: Task)       // {message, task}
    | ErrorBody(error: string)                // {error}

  datatype Response = Response(status: int, body: Body)

  /** `error.statusCode || 500`: the error's own status, unless it has none or has
      the falsy status 0. */
  function StatusOf(e: Error): (status: int)
    ensures status != 0
    ensures status == 500 || e.statusCode == Some(status)
    ensures e.statusCode.Some? && e.statusCode.value != 0 ==> status == e.statusCode.value
  {
    if e.statusCode.Some? && e.statusCode.value != 0 then e.statusCode.value else 500
  }

  /** The catch block of every handler: `res.status(error.statusCode || 500)
      .json({error: error.message || fallback})`. */
  function ErrorResponse(e: Error, fallback: string): (r: Response)
    ensures r.status == StatusOf(e) && r.body.ErrorBody?
    ensures e.message != "" ==> r.body.error == e.message
    ensures e.message == "" ==> r.body.error == fallback
  {
    Response(StatusOf(e), ErrorBody(if e.message != "" then e.message else fallback))
  }

  /** `getTodos`: 200 with the task list, or the error response. */
  function TodosResponse(outcome: Result<seq<Task>>): (r: Response)
    ensures outcome.Ok? <==> r.status == 200 && r.body.TaskList?
    ensures outcome.Ok? ==> r.body.tasks == outcome.value
    ensures outcome.Err? ==> r == ErrorResponse(outcome.error, FetchFallback)
  {
    if outcome.Ok? then Response(200, TaskList(outcome.value))
    else ErrorResponse(outcome.error, FetchFallback)
  }

  /** `createTodo`: 201 with the created task, or the error response. */
  function CreatedResponse(outcome: Result<Task>): (r: Response)
    ensures outcome.Ok? <==> r.status == 201 && r.body.TaskBody?
    ensures outcome.Ok? ==> r.body.task == outcome.value
    ensures outcome.Err? ==> r == ErrorResponse(outcome.error, CreateFallback)
  {
    if outcome.Ok? then Response(201, TaskBody(outcome.value))
    else ErrorResponse(outcome.error, CreateFallback)
  }

  /** `markTodoAsDone`: 200 with `{message: "Todo marked as done", task}`, or the
      error response. */
  function DoneResponse(outcome: Result<Task>): (r: Response)
    ensures outcome.Ok? <==> r.status == 200 && r.body.Done?
    ensures outcome.Ok? ==> r.body == Done(DoneMessage, outcome.value)
    ensures outcome.Err? ==> r == ErrorResponse(outcome.error, UpdateFallback)
  {
    if outcome.Ok? then Response(200, Done(DoneMessage, outcome.value))
    else ErrorResponse(outcome.error, UpdateFallback)
  }

  /** Every error the service throws reaches the client with its own message, with
      status 400 or 404 when it is classified and 500 otherwise; the handlers'
      fallback messages are never needed. */
  lemma ServiceErrorsSurface(e: Error, fallback: string)
    requires IsServiceError(e)
    ensures ErrorResponse(e, fallback).body == ErrorBody(e.message)
    ensures ErrorResponse(e, fallback).status == (if e.statusCode.Some? then e.statusCode.value else 500)
    ensures ErrorResponse(e, fallback).status in {400, 404, 500}
  {
  }

  /** GET: lists the newest incomplete tasks, at most 5. */
  method GetTodos(service: TaskService, fault: Option<string>) returns (response: Response)
    requires service.Valid()
    modifies service
    ensures service.Valid()
    ensures fault.None? ==>
      && response.status == 200 && response.body.TaskList?
      && IsNewestIncomplete(service.repo.rows, TodosLimit, response.body.tasks)
    ensures fault.Some? ==> response == Response(500, ErrorBody(FetchFailed.message))
  {
    var outcome := service.GetIncompleteTasks(fault, TodosLimit);
    response := TodosResponse(outcome);
  }

  /** POST: creates a task from the body's `title` and `description`. */
  method CreateTodo(service: TaskService, body: CreateTaskDto, elapsed: nat, fault: Option<string>)
    returns (response: Response)
    requires service.Valid()
    modifies service, service.repo
    ensures service.Valid()
    ensures CheckTitle(body.title).Err? ==>
      response == Response(400, ErrorBody(TitleRequired.message)) && unchanged(service.repo)
    ensures (CheckTitle(body.title).Ok? &&
             (fault.Some? || !ValuesFit(CheckTitle(body.title).value, TrimDescription(body.description)) ||
              old(service.repo.nextId) > IdMax)) ==>
      response == Response(500, ErrorBody(CreateFailed.message)) && unchanged(service.repo)
    ensures (CheckTitle(body.title).Ok? && fault.None? &&
             ValuesFit(CheckTitle(body.title).value, TrimDescription(body.description)) &&
             old(service.repo.nextId) <= IdMax) ==>
      && response.status == 201 && response.body.TaskBody?
      && 1 <= response.body.task.id <= IdMax && response.body.task.id !in old(service.repo.rows)
      && service.repo.rows == old(service.repo.rows)[response.body.task.id := response.body.task]
      && response.body.task.title == CheckTitle(body.title).value
      && response.body.task.description == TrimDescription(body.description)
      && !response.body.task.completed
      && service.repo.clock == response.body.task.createdAt >= old(service.repo.clock)
  {
    var outcome := service.CreateTask(CreateTaskDto(body.title, body.description), elapsed, fault);
    response := CreatedResponse(outcome);
  }

  /** PUT: marks task `id` (the route parameter, already a number) as done. */
  method MarkTodoAsDone(service: TaskService, id: int, readFault: Option<string>, writeFault: Option<string>)
    returns (response: Response)
    requires service.Valid()
    modifies service, service.repo
    ensures service.Valid()
    ensures readFault.None? && id !in old(service.repo.rows) ==>
      response == Response(404, ErrorBody(TaskNotFound.message)) && service.repo.rows == old(service.repo.rows)
    ensures readFault.Some? || (id in old(service.repo.rows) && writeFault.Some?) ==>
      response == Response(500, ErrorBody(MarkFailed.message)) && service.repo.rows == old(service.repo.rows)
    ensures readFault.None? && id in old(service.repo.rows) && writeFault.None? ==>
      && response == Response(200, Done(DoneMessage, old(service.repo.rows)[id].(completed := true)))
      && service.repo.rows == MarkedRows(old(service.repo.rows), id)
  {
    var outcome := service.MarkTaskAsCompleted(id, readFault, writeFault);
    response := DoneResponse(outcome);
  }
}

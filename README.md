# Task lifecycle of the to-do backend, in Dafny

This project models the backend of a small to-do application: the `tasks` table
and the `TaskRepository` over it, the `TaskService` that validates input and
classifies failures, and the three Express handlers that turn the service's
outcome into an HTTP status and a JSON body.

- `wrappers.dfy` (`Wrappers`): `Option`, the JavaScript `Error` with an optional
  `statusCode`, and `Result` (a promise that is fulfilled or rejected).
- `task_model.dfy` (`Model`): the `Task` row, the limits of the `title` column
  (255 characters) and the `description` column (65,535 bytes of UTF-8), and
  the defaults an insert takes.
- `strings.dfy` (`Strings`): ECMAScript's `String.prototype.trim`, using the
  WhiteSpace and LineTerminator code points of ECMA-262 (sections 12.2 and 12.3).
  The contract of `Trim` states what the result is. `TrimUnique` shows that this
  contract fixes the result.
- `task_repository.dfy` (`Repository`): the class `TaskRepository`, whose fields
  are the table (`rows: map<int, Task>`, keyed by primary key), its
  AUTO_INCREMENT counter `nextId` and the insert clock `clock`. The listing query
  is specified by `IsNewestIncomplete`: what `findAll` with `where`, `order` and
  `limit` may return. The model's insertion-sort implementation is proved to
  return such a list.
- `task_service.dfy` (`Service`): the class `TaskService`, which holds the
  repository and its log. It also holds the pure decisions: title check,
  description normalisation, and the catch blocks' rethrow-or-wrap
  (`Rethrow`).
- `todo_controller.dfy` (`Controller`): the handlers' response mappings as
  functions. They are composed with the service calls in `GetTodos`,
  `CreateTodo` and `MarkTodoAsDone`.

Environment inputs are parameters:
- `fault: Option<string>` is the outcome of one database call: `None` means the
  database answers, `Some(cause)` means the call is rejected.
- `markAsCompleted` makes two database calls, so it takes `readFault` and
  `writeFault`.
- `elapsed: nat` is the time that has passed since the previous insert. The
  store's clock therefore never goes back, and two inserts may share a
  `created_at`.

Decisions where the code or the database leave room:
- The configuration uses MySQL, and the model takes strict mode:
  - A title longer than 255 characters, or a description longer than 65,535
    bytes, is rejected by the store when the excess holds a character other
    than a space. The service then reports the generic "Failed to create task".
  - When the excess is only spaces (U+0020), MySQL cuts them off, in every SQL
    mode, and stores the value cut to the column's length. The answer of
    `create` and `update` is still the instance built from the values given.
  - The service trims both values before the insert, so at that level a value
    is accepted exactly when it fits (`Model.StorableFits`).
- No character set is configured, so the table is taken to use MySQL 8's
  default, utf8mb4. The TEXT limit is counted in bytes of UTF-8, the VARCHAR
  limit in characters.
- `id` is INTEGER, a signed 32-bit INT. Once AUTO_INCREMENT has handed out
  2,147,483,647, every further insert fails: the database gives that key again,
  and it is a duplicate of the primary key.
- A `limit` that is not positive returns no rows.
- Rows with equal `created_at` may come back in any order: the contract leaves
  this open, as SQL does. The implementation puts the higher id first.
- `update` overwrites the whole row. It can therefore also clear `completed` or
  change `created_at`. The "completed only goes false to true" lifecycle
  (`Service.Evolves`) is proved for the service operations, which are the only
  callers.

## Model

| member | source | states |
|---|---|---|
| `Strings.LeadingEnd` | Backend/src/services/task.service.ts:28 | where trimming the front stops: everything before it is white space, and the character there is not |
| `Strings.TrailingStart` | Backend/src/services/task.service.ts:28 | where trimming the back stops: everything after it is white space, and the character before it is not |
| `Strings.Trim` | Backend/src/services/task.service.ts:37-39 | `trim()` gives a slice of the input between a blank prefix and a blank suffix; it has no white space at either end, and it is empty exactly when the input is blank |
| `Strings.LeadingEndAt` | Backend/src/services/task.service.ts:38 | trimming the front stops exactly at the first character that is not white space |
| `Strings.TrailingStartAt` | Backend/src/services/task.service.ts:38 | trimming the back stops exactly after the last character that is not white space |
| `Strings.TrimUnique` | Backend/src/services/task.service.ts:38 | any slice cut between a blank prefix and a blank suffix, with no white space at its ends, is `trim()` of the input |
| `Strings.TrimIdempotent` | Backend/src/services/task.service.ts:38 | trimming twice is the same as trimming once |
| `Model.NewRow` | Backend/src/models/task.model.ts:33-45 | an inserted row has the assigned id, `completed` false (the column default) and `created_at` now; it keeps title and description, and fits the table exactly when those values fit their columns |
| `Model.FitsColumns` | Backend/src/models/task.model.ts:21-31 | a row the table holds: a title of at most 255 characters (`STRING(255)`) and a null description or one of at most 65,535 bytes (`TEXT`) |
| `Model.Utf8Length` | Backend/src/models/task.model.ts:27-31 | the byte count that the TEXT limit applies to: between one and four bytes per character, and one per character exactly for ASCII |
| `Model.Utf8Split` | Backend/src/models/task.model.ts:27-31 | the bytes of a string are the bytes of its two parts added up |
| `Model.FitTitle` | Backend/src/models/task.model.ts:21-25 | what VARCHAR(255) stores: a title that fits as it is; a longer one cut to exactly 255 characters when only spaces are cut off; otherwise nothing |
| `Model.FitTitleCutsOnlySpaces` | Backend/src/models/task.model.ts:21-25 | a title is rejected only when no cut of trailing spaces brings it within 255 characters |
| `Model.FitText` | Backend/src/models/task.model.ts:27-31 | what TEXT stores: a text that fits as it is; a longer one cut to exactly 65,535 bytes when only spaces are cut off; otherwise nothing |
| `Model.FitTextCutsOnlySpaces` | Backend/src/models/task.model.ts:27-31 | a text is rejected only when no cut of trailing spaces brings it within 65,535 bytes |
| `Model.StorableFits` | Backend/src/models/task.model.ts:21-31 | values that fit are accepted; values that do not end in a space are accepted only when they fit |
| `Model.Stored` | Backend/src/models/task.model.ts:21-31 | the row as the table holds it: it fits the columns, differs from the given row only in title and description, which lose only trailing spaces, and is the given row when that fits |
| `Repository.TaskRepository.constructor` | Backend/src/models/task.model.ts:16-19 | a new table is empty and its auto-increment starts at 1 |
| `Repository.TaskRepository.FindIncompleteTasks` | Backend/src/repositories/task.repository.ts:4-10 | with `limit` defaulting to 5: a rejected call fails with its cause; otherwise the result holds only incomplete rows, each once, as stored, newest `created_at` first; it has at most `limit` rows, all incomplete rows when fewer than `limit` exist, and no left-out incomplete row is newer than a returned one; the store is not changed |
| `Repository.IsNewestIncomplete` | Backend/src/repositories/task.repository.ts:5-9 | what `findAll` with `where completed = false`, `order created_at DESC` and `limit` may answer: incomplete rows as stored, each once, newest first, at most `limit`, all of them when fewer exist, no newer row left out; ties in `created_at` in any order |
| `Repository.ListingIsNewestIncomplete` | Backend/src/repositories/task.repository.ts:5-9 | filtering, sorting and cutting the table as the model does gives a list that `findAll` with `where completed = false`, `order created_at DESC` and `limit` may return |
| `Repository.Pending` | Backend/src/repositories/task.repository.ts:6 | the scan returns exactly the incomplete rows with a key in range, as stored, in strictly decreasing id order |
| `Repository.InsertNewest` | Backend/src/repositories/task.repository.ts:7 | one step of the sort: the result is the input with the new row added, as a multiset |
| `Repository.SortNewestFirst` | Backend/src/repositories/task.repository.ts:7 | the sort is newest first and is a rearrangement of its input: the same multiset of rows |
| `Repository.InsertNewestSorted` | Backend/src/repositories/task.repository.ts:7 | inserting into a newest-first list keeps it newest first |
| `Repository.SortNewestFirstDistinct` | Backend/src/repositories/task.repository.ts:7 | sorting distinct rows gives distinct rows |
| `Repository.Take` | Backend/src/repositories/task.repository.ts:8 | `LIMIT` returns a prefix of at most `limit` rows, and the whole input when that is shorter than `limit` |
| `Repository.TaskRepository.FindById` | Backend/src/repositories/task.repository.ts:12-14 | lookup by primary key returns the stored row exactly when the key is present and `None` otherwise; nothing changes; a rejected call fails |
| `Repository.StoredDescription` | Backend/src/repositories/task.repository.ts:19 | the fallback to null stores null for an absent or empty description and stores any other verbatim |
| `Repository.Overflow` | Backend/src/models/task.model.ts:21-31 | the cause the store gives for values it rejects: the title column when the title cannot be cut to fit, otherwise the description column, whose value then cannot be cut to fit |
| `Repository.InsertRejection` | Backend/src/repositories/task.repository.ts:16-21 | with the database answering, an insert is rejected exactly when a value cannot be cut to fit its column (the column's cause) or AUTO_INCREMENT is past 2,147,483,647 (a duplicate primary key) |
| `Repository.TaskRepository.Create` | Backend/src/repositories/task.repository.ts:16-21 | inserts exactly one row: its id is fresh, in the INT range, and above every existing id; `completed` is false; `created_at` is the clock, which does not go back; the description is normalised; the table holds the row with excess trailing spaces cut off, and the answer is the row as given; existing rows are unchanged; a rejected call or a rejected insert changes nothing |
| `Repository.TaskRepository.Update` | Backend/src/repositories/task.repository.ts:23-28 | overwrites the row keyed by `task.id`, with excess trailing spaces cut off, and returns `task` as given; when no row has that id nothing is written; a row whose values cannot be cut to fit is rejected with the store's cause and nothing is written |
| `Repository.TaskRepository.MarkAsCompleted` | Backend/src/repositories/task.repository.ts:30-38 | a missing id returns `None` with the store unchanged; for an existing id the row's `completed` becomes true, its other columns and every other row stay as they were, and the completed snapshot is returned; a failed read or write changes nothing |
| `Repository.MarkedRows` | Backend/src/repositories/task.repository.ts:35-37 | the table after `markAsCompleted(id)`: row `id`, when present, with `completed` set; every other row as it was |
| `Repository.MarkIdempotent` | Backend/src/repositories/task.repository.ts:30-38 | marking the same id twice leaves the same table as marking it once |
| `Repository.MarkOnlyCompletes` | Backend/src/repositories/task.repository.ts:35-37 | marking deletes no row, changes only row `id` and only its `completed`, and never clears `completed` |
| `Service.CheckTitle` | Backend/src/services/task.service.ts:28-38 | a missing or blank title fails with 400 "Title is required"; any other title is passed on trimmed, non-empty, and with no white space at either end |
| `Service.TrimDescription` | Backend/src/services/task.service.ts:39 | a missing or blank description becomes null; any other is trimmed and is non-empty |
| `Service.TrimsPaddedTitle` | Backend/src/__tests__/services/task.service.test.ts:83-95 | "  Test Task  " is passed on as "Test Task" |
| `Service.TrimsPaddedDescription` | Backend/src/__tests__/services/task.service.test.ts:83-95 | "  Test Description  " is passed on as "Test Description" |
| `Service.Rethrow` | Backend/src/services/task.service.ts:44-50 | a caught error carrying the kept status passes through unchanged; every other error is replaced by the generic one |
| `Service.ClassifiedErrorsSurvive` | Backend/src/services/task.service.ts:44-50 | the 400 "Title is required" thrown inside `createTask`'s try, and the 404 "Task not found" inside `markTaskAsCompleted`'s, leave their catch blocks unchanged |
| `Service.StoreErrorsAreWrapped` | Backend/src/services/task.service.ts:44-50 | a repository failure never passes through and is always replaced by the generic error |
| `Service.EvolvesTransitive` | Backend/src/repositories/task.repository.ts:30-38 | the lifecycle (no row lost, no other column changed, `completed` only false to true) holds across any sequence of service calls |
| `Service.TaskService.constructor` | Backend/src/services/task.service.ts:15 | the service starts on a valid repository with an empty log |
| `Service.TaskService.GetIncompleteTasks` | Backend/src/services/task.service.ts:16-23 | forwards `limit` (default 5) and returns the repository's list unchanged; a repository failure is logged and becomes "Failed to fetch incomplete tasks" with no status |
| `Service.TaskService.CreateTask` | Backend/src/services/task.service.ts:25-51 | a missing or blank title: 400 "Title is required", the repository is not called, nothing is logged; otherwise a row is created from the trimmed title and the trimmed-or-null description, the counter advances by one, the clock moves to the new row's `created_at`, and the creation is logged; a repository failure, a value too long for its column or an exhausted id range is logged with the store's cause and becomes "Failed to create task" with no status, with the store unchanged; the lifecycle is kept |
| `Service.TaskService.MarkTaskAsCompleted` | Backend/src/services/task.service.ts:53-74 | 404 "Task not found" exactly when the id is absent, with the store unchanged and nothing logged; otherwise it returns the completed row and logs it; a failed database call is logged and becomes "Failed to mark task as completed"; the lifecycle is kept |
| `Controller.StatusOf` | Backend/src/controllers/todo.controller.ts:12 | the fallback to 500 is the error's own non-zero status when it has one and 500 otherwise, never 0 |
| `Controller.ErrorResponse` | Backend/src/controllers/todo.controller.ts:10-13 | an error answers with its status (or 500) and `{error: message}`, using the handler's default text when the message is empty |
| `Controller.TodosResponse` | Backend/src/controllers/todo.controller.ts:5-15 | 200 with the task list exactly on success; otherwise the error response with "Error fetching todos" as default |
| `Controller.CreatedResponse` | Backend/src/controllers/todo.controller.ts:18-31 | 201 with the created task exactly on success; otherwise the error response with "Error creating todo" as default |
| `Controller.DoneResponse` | Backend/src/controllers/todo.controller.ts:34-47 | 200 with `{message: "Todo marked as done", task}` exactly on success; otherwise the error response with "Error updating todo" as default |
| `Controller.ServiceErrorsSurface` | Backend/src/__tests__/controllers/todo.controller.test.ts:98-112 | every error the service throws reaches the client with its own message, with status 400 or 404 when it is classified and 500 otherwise |
| `Controller.GetTodos` | Backend/src/controllers/todo.controller.ts:5-15 | requests limit 5; answers 200 with the newest incomplete tasks, or 500 "Failed to fetch incomplete tasks" |
| `Controller.CreateTodo` | Backend/src/controllers/todo.controller.ts:18-31 | forwards `title` and `description`; a blank title answers 400 "Title is required" with no insert; a store failure, a value too long for its column or an exhausted id range answers 500 "Failed to create task"; otherwise it answers 201 with the new, incomplete, trimmed task, whose id is in the INT range and which is now in the table, and the clock stands at its `created_at` |
| `Controller.MarkTodoAsDone` | Backend/src/controllers/todo.controller.ts:34-47 | an unknown id answers 404 "Task not found"; a failed database call answers 500; otherwise it answers 200 with the completed task, which the table now holds |

## Left out

- Logging: the `Logger` calls are modelled as an abstract `log` of events (the
  two info events, and the caught error with its operation). The text of the
  log lines and their timestamps are not modelled.
- Sequelize itself: `findAll`, `findByPk`, `create` and `update` are modelled by
  what they do to the abstract table, not by the library's code.
- Time: `created_at` is an integer clock that is advanced by `elapsed`; real
  dates and their ISO-8601 rendering are not modelled.
- Ids are fresh and increasing, up to the INT bound. The gaps that MySQL's
  auto-increment may leave after a failed insert are not modelled.
- Concurrency: calls are sequential. The read-then-write race in
  `markAsCompleted` is therefore not modelled.
- Request parsing: `Number(id)` is taken to give an integer, and a NaN id is not
  modelled. The JSON body's `title` and `description` are taken to be strings or
  missing. A non-string title, whose `.trim()` would throw, is not modelled.
- Express routing (`todo.routes.ts`), the server start (`index.ts`), the database
  connection (`config/database.ts`), the frontend and the unused
  `types/database.types.ts` are not part of this model.
- Repository.TaskRepository.FindIncompleteTasks: a negative `limit` returns no
  rows. The SQL that Sequelize would generate for it is not modelled, because
  the handlers only pass 5.

# Task lifecycle of the web-crawler task manager

This project models the part of the multi-user crawler task manager that
holds the logic. Users create named tasks that point at a URL. They start
them, and a background thread marks each started task `finished` (result 1)
or `failed` (result 0). Users then poll the status, list, and delete their
own tasks. The project also models the two pieces of the browser page that
decide what gets sent: the parser of the batch-create text box and the
choice of ids that a batch start sends.

- `wrappers.dfy`: `Option`. It stands for Python's `None` and JavaScript's `undefined`.
- `database.dfy` (module `Database`, from database.py): the `Task` record.
  The class `TaskTable` holds the rows in a map from id to record. A new
  row's id follows SQLite's rule for an `INTEGER PRIMARY KEY` without
  `AUTOINCREMENT`: one more than the largest id present, or 1 in an empty
  table (`NextRowId`). Its methods are `Save`, `Delete` and `UpdateStatus`,
  and the filtered read `Query` that the routes issue through `Task.query`.
- `app.dfy` (module `App`, from app.py): the class `TaskApp`, with one method
  per task route. The caller's session identity is an `Option<UserId>`
  parameter. Each daemon thread that a start route spawns is one entry of
  the multiset `scheduled`. The thread's run of `execute_task` is the
  separate step `Complete(id, ok)`, where `ok` is the outcome that
  `random.choice` draws in the source. A route answers `Ok` (code 0),
  `Refused` (code 1) or `Uncaught`. `Uncaught` means an exception escaped
  the route, so Flask answers HTTP 500.
- `js_string.dfy` (module `JsString`): JavaScript's `split` with one
  separator character, its inverse `join`, and `trim` with ECMAScript's
  set of white-space and line-terminator characters.
- `batch_form.dfy` (module `BatchForm`, from static/js/main.js): the
  batch-create parser as the chain of `map`/`filter` stages it is
  (`ParseTasks`), a line-by-line reference definition (`PerLine`), and the
  waiting-row filter of the batch-start button.
- `scenarios.dfy`: client runs of the routes. They are checked from the
  contracts alone: one task's lifecycle, another user's refused start, a
  restart of a finished task, a double start, a stale execution that ends
  another user's task, and a partly failing batch create.

The object invariant `TaskApp.Valid` is kept by every route. Each row sits
under its own id. Each row is also `Consistent`:

- a waiting task has no result;
- a running task has an execution scheduled, so it is never stranded;
- a finished task has result 1 and a failed task has result 0.

A waiting task can still have an execution scheduled. SQLite hands out the
id of a deleted row again when that row had the largest id. The thread
started for the deleted task then completes the new row under the same id.
`Scenarios.StaleCompletion` shows this: user 7 starts task 1 and deletes it.
User 8's next task gets id 1, and the pending execution marks it `finished`
although user 8 never started it.

The code does not enforce the lifecycle waiting → running → finished/failed.
`start_task` (app.py:153-157) does not look at the status. A finished or
failed task can therefore be started again. It then shows `running` with its
old result until the new run ends (`Scenarios.RestartAfterFinish`). Starting a
running task again schedules a second execution (`Scenarios.DoubleStart`).
So "a result is present exactly when the status is terminal" does not hold
in the code. The model keeps the weaker invariant above. Only
`batch_start_task` filters on `waiting`, so repeating a batch start starts
nothing more (`App.StartedAllSettles`).

## Model

| member | source | states |
|---|---|---|
| Database.WithStatus | database.py:41-45 | `update_status` always sets the status. It overwrites the result only when a result is given, and keeps it when `result` is `None`. Id, owner, name and url never change. |
| Database.NextRowIdBounds | database.py:25 | The id SQLite gives a new row is above every id in use. It is 1 in an empty table, and otherwise its predecessor is in use, so it is one more than the largest id. |
| Database.TaskTable.Save | database.py:29-35 | A new row gets the id SQLite picks, so no existing row has it, and the row inserted next would get the id after it. Its status is the given one and its result is null (the column default). Every other row is unchanged. |
| Database.TaskTable.Delete | database.py:37-39 | `delete` removes exactly that row. All other rows stay as they were. |
| Database.TaskTable.UpdateStatus | database.py:41-45 | The stored row becomes `WithStatus` of itself. No other row changes. |
| Database.TaskTable.Query | app.py:175-179 | Returns every row that passes the owner, id-list and status filters and no other row, each once, in ascending id order, exactly as stored. |
| App.FirstIncomplete | app.py:134-142 | Finds the first batch entry whose save raises for a missing `name` or `url`. Every entry before it has both fields. |
| App.TaskApp.CreateTask | app.py:106-120 | No session gives code 1 and no change. A missing name or url makes the commit raise, with no change. Otherwise exactly one row is added under the next row id, which no row had: owned by the caller, `waiting`, no result. Existing rows are unchanged. |
| App.TaskApp.BatchCreateTask | app.py:122-145 | No session or an empty list gives code 1 and creates nothing. Otherwise the table gains the `Created` rows of the entries up to the first one lacking a field. The reply is code 0 with count `len(tasks_data)` only when all are created. The next row id moves past the new rows. |
| App.TaskApp.SaveEntries | app.py:135-142 | The save loop: the table becomes the old rows plus the `Created` rows of the entries before the first one lacking a field. The next row id moves past them. |
| App.TaskApp.SaveEntry | app.py:136-142 | One turn of the loop: entry `n` is saved under the next row id, which is the start id plus `n`. |
| App.AddedRows | app.py:135-142 | The rows a batch adds: every old row is kept, and exactly the consecutive ids from the first new id are added. The `j`-th of them is entry `j`, owned by the caller, `waiting`, with no result. |
| App.CreatedConsistent | app.py:135-142 | Rows added by a batch are waiting without a result, so every row of the table stays `Consistent`. |
| App.TaskApp.StartTask | app.py:147-164 | No session, a missing id or another owner's task gives code 1 and no change. Otherwise the row becomes `running` whatever its status was, keeps its result, and gets one more execution scheduled. |
| App.TaskApp.BatchStartTask | app.py:166-187 | No session gives code 1 and no change. Otherwise exactly the listed rows that the caller owns and that are `waiting` become `running`, each with one execution scheduled. Every other row is unchanged. |
| App.TaskApp.DispatchRows | app.py:181-185 | The loop over the selected rows: each becomes `running` and gets one execution scheduled, and nothing else changes. |
| App.StartedAllChangesOnlySelected | app.py:175-182 | After a batch start, a listed, owned, waiting row differs from before only in being `running`. Every other row is identical to before. |
| App.StartedAllSettles | app.py:175-179 | After a batch start no selected row is still waiting, so the same batch start again changes nothing. No task is started twice by it. |
| App.TaskApp.Complete | app.py:31-51 | When no row has the id, nothing changes. Otherwise the row now under that id ends `finished` with result 1 or `failed` with result 0, so status and result agree. That row may be a newer task that reused a deleted task's id. One scheduled execution is consumed. |
| App.TaskApp.GetTaskStatus | app.py:189-205 | Code 0 exactly when there is a session and the task exists and is the caller's. Then the reply carries that row's status and result; otherwise it carries no data. The table is not changed. |
| App.TaskApp.TaskList | app.py:207-228 | No session gives code 1 and an empty list. Otherwise the list holds exactly the caller's rows, each once, as stored, and `count` is its length. The table is not changed. |
| App.TaskApp.DeleteTask | app.py:230-240 | The caller's existing task is removed and nothing else. No session, a missing id or another owner's task gives code 1 and no change. |
| App.TaskApp.BatchDeleteTask | app.py:242-258 | No session gives code 1. Otherwise exactly the listed rows owned by the caller are removed, whatever their status. All other rows remain. |
| App.TaskApp.DeleteRows | app.py:255-256 | The loop over the selected rows removes exactly those rows. |
| JsString.Split | static/js/main.js:197 | `split` yields at least one piece and at most one more piece than characters. |
| JsString.SplitPiece | static/js/main.js:197 | No piece contains the separator, and every character of a piece is a character of the split string. |
| JsString.JoinSplit | static/js/main.js:197 | Joining the pieces of a split with the separator gives back the string. |
| JsString.SplitJoin | static/js/main.js:201 | Splitting a join of separator-free pieces gives back the pieces. |
| JsString.Trim | static/js/main.js:198 | `trim` leaves no white space at either end and is never longer than its input. |
| JsString.TrimIsSlice | static/js/main.js:198 | The result of `trim` is one contiguous piece of the input, and everything before and after that piece is white space. |
| JsString.TrimChars | static/js/main.js:198 | Every character of a trimmed string is a character of the input. |
| JsString.TrimEmpty | static/js/main.js:198 | `trim` gives the empty string exactly when the input is all white space. |
| BatchForm.TrimLinesPointwise | static/js/main.js:198 | The `trim` stage keeps one line per input line, in place, each one trimmed. |
| BatchForm.NonEmptyMembers | static/js/main.js:199 | The first `filter` keeps exactly the non-empty lines: every kept line is non-empty and comes from the input, and every non-empty input line is kept. |
| BatchForm.DraftOfFields | static/js/main.js:200-203 | The name is trimmed and has no `-`. The url is `undefined` exactly when the line has no `-`; otherwise it is trimmed and has no `-` either. |
| BatchForm.KeepCompleteMembers | static/js/main.js:204 | The last `filter` keeps exactly the drafts with a non-empty name and url. Every kept task comes from such a draft, and every such draft is kept. |
| BatchForm.ParseTasksIsPerLine | static/js/main.js:197-204 | `ParseTasks`, the `map`/`filter` chain, gives the entries of the text's lines, one per valid line, in line order. |
| BatchForm.ParseTasksWellFormed | static/js/main.js:197-204 | Every task that `ParseTasks` returns has a non-empty name and url with no white space at their ends and no `-` or line break. There are never more tasks than lines. |
| BatchForm.PerLineAppend | static/js/main.js:197-204 | Entries keep the order of their lines: parsing concatenated lines gives the concatenated parses. |
| BatchForm.BlankLineIgnored | static/js/main.js:198-199 | A blank or whitespace-only line gives no task. |
| BatchForm.NoDashIgnored | static/js/main.js:201-204 | A line without `-` gives no task, because its url is `undefined`. |
| BatchForm.UrlCutAtDash | static/js/main.js:198-203 | For any line `a-b-rest` whose first two fields have no `-` and are not blank, the task is `a` and `b`, each trimmed. Only the first two `-`-separated fields are kept, so a url containing `-` is cut at its first `-`, whatever follows. |
| BatchForm.UrlCutExample | static/js/main.js:201 | `news-https://my-site.org` becomes the task `news` with url `https://my`. |
| BatchForm.ParseRenderRoundTrip | static/js/main.js:197-204 | Writing well-formed tasks one `name-url` per line and parsing the text gives back exactly those tasks. |
| BatchForm.AsInputs | static/js/main.js:211-214 | The request body carries one object per parsed task, in order, with both `name` and `url` present. |
| BatchForm.FormBatchIsCreatedWhole | static/js/main.js:204-214 | A batch the form sends is non-empty and every entry has both fields. `batch_create_task` therefore creates all of them and answers code 0. |
| BatchForm.BatchStartRequest | static/js/main.js:95-107 | No request when nothing is selected or no selected row is waiting. Otherwise the request carries the ids of the waiting rows. |
| BatchForm.WaitingRowsMembers | static/js/main.js:100 | The filter keeps exactly the selected rows that are `waiting`. |
| BatchForm.RowIds | static/js/main.js:107 | One id per row, in place: the `i`-th id is the `i`-th row's id. |
| BatchForm.WaitingIdsMembers | static/js/main.js:100-107 | `WaitingIds` sends an id exactly when a selected row with that id is `waiting`. |
| BatchForm.WaitingIdsAppend | static/js/main.js:100-107 | Ids are sent in selection order. |
| BatchForm.ClientFilterAgreesWithServer | static/js/main.js:100-111 | When the rows show the table's current statuses, sending only the waiting rows' ids starts the same tasks as sending all selected ids, because `batch_start_task` filters on `waiting` too. |

## Left out

- Flask routing, request JSON decoding and `jsonify`: a reply is its code (`Ok`/`Refused`) or `Uncaught`, plus the data it returns. The human-readable messages are not modelled.
- Sessions, login, registration, password hashing and the `user` table (app.py:58-103, database.py:14-22): the caller is an `Option<UserId>` parameter.
- SQLAlchemy, SQLite, commits, `create_app` and `init_db`: replaced by an in-memory map. A new id is one more than the largest id present. SQLite switches to a random unused id once the largest id reaches 2^63-1; that case is not modelled.
- `Database.TaskTable.Query`: returns rows in ascending id order. SQL gives no order guarantee; the routes' effects depend only on the set of rows selected.
- Threads (app.py:160-162, 183-185): concurrency is not modelled. Each spawned thread is an entry of `scheduled`, and its run is the explicit step `Complete`. Interleavings inside a run are not modelled: the row is read at the end of the 5-second wait, not at its start.
- `time.sleep` and `random.choice` (app.py:47-48): the outcome is the boolean argument `ok` of `Complete`.
- The exception handler of `execute_task` (app.py:53-55): it can reference an unbound `task`, so it is not modelled.
- `created_at` and its formatting (app.py:220, database.py:31): not modelled.
- Malformed request bodies (a missing body, `task_ids` not a list, batch entries that are not objects): not modelled. Length limits of `name` and `url`: not modelled, and SQLite does not enforce them.
- The rest of static/js/main.js (table rendering, dialogs, `fetch`, the status polling timer, the batch-delete button): user interface and I/O, not modelled.

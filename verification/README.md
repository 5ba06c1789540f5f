# Todo store and client reconciliation, modelled in Dafny

This project models the core of a small todo-list application: a server that
keeps `Todo` records in one table and a client that shows a copy of them.

- **Record shape and defaults** (`todo_schema.dfy`). A `Todo` has an id, a title, a completion flag and two
  timestamps. An insert that omits the flag or the timestamps gets `completed = false` and `now`.
- **Table** (`todo_list.dfy`, `todo_store.dfy`). The table is a sequence of rows, kept in insertion order,
  plus the serial counter that hands out ids. Its invariant is the primary key (ids are unique) and that
  every id was handed out before.
- **Update handler** (`TodoTable.UpdateTodo`). It builds a patch field by field and updates the row whose id
  matches. It returns that row as stored, or `None` when no row matches.
- **Delete handler** (`TodoTable.DeleteTodo`). It removes the row whose id matches and reports `success`
  exactly when a row was removed.
- **Input schemas** (`validation.dfy`). Each schema is a parse function from a JSON-like value to the typed
  input or a list of issues. Titles must have 1 to 255 characters and are not trimmed. Keys outside the
  shape are dropped.
- **Client** (`app.dfy`, `js_string.dfy`). The list reconciliations are pure functions: prepend on create,
  replace by id on update, filter by id on delete. The counts are derived from the list. The form and
  editing state form a small state machine, a class whose methods are the event handlers. `Trim` models
  JavaScript's `String.prototype.trim`.
- **Client and server together.** `Mirrors` says the client's list holds exactly the table's rows, each
  once, in any order. The lemmas `CreateKeepsMirror`, `UpdateKeepsMirror` and `DeleteKeepsMirror` prove that each
  reconciliation, applied to the server's answer, keeps the client in step with the table.

Timestamps are natural numbers, and the caller supplies `now`. The result of an RPC call is a parameter
`Reply<T>`: either the server's answer, or `Failed` when the call threw.

Three points where the code is narrower than a reader might expect:
- `server/src/schema.ts:17` checks only the title's length and does not trim, so `" "` is a valid title
  (`WhitespaceTitleAccepted`). Only the client checks `trim()` (`client/src/App.tsx:42`), and
  `SubmitCreate` still sends the untrimmed title.
- The update handler takes `updated_at` from the application clock (`server/src/handlers/update_todo.ts:11`),
  while an insert takes both timestamps from the database default (`server/src/db/schema.ts:8-9`). So
  `created_at <= updated_at` holds only for a clock that never runs backwards, and the model proves it
  under that assumption (`UpdateKeepsTimestampsOrdered`).
- The delete handler reports success when `rowCount > 0` (`server/src/handlers/delete_todo.ts:16`). Under the
  primary key at most one row matches (`AtMostOneWithId`), so success means exactly one row was removed.

## Model

| member | source | states |
|---|---|---|
| TodoSchema.WithDefaults | server/src/db/schema.ts:5-9 | an insert keeps the given id and title; an omitted `completed` is false, omitted timestamps are `now`, supplied values are kept |
| TodoSchema.TitleOnlyInsert | server/src/db/schema.ts:7-9 | an insert giving only a title stores a pending todo with `created_at == updated_at == now` |
| TodoList.RowsWithId | server/src/handlers/delete_todo.ts:10-12 | `WHERE id = x` selects exactly the rows carrying the id, and is empty iff no row has it |
| TodoList.WithoutId | server/src/handlers/delete_todo.ts:10-12 | the rows left after the delete are exactly the rows with other ids; the id is gone; the length drops by the number of rows removed |
| TodoList.Lookup | server/src/handlers/update_todo.ts:29-34 | a select by id is `None` iff no row has the id, and otherwise a stored row with that id |
| TodoList.AtMostOneWithId | server/src/db/schema.ts:5 | under the primary key at most one row matches an id, so a delete removes at most one row |
| TodoList.LookupFindsRow | server/src/db/schema.ts:5 | under the primary key, looking up a stored row's id returns that row |
| TodoList.WithoutIdKeepsUnique | server/src/handlers/delete_todo.ts:10-12 | a delete preserves the primary-key invariant |
| TodoList.WithoutIdConcat | server/src/handlers/delete_todo.ts:10-12 | removal distributes over concatenation, so the remaining rows keep their relative order |
| TodoList.RowsWithIdConcat | server/src/handlers/update_todo.ts:23-26 | the rows an update matches in a concatenation are the matches of each part, in order |
| TodoList.WithoutMissingId | server/src/handlers/delete_todo.ts:10-16 | deleting an id that no row has leaves the table unchanged |
| TodoList.WithoutIdIdempotent | server/src/handlers/delete_todo.ts:10-16 | deleting the same id twice leaves the table as after the first delete |
| TodoList.LookupWithoutId | server/src/handlers/delete_todo.ts:10-12 | after the delete, a lookup of the id finds nothing and a lookup of any other id finds what it found before |
| TodoList.LookupAppend | server/src/db/schema.ts:5 | appending a row with a fresh id makes it findable and leaves every other lookup unchanged |
| Validation.NumberIssues | server/src/schema.ts:24 | a required number field gives no issue iff it is present and a number |
| Validation.TitleIssues | server/src/schema.ts:17 | a title field gives no issue iff it is a string of 1..255 characters (or absent, when optional), and at most one issue |
| Validation.OptionalBoolIssues | server/src/schema.ts:26 | an optional boolean field gives no issue iff it is absent or a boolean |
| Validation.ParseCreate | server/src/schema.ts:16-18 | a create body is accepted iff it is an object whose `title` is a string of 1..255 characters; an accepted input is valid and carries that title |
| Validation.ParseUpdate | server/src/schema.ts:23-27 | an update body is accepted iff `id` is a number, `title` is absent or in bounds, and `completed` is absent or boolean; the input carries the id, and carries `title` and `completed` with the body's values exactly when the body has them |
| Validation.ParseId | server/src/schema.ts:32-34 | an id-only body is accepted iff `id` is present and a number |
| Validation.ParseDelete | server/src/schema.ts:32-34 | the delete schema accepts exactly the id-only bodies and carries their id |
| Validation.ParseGet | server/src/schema.ts:39-41 | the get schema accepts exactly the id-only bodies and carries their id |
| Validation.CreateRoundTrip | server/src/schema.ts:16-18 | an encoded create input is accepted iff its title has 1..255 characters, and is then decoded unchanged |
| Validation.UpdateRoundTrip | server/src/schema.ts:23-27 | an encoded update input is accepted iff its title is absent or in bounds, and is then decoded unchanged |
| Validation.IdRoundTrip | server/src/schema.ts:32-41 | every id is accepted by the delete and get schemas |
| Validation.UpdateIgnoresUnknownKeys | server/src/schema.ts:23-27 | keys outside the update shape do not change the outcome |
| Validation.WhitespaceTitleAccepted | server/src/schema.ts:17 | validation does not trim: a one-space title is accepted |
| Validation.TitleBoundIssues | server/src/schema.ts:17 | an empty title gives "Title cannot be empty", 256 characters give "Title too long", 255 characters pass |
| Validation.NullIsNotAbsent | server/src/schema.ts:26 | an explicit null `completed` is rejected rather than treated as absent |
| TodoStore.ApplyPatch | server/src/handlers/update_todo.ts:10-20 | present fields replace, absent fields keep, the timestamp becomes the patch's, and id and creation time never change |
| TodoStore.UpdateWhere | server/src/handlers/update_todo.ts:23-27 | the update keeps the table's length and ids, patches every row with the id, and leaves every other row exactly as it was |
| TodoStore.ApplyPatchIdempotent | server/src/handlers/update_todo.ts:10-20 | applying the same patch twice equals applying it once |
| TodoStore.EmptyPatchTouchesOnlyTimestamp | server/src/handlers/update_todo.ts:10-12 | with neither field supplied, only `updated_at` changes |
| TodoStore.UpdateMissingId | server/src/handlers/update_todo.ts:23-32 | updating an id that no row has leaves the table unchanged |
| TodoStore.UpdateKeepsUnique | server/src/handlers/update_todo.ts:23-27 | an update preserves the primary-key invariant |
| TodoStore.UpdateKeepsIdRange | server/src/handlers/update_todo.ts:23-27 | an update keeps every id among those the serial counter handed out |
| TodoStore.LookupAfterUpdate | server/src/handlers/update_todo.ts:23-34 | after the update, a lookup of the id finds the old row patched (or nothing), and lookups of other ids are unchanged |
| TodoStore.UpdateKeepsTitlesValid | server/src/handlers/update_todo.ts:14-16 | a patch whose title is valid keeps every stored title within 1..255 characters |
| TodoStore.UpdateKeepsTimestampsOrdered | server/src/handlers/update_todo.ts:10-12 | with a clock that never runs backwards, `created_at <= updated_at` is preserved and no row's `updated_at` decreases |
| TodoStore.TodoTable.constructor | server/src/db/schema.ts:4-10 | an empty table whose serial counter starts at 1 |
| TodoStore.TodoTable.Insert | server/src/db/schema.ts:5-9 | an insert takes the next serial id, which no row has, applies the column defaults, appends the row and keeps the invariant |
| TodoStore.BuildPatch | server/src/handlers/update_todo.ts:9-20 | the built patch always carries the new timestamp, and carries exactly the title and the completion flag the input supplies |
| TodoStore.TodoTable.UpdateTodo | server/src/handlers/update_todo.ts:7-39 | the table becomes the patched table, the result is the stored row or `None` exactly when the id is missing, and then nothing changed |
| TodoStore.TodoTable.DeleteTodo | server/src/handlers/delete_todo.ts:7-23 | the table loses exactly the rows with the id, `success` holds iff such a row existed, at most one row goes, and a missing id changes nothing |
| TodoStore.DeleteMiddleOfThree | server/src/tests/delete_todo.test.ts:55-82 | deleting the middle of three rows with distinct ids finds it and leaves the outer two, in order |
| TodoStore.DeleteMiddleScenario | server/src/tests/delete_todo.test.ts:55-82 | after three inserts, deleting the middle row succeeds, leaves "Todo 1" and "Todo 3" in that order, and a second delete reports no success |
| TodoStore.UpdateTitleScenario | server/src/tests/update_todo.test.ts:132-153 | updating only the title of a completed row returns the new title, keeps it completed and moves the timestamp forward |
| JsString.LeadingWhitespace | client/src/App.tsx:42 | the length of the longest white-space prefix |
| JsString.TrailingWhitespace | client/src/App.tsx:42 | the length of the longest white-space suffix |
| JsString.Trim | client/src/App.tsx:42 | `trim()` is empty iff the string is all white space; otherwise it is the piece of the string after its leading white space, with no white space at either end and only white space after it |
| JsString.TrimIdempotent | client/src/App.tsx:88 | trimming an already trimmed title changes nothing |
| JsString.TrimOfTrimmed | client/src/App.tsx:88 | a title that neither starts nor ends with whitespace is its own trim |
| TodoApp.ReplaceById | client/src/App.tsx:66-68 | the update reconciliation keeps length and order, replaces entries with the id, and leaves all others unchanged |
| TodoApp.CompletedOnly | client/src/App.tsx:122 | the filter keeps exactly the completed entries |
| TodoApp.CompletedCount | client/src/App.tsx:122-123 | `completedCount <= totalCount`, and it is zero iff no entry is completed |
| TodoApp.CompletedCountSplit | client/src/App.tsx:115 | the completed count splits into the entries with an id and the entries the delete filter keeps |
| TodoApp.CompletedCountCons | client/src/App.tsx:122 | the completed count of a list counts its first entry once if completed, then the rest |
| TodoApp.ReplaceCompletedCount | client/src/App.tsx:66-68 | after a replacement, the completed count is the rest's count plus one per replaced entry when the response is completed |
| TodoApp.ToggleMovesCountByOne | client/src/App.tsx:57-73 | with unique ids, a confirmed toggle moves `completedCount` by exactly one |
| TodoApp.CreateKeepsMirror | client/src/App.tsx:47 | prepending the inserted record, whose id no stored row has, keeps the client list mirroring the table with each id listed once |
| TodoApp.UpdateKeepsMirror | client/src/App.tsx:66-68 | replacing by id with the updated row keeps the client list mirroring the updated table |
| TodoApp.ReplaceKeepsUnique | client/src/App.tsx:66-68 | replacing by id with a response carrying that id keeps the listed ids unique |
| TodoApp.UpdateKeepsEntriesStored | client/src/App.tsx:66-68 | after the update, each reconciled entry is the stored row with its id |
| TodoApp.UpdateKeepsRowsListed | client/src/App.tsx:66-68 | after the update, each stored row is among the reconciled entries |
| TodoApp.DeleteKeepsMirror | client/src/App.tsx:114-115 | filtering out the id keeps the client list mirroring the table after the delete |
| TodoApp.App.constructor | client/src/App.tsx:14-22 | the initial state: empty list, not loading, nothing being edited, empty form |
| TodoApp.App.SetNewTodoTitle | client/src/App.tsx:160-161 | typing sets the form's title |
| TodoApp.App.SubmitCreate | client/src/App.tsx:40-46 | nothing is sent iff the trimmed title is empty; otherwise the untrimmed title is sent and the form is busy |
| TodoApp.App.FinishCreate | client/src/App.tsx:46-53 | an answer is prepended and clears the form, a failure changes neither, and the form stops being busy |
| TodoApp.App.HandleToggleComplete | client/src/App.tsx:57-73 | sends the flipped flag and no title; a non-null answer replaces by id, anything else leaves the list unchanged |
| TodoApp.App.StartEditing | client/src/App.tsx:76-79 | editing starts on the todo's id with its title |
| TodoApp.App.SetEditingTitle | client/src/App.tsx:231-232 | typing in the edit field sets the edited title |
| TodoApp.App.HandleSaveEdit | client/src/App.tsx:82-102 | a blank trimmed title does nothing; otherwise the trimmed, non-empty title is sent, a non-null answer replaces by id, any answer ends the editing, and a failure keeps it |
| TodoApp.App.CancelEditing | client/src/App.tsx:105-108 | editing ends with no id and an empty title |
| TodoApp.App.HandleDeleteTodo | client/src/App.tsx:111-120 | sends the id; a `success` answer filters that id out, anything else leaves the list unchanged |
| TodoApp.ToggleKeepsMirror | client/src/App.tsx:66-68 | for an entry the client shows, the server finds the row, and replacing the entry with the updated row keeps the mirror |
| TodoApp.ToggleFlipsStoredRow | client/src/App.tsx:57-68 | for a listed entry, the row the server returns for the toggle exists and carries the flipped flag |
| TodoApp.ToggleRound | client/src/App.tsx:57-73 | a toggle of a listed todo sends only the flipped flag; the table becomes the old rows with that patch applied to the todo's row, the list becomes the old list with the returned row replacing the todo; the table invariant and the mirror hold and the completed count moves by exactly one |
| TodoApp.DeleteRound | client/src/App.tsx:111-120 | whatever the server answers, the table and the list both become their old contents without the id, the table invariant holds and the client still mirrors the table |
| TodoApp.CreateRound | client/src/App.tsx:40-53 | a blank title or one the create schema rejects changes neither the table, the list nor the form, and a blank one leaves the busy flag alone; a valid non-blank title becomes the next serial row with the column defaults, appended to the table and prepended to the list, the form is cleared and is no longer busy; the table invariant and the mirror hold either way |

## Left out

- Database and ORM: query building, the SQL engine and the driver result objects are not modelled. The table is a sequence of rows. The removed-row count is the number of rows the `WHERE` clause matches.
- Row order: rows are kept in insertion order. A real `SELECT` without `ORDER BY` promises no order.
- The serial sequence: inserts with an explicit id are not modelled. Neither are sequence values that failed inserts use up.
- Store failures: the handlers' `try`/`catch` blocks only log and rethrow. Connectivity and constraint errors come from outside the model.
- Async behaviour and interleaving: each handler runs to completion. Concurrent requests and last-write-wins races are not modelled. On the client, an awaited call is split into what is sent and the `Reply` that comes back.
- Clocks: the server clock (`new Date()` in the update handler) and the database clock (`defaultNow()`) are the same caller-supplied `now`.
- The list, get-by-id and create handlers: their source is not part of this model. `Lookup` states the get-by-id behaviour that `server/src/tests/get_todo.test.ts` expects. The table's `Insert` stands in for create in `CreateRound`, after `ParseCreate` has accepted the body. Newest-first ordering of the list handler is not modelled.
- `todoSchema` (`server/src/schema.ts:5-11`): it is the `Todo` datatype, which has exactly its five fields. Its `z.coerce.date` coercion of timestamps is not modelled.
- Integer width: `serial('id')` (`server/src/db/schema.ts:5`) is a 32-bit column, so its sequence stops at 2147483647, while `z.number()` (`server/src/schema.ts:24, 33, 40`) accepts ids outside that range. In the source an insert past the end of the sequence fails, and an update or delete with an id outside the 32-bit range fails with a database error instead of answering `null` or `success: false`. The model's `nextId` and ids are unbounded integers, so `Insert` never fails and `UpdateTodo`/`DeleteTodo` answer "not found" for every missing id.
- Numbers: ids are integers. Fractional numbers, `NaN` and `Infinity` in a request body are not modelled.
- String length: titles are measured in characters (Unicode scalar values). JavaScript counts UTF-16 code units, which differs for characters outside the Basic Multilingual Plane.
- Issue messages: only the two title messages are modelled. Type-mismatch issues carry only a code and the field name.
- Rendering: JSX, styling, icons, dialogs, date formatting, the disabled state of buttons, initial loading (`loadTodos` and `useEffect`) and error logging are not modelled.
- Transport: the RPC client and server are not modelled. The request a handler sends is its returned input value, and the answer is the `Reply` parameter.

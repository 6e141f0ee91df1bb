# Todo resource handler, modelled in Dafny

This project models the todo routes of a small REST API (`routes/todos.js`). Each route is scoped to
the caller's user id, which the authentication middleware has already resolved.

- **Create** (`POST /api/todos`) rejects a missing or empty title with 400 "Title is required".
  Otherwise it stores one new record owned by the caller.
- **List** (`GET /api/todos`) filters by owner. It optionally filters by `completed`, compared
  with the text `"true"`, and by a non-empty `priority`. It sorts by `createdAt`, newest first,
  skips `(page - 1) * limit` matches and returns at most `limit` of them. The response includes
  the pagination block `{current, total, count, totalTodos}`.
- **Update** (`PUT /api/todos/:id`) finds the record by id and owner and answers 404 when there
  is none. It then assigns each field present in the body, one at a time.
- **Delete** (`DELETE /api/todos/:id`) finds and removes the record by id and owner in one step.
  It returns the record as it was, or 404.

Files:

- `todo.dfy` (module `TodoModel`) holds the record, the create body, the update patch and
  `ApplyPatch`. It also holds `Find`, the owner-scoped lookup behind `findOne` and
  `findOneAndDelete`, and the two table invariants: unique ids and creation order.
- `query.dfy` (module `TodoQuery`) holds the listing route as pure functions: filter, select,
  sort newest first, page and pagination arithmetic. `Math.ceil(total / limit)` is the integer
  `(total + limit - 1) / limit`.
- `routes.dfy` (module `TodoRoutes`) holds `TodoStore`, a class whose `todos` sequence is the
  collection. Its `Create`, `List`, `Update` and `Delete` methods are the four handlers.
  - `nextId` and `clock` stand in for the database's id and timestamp assignment.
  - The ghost set `issued` holds every id ever handed out, so the model can state that ids are
    never reused.
  - `AssignPresent` is the handler's field-by-field assignment of the update body.
  - `DeleteIsFinal` is a client method over any valid store: after a successful delete,
    its owner's update and delete of that id are not found, and a following create
    hands out a different id.
  - Three client methods, `ScenarioList`, `ScenarioUpdate` and `ScenarioDelete`, walk
    through the create / list / update / delete story. They use only the methods'
    contracts.

How the model reads particular points of the code:

- The create handler does not set `completed` (lines 19-25); the document schema gives it a
  default, and the schema is not part of this model. The store therefore takes that default
  as a constructor argument, `completedDefault`. It is not assumed to be `false`.
- The code neither validates `page` and `limit` nor clamps them to positive integers. It
  passes them through `parseInt` (lines 61, 72) and plain arithmetic (lines 60, 73). The model
  takes both as positive integers, with the defaults 1 and 10 of line 47.
- The title is checked only on create (line 12). An update body with `title: ""` assigns the
  empty title (line 105).
- The sort key is `createdAt` alone (line 62), with no tie-break. The model's table gives
  every record a distinct, increasing stamp (`CreationOrdered`). Under that invariant,
  `MatchingInCreationOrder` proves that the sorted matches are the selected records in
  reversed store order, with no two on the same stamp.

## Model

| member | source | states |
|---|---|---|
| TodoModel.ApplyPatch | routes/todos.js:105-109 | each field present in the patch takes the patch's value; every absent field, and the id, owner and creation stamp, keep their old value |
| TodoModel.EmptyPatchChangesNothing | routes/todos.js:105-109 | an update body with no fields leaves the record as it was |
| TodoModel.PatchIdempotent | routes/todos.js:105-109 | sending the same update twice has the effect of sending it once |
| TodoModel.PatchesCompose | routes/todos.js:105-109 | two updates in a row equal one update in which the later body wins field by field |
| TodoModel.Find | routes/todos.js:93-96 | the lookup returns the first position whose record has both the id and the caller as owner, and returns none exactly when no record has both |
| TodoModel.FindUnique | routes/todos.js:93-96 | when ids are unique, the lookup returns the one record matching `(id, user)` |
| TodoModel.ReplaceKeepsOrder | routes/todos.js:105-111 | saving an updated record that keeps its id and stamp preserves unique ids and creation order |
| TodoModel.RemoveKeepsOrder | routes/todos.js:131-134 | removing a record preserves unique ids and creation order, leaves no record with its id, and keeps every other stored record |
| TodoQuery.BuildFilter | routes/todos.js:49-57 | the filter always holds the caller; `completed` is present when the parameter is, and is true exactly when the text is "true"; `priority` is present exactly when the parameter is a non-empty string |
| TodoQuery.Select | routes/todos.js:65-66 | the selection holds each matching record exactly as often as the table does, and no other record |
| TodoQuery.SelectMembers | routes/todos.js:65 | a record is selected if and only if it is stored and matches the filter |
| TodoModel.MissingTitle | routes/todos.js:12 | `!title`: a title is missing when it is absent or the empty string |
| TodoQuery.Matches | routes/todos.js:65-66 | a record matches the filter when it has the filter's owner, its `completed` value if one is given, and its priority if one is given |
| TodoQuery.MatchesQuery | routes/todos.js:49-57 | a record matches a listing request if and only if it is the caller's, its `completed` equals `completed == "true"` when that parameter is given, and its priority is the parameter when that is non-empty |
| TodoQuery.Insert | routes/todos.js:62 | inserting adds exactly that record, and the result starts with it or with the old first entry |
| TodoQuery.InsertSorted | routes/todos.js:62 | inserting into a newest-first sequence keeps it newest first |
| TodoQuery.SortByCreatedDesc | routes/todos.js:62 | the result is ordered by `createdAt` descending and is a permutation of the input |
| TodoQuery.PageOf | routes/todos.js:59-61 | the page has at most `limit` entries; its entry `k` is entry `(page - 1) * limit + k` of the input; it is empty when the skip reaches the end of the input and otherwise holds `min(limit, remaining)` entries |
| TodoQuery.PageParam | routes/todos.js:47 | the page asked for, 1 when the query has none |
| TodoQuery.LimitParam | routes/todos.js:47 | the page size asked for, 10 when the query has none |
| TodoQuery.PageCount | routes/todos.js:73 | the result is the ceiling of `total / limit`: the pages hold every match, one page fewer would not, and it is zero only when there are no matches |
| TodoQuery.PageOfSorted | routes/todos.js:59-62 | a page of a newest-first sequence is newest first |
| TodoQuery.PageOfEmptyIff | routes/todos.js:59-61 | a page is empty if and only if its number exceeds the page count |
| TodoQuery.PageOfCovers | routes/todos.js:59-61 | every entry `i` appears on page `i / limit + 1`, at position `i % limit`, and that page is within the page count |
| TodoQuery.MatchingMembers | routes/todos.js:62-66 | the sorted matches are exactly the stored records that match the filter, and there are as many as `countDocuments` counts |
| TodoQuery.List | routes/todos.js:47-76 | `current` is the page asked for; `count` is the number of listed records and at most `limit`; every listed record is stored and matches the request's filter |
| TodoQuery.ListDefaults | routes/todos.js:47 | without `page` and `limit` the listing is page 1 and holds the first ten sorted matches, or all of them when there are fewer |
| TodoQuery.ListOnlyMatches | routes/todos.js:49-57 | every listed record is stored and owned by the caller; it has `completed == (completed == "true")` when that parameter is given, and the exact priority when a non-empty priority is given |
| TodoQuery.ListIsSortedSlice | routes/todos.js:59-65 | the listed page is newest first and is the slice of the sorted matches that starts at `(page - 1) * limit` |
| TodoQuery.ListPagination | routes/todos.js:71-75 | `current` is the page asked for; `count` is the number of listed records and at most `limit`; `totalTodos` is the number of matches; `total` is the ceiling of `totalTodos / limit` |
| TodoQuery.ListEmptyBeyondLastPage | routes/todos.js:59-75 | the listing is empty if and only if the page asked for lies beyond the reported page count |
| TodoQuery.ListTotalsIgnorePage | routes/todos.js:66-75 | `total` and `totalTodos` are the same whichever page is asked for |
| TodoQuery.ListCoversEveryMatch | routes/todos.js:59-75 | each match, at index `i` of the sorted matches, is listed on the page whose window holds `i`, and that page is within the reported page count |
| TodoQuery.Reverse | routes/todos.js:62 | the reversal has the input's length, and its entry `i` is the input's entry counted `i` from the end |
| TodoQuery.SelectKeepsOrder | routes/todos.js:65 | selecting from a table in creation order keeps creation order |
| TodoQuery.InsertOldest | routes/todos.js:62 | a record older than every entry goes to the end |
| TodoQuery.SortOrderedIsReverse | routes/todos.js:62 | sorting a table in creation order newest first reverses it |
| TodoQuery.ReverseOrderedIsStrict | routes/todos.js:62 | reversing a table in creation order gives strictly decreasing stamps |
| TodoQuery.PageOfStrict | routes/todos.js:59-62 | a page of a strictly newest-first sequence is strictly newest first |
| TodoQuery.MatchingInCreationOrder | routes/todos.js:62-65 | in a table in creation order, the sorted matches are the selected records in reversed store order, and no two share a stamp |
| TodoQuery.ListStrictlyNewestFirst | routes/todos.js:59-65 | in a table in creation order, a listed page has strictly decreasing stamps |
| TodoRoutes.Reply.Status | routes/todos.js:13-16 | 400 for a rejected body at line 13, 201 for a created record at line 29, 404 for a missing record at lines 99 and 137, and the default 200 of `res.json` at lines 68, 113 and 143 |
| TodoRoutes.Reply.Message | routes/todos.js:29-32 | the message of each reply: the three success texts of lines 31, 115 and 145, none for a listing, and the error text otherwise |
| TodoRoutes.TodoStore.constructor | routes/todos.js:2 | a new store is empty, has issued no ids and satisfies the table invariant |
| TodoRoutes.TodoStore.Create | routes/todos.js:8-34 | a missing or empty title gives 400 "Title is required" and changes nothing; otherwise the reply is 201 "Todo created successfully" and exactly one record is appended, with the caller as owner, the request's title, description, priority and due date, the schema's `completed` default, an id never issued before and a stamp later than every stored record |
| TodoRoutes.TodoStore.List | routes/todos.js:45-77 | the reply is 200 with the pure listing of the current table; every listed record is the caller's; `count` is the page length and at most `limit`; the page has strictly decreasing stamps; nothing changes |
| TodoRoutes.TodoStore.Update | routes/todos.js:89-117 | with no record matching `(id, caller)` it gives 404 "Todo not found" and changes nothing; otherwise the reply is 200 "Todo updated successfully", and only that record is replaced by the patched record, which is returned; records of other users keep their values and the id counters are untouched |
| TodoRoutes.TodoStore.Delete | routes/todos.js:129-147 | with no record matching `(id, caller)` it gives 404 "Todo not found" and changes nothing; otherwise the reply is 200 "Todo deleted successfully", and exactly that record is removed and returned as it was, no record with that id remains, and every record of another user is still stored |
| TodoRoutes.AssignPresent | routes/todos.js:105-109 | assigning each present field of the update body in turn yields the patched record |
| TodoRoutes.DeleteIsFinal | routes/todos.js:129-141 | on any valid store, after a successful delete its owner's update and delete of that id give 404 "Todo not found", and a following create gives the new record a different id |

## Left out

- Store failures and the 500 replies of each handler (routes/todos.js:35-41, 79-85, 119-125, 149-155). The model's store cannot fail, and `async`/`await` sequencing is not modelled.
- Authentication: `authMiddleware` is not part of this model. The caller's user id is an input to every method.
- The document schema (`models/Todo`) is not part of this model. Its defaults, enum checks and validation on `save` are left out. An update that sets an empty title, which save-time validation might reject, is modelled as the assignment the handler performs.
- Conversion of the `:id` path parameter to a database id, and the cast error it raises on a malformed id. Ids are natural numbers.
- JavaScript's coercion of `page` and `limit` (`parseInt`, `NaN`, zero, negative or non-numeric values, and a `limit` of 0 that the database reads as "no limit"). Both are positive integers here.
- Query parameters given more than once (arrays) and non-string JSON bodies. Every field has the one type the handler expects.
- An `updatedAt` stamp that the schema may maintain on save.
- Documents are values: Update patches a copy of the found record and writes it back. Aliasing between the fetched document object and the stored one is not modelled.
- SortByCreatedDesc: the code sorts by `createdAt` alone (line 62). Records with equal stamps may be ordered differently from one page query to the next, so one record can appear on two pages or on none. The model's clock makes stamps strictly increasing, and its sort is a fixed insertion sort. So `ListCoversEveryMatch` covers every match across separate page requests only because of a tie-break that the code does not have. `TodoStore.List` (its `StrictlyNewestFirst` clause), `MatchingInCreationOrder` and `ListStrictlyNewestFirst` promise strictly decreasing stamps only because of that clock. The code's `createdAt` stamps can tie when two creates land in the same millisecond.
- Concurrency between requests is delegated to the database and not modelled; every method runs as one atomic step.
- `server.js` (app bootstrap, static files, 404/500 fallbacks, listening) and `config/database.js` (connection and diagnostics) are framework and process plumbing and are not modelled.

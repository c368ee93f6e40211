# Todo table view-model in Dafny

This project models the client-side logic of the todo table in
`frontend/src/components/Todo.tsx`. That file holds three React components:

- **`Todos`** owns the cached list of todos and the sort selection, a column
  and a direction that start as `"id"` and `"asc"`. `fetchTodos` replaces the
  cache from the server. `sortTodos` handles a click on a column header.
  `sortedTodos` is the sorted copy that the table renders.
- **`UpdateTodo`** is the edit dialog of one row. Its inputs start from the
  row's values. The handler validates them before sending a PUT, and reverts
  them when the server rejects the update.
- **`AddTodo`** is the "Create new task" dialog. The handler validates the
  inputs, looks up the current user, sends a POST, and resets the inputs.

The project has seven modules:

- `JsStrings` defines JavaScript's `<` on strings, which is lexicographic
  order. It proves that this order matches the language standard's
  first-difference definition and that it is a strict total order.
- `TodoRecord` defines the `Todo` record (every field a string), the six
  sortable columns, the two directions and the required-field rule.
- `SortOrder` defines the comparator passed to `sort` and the sorted
  projection. It proves that the comparator is consistent. It also proves
  that the projection is a permutation, ordered on the selected field, and
  keeps tied rows in their input order. Together these properties fix a
  single result, so every stable sort returns the same array.
- `SortSelection` models a header click as a pure state transition, along
  with a replay of a series of clicks.
- `TodosTable.TodoTable` is a class holding the cached list and the sort
  selection. A ghost history of clicks shows that the selection is always
  what the clicks so far make of the initial `("id", "asc")`.
- `EditDialog.UpdateForm` and `CreateDialog.CreateForm` are classes holding
  the dialogs' input fields and error message.

Network access is not modelled. The presence of a session token, the
response status, and the fields of a response body are parameters of the
handlers. Each handler returns an outcome value that says which request it
sent, if any, and whether the table is asked to refetch.

### Behaviour of the code worth knowing

- **Sort direction and ties.** Clicking the active header twice does not
  always reverse the rows. The comparator returns 0 for equal keys, and the
  sort is stable, so tied rows keep their input order in both directions.
  - `SortOrder.DescendingReversesAscendingWhenKeysDistinct` proves that the
    descending view is the reverse of the ascending view when no two rows
    tie.
  - `SortOrder.TiedRowsKeepOrderInBothDirections` shows that it is not the
    reverse when two rows tie.
  - `SortOrder.DescendingIsBackwardsAscendingOfReversed` states the exact
    relation that holds in every case.
- **Fetching without a token.** Without a token, `fetchTodos` returns and
  leaves the cache as it was. The cache is empty only if nothing was
  fetched before.
- **Status values.** The status is only checked for being non-empty; any
  other text is sent as it is.
- **Reverting an edit.** The edit dialog stays mounted under the row's key
  while the table re-renders, so its inputs keep their state. A rejected
  update reverts them to the row as the table last rendered it, which
  after a successful save and refetch is the saved value, not the value
  the dialog first showed (`EditDialog.RevertsToLatestRender`).
- **Creating a todo.** The handler proceeds only when the user lookup
  (`GET /users`) answers with status 201. Any other status shows the body's
  `detail`, clears title, description and status, and creates nothing.
  - The due time is never cleared by the handler or by `close`.
  - The answer to the POST itself is not read.
  - The model keeps all of this as written. In particular, a lookup that
    answers 200 is a failure here (`CreateDialog.CreateForm.HandleSubmit`).
  - The backend routes that read users (`backend/app/api.py:176`,
    `backend/app/api.py:204`) answer 200, and none of them is `/users`.
    Whether creation can ever succeed therefore depends on a server that is
    not part of this model.

## Model

| member | source | states |
|---|---|---|
| JsStrings.Less | frontend/src/components/Todo.tsx:102-105 | `columnA < columnB` on strings: a string is never smaller than itself, and a proper prefix is smaller than the longer string. |
| JsStrings.LessMatchesStandard | frontend/src/components/Todo.tsx:102-105 | The order used for `columnA < columnB` holds exactly when `a` is a proper prefix of `b`, or when `a` has the smaller character at the first position where the two differ. |
| JsStrings.LessTrichotomy | frontend/src/components/Todo.tsx:102-108 | Any two field values compare as smaller, equal or larger, so the comparator's three branches cover every pair. |
| JsStrings.LessTransitive | frontend/src/components/Todo.tsx:102-105 | String `<` is transitive. |
| JsStrings.LessIrreflexive | frontend/src/components/Todo.tsx:102-105 | No string is `<` itself. |
| JsStrings.LessAsymmetric | frontend/src/components/Todo.tsx:102-105 | If `a < b`, then `b < a` is false and the two strings differ. |
| TodoRecord.Key | frontend/src/components/Todo.tsx:100-101 | The value the comparator reads from a row is the row's property named by the selected header. |
| TodoRecord.HeadersCoverProperties | frontend/src/components/Todo.tsx:61-68 | A name selects a property of a `Todo` exactly when some header passes that name, so the six columns are the record's six fields. |
| TodoRecord.MissingRequired | frontend/src/components/Todo.tsx:218 | The form passes validation exactly when title, status and due time are all non-empty. The description plays no part. |
| TodoRecord.ColumnNameInjective | frontend/src/components/Todo.tsx:132-165 | Each of the six headers passes its own column name, so comparing names is the same as comparing columns. |
| SortOrder.Compare | frontend/src/components/Todo.tsx:99-109 | The result is -1, 0 or 1. It is 0 exactly when the two selected fields are equal. It is negative exactly when the first field sorts strictly before the second in the chosen direction (string `<` for "asc", `>` for "desc"). |
| SortOrder.CompareConsistent | frontend/src/components/Todo.tsx:99-109 | The comparator is consistent: swapping the arguments negates the result, and "before", "tied" and "before or tied" are each transitive. |
| SortOrder.SortedTodos | frontend/src/components/Todo.tsx:98-110 | The projection is a permutation of the cached list (same multiset, same length). |
| SortOrder.SortedTodosOrdered | frontend/src/components/Todo.tsx:98-110 | With "asc" the projection is non-decreasing in the selected field under string order; with "desc" it is non-increasing. |
| SortOrder.SortedTodosKeepsTies | frontend/src/components/Todo.tsx:108 | For every key value, the rows with that value appear in the projection in the same order as in the cached list (a stable sort). |
| SortOrder.SortedTodosCorrect | frontend/src/components/Todo.tsx:98-110 | The projection is ordered and keeps ties, for every key at once. |
| SortOrder.StableOrderUnique | frontend/src/components/Todo.tsx:99 | Two lists that are both ordered and agree on the order of the rows of every key are equal. So a stable sort with this comparator has exactly one possible result. |
| SortOrder.SortSpecDeterminesResult | frontend/src/components/Todo.tsx:98-110 | Any ordered list that keeps the cached list's ties is the projection, whichever stable algorithm produced it. |
| SortOrder.DescendingIsBackwardsAscendingOfReversed | frontend/src/components/Todo.tsx:102-107 | The "desc" projection equals the "asc" projection of the reversed list, read backwards. |
| SortOrder.DescendingReversesAscendingWhenKeysDistinct | frontend/src/components/Todo.tsx:98-110 | When no two rows share a value in the column, the "desc" projection is the exact reverse of the "asc" one. |
| SortOrder.TiedRowsKeepOrderInBothDirections | frontend/src/components/Todo.tsx:108 | Two rows with the same title stay in input order under both "asc" and "desc", so the "desc" view is not the reverse of the "asc" view. |
| SortOrder.SortByTitleExample | frontend/src/components/Todo.tsx:136-141 | Rows titled "b" then "a", sorted on the title, show "a" first with "asc" and "b" first with "desc". |
| SortSelection.Click | frontend/src/components/Todo.tsx:89-96 | After a click, the clicked column is the active one. |
| SortSelection.ClickActiveColumn | frontend/src/components/Todo.tsx:90-91 | Clicking the active column keeps it and flips the direction. A second click on it restores the original selection. |
| SortSelection.ClickOtherColumn | frontend/src/components/Todo.tsx:92-95 | Clicking another column selects it with "asc", whatever the previous direction was. |
| SortSelection.Replay | frontend/src/components/Todo.tsx:89-96 | After a non-empty series of clicks, the active column is the last one clicked. With no clicks, the selection is unchanged. |
| SortSelection.ReplayAppend | frontend/src/components/Todo.tsx:89-96 | Replaying one more click applies that click to the selection reached so far. |
| SortSelection.RepeatedClicks | frontend/src/components/Todo.tsx:89-96 | After n clicks in a row on one header: on the active column, the direction has flipped n times; on another column, it is "asc" flipped n - 1 times. |
| TodosTable.TodoTable.constructor | frontend/src/components/Todo.tsx:71-73 | The cache starts empty and the selection starts as column "id", direction "asc", with no clicks recorded. |
| TodosTable.TodoTable.FetchTodos | frontend/src/components/Todo.tsx:74-87 | Without a token, or with a status other than 200, the cache is unchanged. Otherwise the response body replaces the whole cache. The sort selection never changes. |
| TodosTable.TodoTable.SortTodos | frontend/src/components/Todo.tsx:89-96 | The new selection is `Click` of the old one. The cache is unchanged. The invariant that the selection replays the recorded clicks from ("id", "asc") is kept. |
| TodosTable.TodoTable.SortedView | frontend/src/components/Todo.tsx:98-110 | The rendered rows are a permutation of the cache, ordered on the selected column, with ties in cache order. Computing them changes nothing. |
| EditDialog.UpdateForm.constructor | frontend/src/components/Todo.tsx:207-212 | The inputs start with the row's title, description, status and due time, and the error message starts empty. |
| EditDialog.UpdateForm.Rerender | frontend/src/components/Todo.tsx:171-182 | A re-render with the same row id replaces the props the dialog reverts to, and keeps its inputs and error message. |
| EditDialog.UpdateForm.Change | frontend/src/components/Todo.tsx:273-326 | Typing into one input sets only that input. |
| EditDialog.UpdateForm.HandleUpdate | frontend/src/components/Todo.tsx:217-248 | With an empty title, status or due time: nothing is sent, the required-fields message is shown, and the inputs are kept. With no token: nothing is sent and nothing changes. Otherwise the PUT body carries the row id and the current inputs. A status other than 200 shows the response message and reverts all four inputs to the row's values from the latest render. A 200 closes the dialog and asks for a refetch, and the inputs are kept. |
| EditDialog.RevertsToLatestRender | frontend/src/components/Todo.tsx:207-248 | After a title saved as "B" has been re-rendered, a rejected edit to "C" reverts the input to "B", not to the "A" first shown. |
| EditDialog.UpdateForm.Close | frontend/src/components/Todo.tsx:256-259 | Closing clears the error message and keeps the inputs. |
| CreateDialog.CreateForm.constructor | frontend/src/components/Todo.tsx:407-411 | Title, description, due time and error start empty. Status starts as "not started". |
| CreateDialog.CreateForm.Change | frontend/src/components/Todo.tsx:503-557 | Typing into one input sets only that input. |
| CreateDialog.CreateForm.HandleSubmit | frontend/src/components/Todo.tsx:419-465 | With an empty title, status or due time: nothing is sent, the required-fields message is shown, and the inputs are kept. With no token: nothing happens. A user lookup answered with a status other than 201 shows its `detail`, resets title, description and status, and creates nothing. Otherwise the POST carries the inputs and the looked-up user id, then title, description and status are reset. The due time is never changed. |
| CreateDialog.CreateForm.Close | frontend/src/components/Todo.tsx:473-479 | Closing resets title and description to "", status to "not started" and the error to "". The due time is left as it was. |

## Left out

- **Network and storage.** `fetch`, JSON decoding and `localStorage` are not modelled. The handlers take as parameters whether a token is present, the response status, and the body fields that are read (`message`, `detail`, `id`, or the list of rows).
- **Missing body fields.** When a response body lacks the field read (`data.message`, `data.detail`), JavaScript yields `undefined`. The model takes whatever string the caller passes.
- **Failed JSON decoding.** `fetchTodos` decodes the body before it checks the status. A body that fails to decode throws, and that is not modelled.
- **Asynchrony.** The order of awaits and races between overlapping update, delete and refetch requests are not modelled. The outcome values `Saved` and `Submitted` stand for "close the dialog and call `fetchTodos`". The call itself is `TodoTable.FetchTodos`, made by the caller.
- **Rendering.** JSX, the Chakra UI modals, opening and closing through `useDisclosure`, the "Sign In to use Todos" placeholder and the empty render without a token are presentation only. The Enter-key handlers are not modelled separately because they only call the same handlers. `useMemo` and `useEffect` scheduling are left out too: the sorted view is a function of the current state, and the mount-time fetch is an ordinary `FetchTodos` call.
- **`DeleteTodo.handleDelete`.** It sends a DELETE, then closes its dialog and refetches whatever the response. It touches none of the state modelled here, so only its effect remains: a later `TodoTable.FetchTodos`.
- **Characters outside the Basic Multilingual Plane.** Strings are Dafny `string`, a sequence of Unicode code points. JavaScript compares UTF-16 code units. The two orders agree whenever neither string contains a character outside the Basic Multilingual Plane.
- **The sort column as a string.** In the source the sort column is a string, and the headers only ever pass one of six property names. The model uses an enumeration of those six. `TodoRecord.ColumnNameInjective` shows that comparing the two forms gives the same answer, and `TodoRecord.HeadersCoverProperties` shows that the six names are exactly the properties of a `Todo`.
- **Other parts of the repository.** The profile, sign-out, header and page components and the Python backend (`backend/app/api.py`, `backend/app/auth/auth.py`, `backend/app/config/db.py`, `backend/main.py`) are not part of this model. They are fetch, storage and SQL plumbing around foreign libraries.

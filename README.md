# Todo-list state controller

A Dafny model of the state controller of a single-page todo application
(`src/App.tsx`). The component owns an ordered list of todos
(`{id, text, completed, created_at}`) and a `loading` flag, and keeps them in
step with a hosted database that has two tables: `todos` (the active table)
and `deleted_tasks` (the archive). Four operations each make one or more remote
calls and then update the local state:

- `fetchTodos` replaces the list with the fetched rows (`[]` when the data is
  null), keeps it on failure, and always clears `loading`;
- `addTodo` inserts `{text, completed: false}` and, only on success, puts the
  returned row in front of the list;
- `toggleTodo` sends `completed = !todo?.completed` (which is `true` when no
  local todo has the id, and the update is still issued) and, only on success,
  flips `completed` on every local entry with that id;
- `deleteTodo` looks the todo up (a missing id makes no remote call), writes an
  archive record, deletes the row from the active table only if the archive
  insert succeeded, and filters the todo out of the list only if both calls
  succeeded.

`completedCount` is derived from the list.

Files:

- `todos.dfy`, module `Todos`: the records and the pure list transforms (`find`,
  the flipping `map`, the removing `filter`, the completed count), with lemmas
  about them.
- `remote.dfy`, module `Remote`: the remote store as a class holding both tables
  and a ghost log of every call issued, with whether it succeeded. Whether a
  call succeeds, and what a successful read or insert returns, is a parameter
  of the call. The predicate `ArchivedBeforeDeleted` states that every delete
  on the active table comes after a successful archive insert of the same id.
- `app.dfy`, module `App`: the controller class `TodoApp` (fields `todos`,
  `loading`, and the store) with the four operations. Each keeps `Valid()`,
  which is archive-before-delete over the whole log. Each also keeps
  `Synced()`, which says the local list equals the active table and has unique
  ids; for `addTodo` this needs the new row's id to be fresh, and for
  `fetchTodos` it needs the fetched rows to be the table.

Every operation states its whole new state. The local list changes only along
the success path. Its frame (`modifies`) lists every field the operation may change,
and nothing else changes.

## Model

| member | source | states |
|---|---|---|
| `App.TodoApp.constructor` | src/App.tsx:9-10 | the list starts empty and `loading` starts true |
| `App.TodoApp.FetchTodos` | src/App.tsx:16-31 | exactly one read is issued; on success the list is exactly the fetched rows, or `[]` when the data is null, with nothing merged from before; on failure the list is unchanged; `loading` is false afterwards in every case; the tables are not touched |
| `App.TodoApp.AddTodo` | src/App.tsx:34-47 | exactly one insert of `{text, completed: false}` is issued; on success the list grows by one, its head is the returned row and its tail is the old list; on failure the list is unchanged; the mirror of the active table is kept when the new id is fresh |
| `App.TodoApp.ToggleTodo` | src/App.tsx:50-68 | exactly one update is issued, even for an id no local todo has, carrying `ToggleValue` of the old list; on success the list is the flip of the old list, on failure it is unchanged; the mirror of the active table is kept |
| `App.TodoApp.DeleteTodo` | src/App.tsx:70-100 | a missing id makes no call and changes neither the list nor either table; otherwise the archive insert of the found todo comes first, the active delete is issued only if it succeeded, the archive gains exactly that one record on success, and the list and the active table lose the id only if both calls succeeded |
| `App.TodoApp.CompletedCount` | src/App.tsx:102 | the count is at most the list's length and is zero exactly when no todo is completed |
| `App.ToggleTwice` | src/App.tsx:50-68 | two successful toggles of the same id restore the list, and restore the active table when the list mirrored it |
| `Todos.Find` | src/App.tsx:52 | a found todo is in the list and has the id; no result means no entry has the id |
| `Todos.FindFirst` | src/App.tsx:73 | `find` returns the first entry with the id |
| `Todos.FindUnique` | src/App.tsx:73 | with unique ids, `find` returns the only entry with the id |
| `Todos.ToggleValue` | src/App.tsx:52-55 | the value toggle sends: the negation of the `completed` of the first entry with the id, or `true` when no entry has the id |
| `Todos.ArchiveOf` | src/App.tsx:79-84 | the archive record: `id` becomes `taskId`; `text`, `completed` and `createdAt` are copied, so the todo can be rebuilt from the record |
| `Todos.FlipCompleted` | src/App.tsx:61-63 | the length is unchanged; each entry with the id has `completed` negated and its other fields kept; every other entry is identical |
| `Todos.SetCompleted` | src/App.tsx:53-56 | the store update: each row with the id gets the sent value; every other row is identical |
| `Todos.FlipTwice` | src/App.tsx:61-63 | the flip is an involution |
| `Todos.FlipKeepsUnique` | src/App.tsx:61-63 | the flip keeps the ids unique |
| `Todos.FlipIsSetCompleted` | src/App.tsx:52-63 | with unique ids, the local flip equals the store update with the value toggle sends |
| `Todos.RemoveId` | src/App.tsx:96 | the result keeps exactly the entries whose id differs, and is no longer than the input |
| `Todos.RemoveIdAppend` | src/App.tsx:96 | the filter distributes over concatenation, so the kept entries keep their relative order |
| `Todos.RemoveIdAbsent` | src/App.tsx:96 | removing an id no entry has changes nothing |
| `Todos.RemoveIdAt` | src/App.tsx:96 | with unique ids, removing the id of entry `k` yields the list without entry `k`, one shorter, the others in order |
| `Todos.RemoveIdKeepsUnique` | src/App.tsx:96 | the filter keeps the ids unique |
| `Todos.ConsKeepsUnique` | src/App.tsx:44 | prepending a row whose id is fresh keeps the ids unique |
| `Todos.CountCompleted` | src/App.tsx:102 | the count is at most the length; it equals the length exactly when all are completed and is zero exactly when none is |
| `Todos.CountAppend` | src/App.tsx:102 | the count of a concatenation is the sum of the counts |
| `Todos.CountAfterFlip` | src/App.tsx:61-63 | with unique ids, a toggle moves the count down by one for a completed todo and up by one otherwise |
| `Todos.CountAfterRemove` | src/App.tsx:96 | with unique ids, a delete lowers the count by one exactly when the deleted todo was completed |
| `Remote.AppendOtherKeepsOrdering` | src/App.tsx:76-94 | a call that is not an active delete keeps archive-before-delete |
| `Remote.ArchiveThenDeleteKeepsOrdering` | src/App.tsx:76-94 | a successful archive insert followed by the delete of that id keeps archive-before-delete |
| `Remote.DeleteFirstBreaksOrdering` | src/App.tsx:76-94 | an active delete with no archive before it violates archive-before-delete, so the predicate is not trivial |
| `Remote.RemoteStore.constructor` | src/App.tsx:6 | a store starts with the given tables and an empty log |
| `Remote.RemoteStore.Select` | src/App.tsx:19-22 | a read is logged and changes neither table |
| `Remote.RemoteStore.Insert` | src/App.tsx:36-40 | an insert is logged; on success the returned row joins the active table |
| `Remote.RemoteStore.Update` | src/App.tsx:53-56 | an update is logged; on success every row with the id gets the value |
| `Remote.RemoteStore.Delete` | src/App.tsx:89-92 | a delete is logged; on success every row with the id leaves the active table |
| `Remote.RemoteStore.Archive` | src/App.tsx:77-84 | an archive insert is logged; on success the archive gains exactly that record |

## Left out

- The JSX rendering, the `useEffect` that runs the first fetch, and the `TodoItem` component: presentation and framework lifecycle, with no logic to verify.
- The database client (`src/lib/supabase`) is not part of this model. It is an abstract store whose calls succeed or fail as a parameter says. Ordering by `created_at` and the `.select().single()` shape are not modelled. The rows a read returns are a parameter and are not tied to the store's active table. The row an insert returns is a parameter and is not checked against the inserted text.
- Where the store puts an inserted row in its active table is not meaningful. The model puts it first, matching the local prepend.
- Overlapping asynchronous operations and the stale `todos` they capture are not modelled: each operation runs to completion alone.
- `console.error` logging is left out: it is a diagnostic only.
- Validation of empty text lives in `TodoInput`, which is not part of this model; `addTodo` does not check it either.
- The transient `loading = true` during a fetch is not observable in the model, because each operation runs to completion; only the final `false` is stated.

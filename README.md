# To-do store of buggyhtml, modelled in Dafny

`script.js` keeps a to-do list in the browser's `localStorage`. Every operation
reads the whole list (`getTodos`), changes a local copy and writes the whole
list back (`saveTodos`). The operations are add, look up by id, update in place,
delete and toggle-complete.

The model has four modules:

- `Wrappers` (`wrappers.dfy`): `Option`, which stands for a JavaScript value that may be `undefined`.
- `Todos` (`todos.dfy`): the record and the list logic as pure functions. This covers
  `findIndex` and `filter` by id, the record `addTodo` builds, the replacement
  `updateTodo` makes and the flag flip `toggleComplete` makes. The lemmas about them are here too.
- `Storage` (`storage.dfy`): the key-value store as a `map<string, seq<Todo>>`.
  It has the `getTodos` read (`Load`), the `saveTodos` write (`Saved`) and the
  class `TodoStore`. Its one field `storage` is the browser store, and its
  methods are the seven functions of the script. Each method states the whole
  new store in terms of the old one.
- `Intended` (`intended.dfy`): what the script evidently means where it goes wrong
  (see "## Findings"). Each correction comes with a lemma that shows where the
  code as written departs from it.

The class models the code **as written**. Where the design description of the
application disagrees with the code, the code is followed:
- `deleteTodo` keeps the records whose id equals the argument.
- Reads use the key `'todo'` and writes use the key `'todos'`.
- `addTodo` returns nothing.
- A record carries two optional flags. `addTodo` sets `complete`. `updateTodo`
  and `toggleComplete` set `completed`.

`Date.now()` becomes the `id` parameter of `AddTodo`.

JavaScript's `!` on a missing field is `true`, so toggling a record that has no
`completed` field gives `completed: true` (`Todos.Not`).

Each operation parses a fresh copy of the list, so changing it in place cannot
affect anything else. The model therefore treats it as a `seq` value that the
method reassigns.

## Model

| member | source | states |
|---|---|---|
| `Storage.Load` | script.js:1-4 | `getTodos` gives `[]` when the key `'todo'` is missing, and otherwise the list stored under it |
| `Storage.Saved` | script.js:6-8 | `saveTodos` puts the list under `'todos'`. Every other key, `'todo'` included, keeps its entry |
| `Storage.SaveIsNeverLoaded` | script.js:1-8 | a `saveTodos` never changes what the next `getTodos` returns |
| `Storage.SecondAddDiscardsFirst` | script.js:10-20 | after two `addTodo` calls, `'todos'` holds the `'todo'` list plus only the second record |
| `Storage.TodoStore.GetTodos` | script.js:1-4 | returns `[]` without `'todo'`, else the stored list, and changes nothing |
| `Storage.TodoStore.SaveTodos` | script.js:6-8 | the new store is the old one with `'todos'` set to the list |
| `Storage.TodoStore.AddTodo` | script.js:10-20 | writes the list read from `'todo'` with one record appended: the given id, title and description, `complete: false`. The earlier records keep their order and values. A later `getTodos` returns the same list as before |
| `Storage.TodoStore.GetTodoById` | script.js:22-25 | returns nothing exactly when no stored record has the id. Otherwise it returns the record at the first matching position, and it changes nothing |
| `Storage.TodoStore.UpdateTodo` | script.js:27-34 | with an absent id the store is unchanged. Otherwise it writes `UpdatedTodos` of the read list |
| `Storage.TodoStore.DeleteTodo` | script.js:36-40 | always writes `FilterById` of the read list. With an absent id it writes the empty list |
| `Storage.TodoStore.ToggleComplete` | script.js:65-72 | with an absent id the store is unchanged. Otherwise it writes `ToggledTodos` of the read list |
| `Todos.FindIndex` | script.js:29 | gives -1 exactly when no record has the id. Otherwise it gives a position holding the id with no earlier position holding it |
| `Todos.FilterById` | script.js:38 | the result is a subsequence of the input in the same order. All its records have the id, and each record with the id occurs as often as in the input |
| `Todos.FilterStartsAtFirstMatch` | script.js:24 | the filter is empty exactly when `findIndex` gives -1. Otherwise its first element is the record at the first match |
| `Todos.FirstById` | script.js:22-25 | `filter(...)[0]` is absent exactly when no record has the id. Otherwise it is the record at the first matching position |
| `Todos.FirstMatchIgnoresLater` | script.js:24 | records after a match, duplicates included, never change the lookup result or the first-match index |
| `Todos.AppendedIsFound` | script.js:18-24 | a record appended under a fresh id is found by lookup, at the last position |
| `Todos.UpdatedTodos` | script.js:27-34 | no write exactly when the id is absent. Otherwise the list keeps its length, the first match becomes `{id, title, description, completed}`, and every other position is unchanged |
| `Todos.FindIndexAfterWriteAtMatch` | script.js:29-31 | writing a record with the same id at the first match keeps the first match at that position |
| `Todos.UpdateThenGet` | script.js:22-34 | after an update, lookup of the id on the written list gives the edited record |
| `Todos.UpdateIsIdempotent` | script.js:27-34 | updating again with the same arguments writes the same list |
| `Todos.ToggledTodos` | script.js:65-72 | no write exactly when the id is absent. Otherwise only the first match changes, and only in `completed`, which becomes `!completed` (with a missing field read as false). Length is preserved |
| `Todos.ToggleTwiceRestores` | script.js:65-72 | when the first match carries a `completed` field, two toggles restore the list |
| `Todos.ToggleTwiceOnNewTodoDiffers` | script.js:12-17 | a record made by `addTodo` has no `completed` field. Two toggles leave it with `completed: false`, so the list is not restored |
| `Todos.FilterOnUniqueIdsIsTheMatch` | script.js:36-40 | with distinct ids, the as-written delete writes exactly the one record with the id |
| `Intended.IntendedLoad` | script.js:2 | the corrected read takes the list from `'todos'`, the key that is written |
| `Intended.IntendedAdd` | script.js:10-20 | the corrected add appends a `completed: false` record to the list read back from `'todos'` |
| `Intended.IntendedAddThenGet` | script.js:1-25 | with one key, lookup right after adding a fresh id finds the new record |
| `Intended.AsWrittenAddIsNotRead` | script.js:1-25 | as written, lookup right after adding a fresh id finds nothing |
| `Intended.WithoutId` | script.js:38 | the corrected delete filter gives a subsequence in the same order. No record in it has the id, and every other record keeps its multiplicity |
| `Intended.IntendedDelete` | script.js:36-40 | the corrected delete writes `WithoutId` of the list read back |
| `Intended.WithoutAbsentIsIdentity` | script.js:38 | the corrected delete with an absent id leaves the list unchanged |
| `Intended.WithoutRemovesExactlyTheMatch` | script.js:38 | with distinct ids, the corrected delete removes exactly the matching position and keeps the rest in order |
| `Intended.DeleteIsInverted` | script.js:38 | on `[{id 1}, {id 2}]`, deleting 1 as written leaves `[{id 1}]`, while the corrected delete leaves `[{id 2}]` |
| `Intended.IntendedToggle` | script.js:65-72 | the corrected toggle writes `ToggledTodos` of the list read back, and leaves the store unchanged when the id is absent |
| `Intended.IntendedToggleTwiceRestores` | script.js:65-72 | a record created with `completed: false` is restored by two toggles |
| `Intended.IntendedScenario` | script.js:10-72 | starting from an empty store, the corrected add, toggle and delete give: one record with `completed` false, then that record with `completed` true, then the empty list |

## Left out

- `loadTodos` (script.js:42-63) is left out. It renders the list into the page's DOM and builds the action links. This is display work that does not change the store.
- `JSON.stringify` and `JSON.parse` are left out. The store holds lists directly. A stored value that does not parse, which throws in the script, is not modelled. Neither is a stored empty string, which `getTodos` would read as `[]`.
- `Date.now()` is left out. It reads the clock, so `AddTodo` takes the id as a parameter. Nothing in the model assumes the ids are fresh or increasing.
- JavaScript's loose `==` and strict `===` are not distinguished. Ids are integers, so the two comparisons agree. Coercion of string ids from a page's query string is not modelled.
- The browser's `localStorage` object is left out. Its quota, its failures and other tabs writing to it are not modelled. It is the class field `storage`.
- `Storage.TodoStore.UpdateTodo`: `completed` is a `bool`. The script stores whatever value the caller passes.
- `Storage.TodoStore.AddTodo`: `title` and `description` are strings. The script stores whatever values the caller passes.

## Findings

The class `Storage.TodoStore` models the code as written. The corrected definitions are in module `Intended`, and the lemmas there are about them.

| source | as written | input that shows it | evidently intended | confidence | as-written member | corrected member |
|---|---|---|---|---|---|---|
| script.js:2-7 | `getTodos` reads key `'todo'` and `saveTodos` writes key `'todos'` | `addTodo(t, d)` and then `getTodoById` of its id: the new record is not found | one key for both | not executed | `Intended.AsWrittenAddIsNotRead` | `Intended.IntendedAddThenGet` |
| script.js:38 | `deleteTodo` keeps the records with `todo.id == id` | `deleteTodo(1)` on `[{id 1}, {id 2}]` writes `[{id 1}]` | keep `todo.id !== id` | not executed | `Intended.DeleteIsInverted` | `Intended.WithoutRemovesExactlyTheMatch` |
| script.js:16 | `addTodo` creates `complete: false`, while `updateTodo` and `toggleComplete` use `completed` (lines 31, 69) | toggling a new record twice leaves `completed: false` where the record had none, so the list is not restored | create `completed: false` | not executed | `Todos.ToggleTwiceOnNewTodoDiffers` | `Intended.IntendedToggleTwiceRestores` |

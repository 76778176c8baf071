/**
 * The persistence half of script.js: the browser's key-value store, the
 * `getTodos` read and the `saveTodos` write, and a `TodoStore` object whose
 * methods are the five operations. Each operation reads the whole list,
 * changes it and writes the whole list back.
 *
 * The store holds lists directly: `JSON.stringify` followed by `JSON.parse`
 * is taken to give back the list that was stored.
 */
module Storage {
  import opened Wrappers
  import opened Todos

  /** `localStorage`, with the parsed list under each key. */
  type Store = map<string, seq<Todo>>

  /** The key `getTodos` reads. */
  const ReadKey: string := "todo"

  /** The key `saveTodos` writes. */
  const WriteKey: string := "todos"

  /** `getTodos` on a store: the list under `'todo'`, or `[]` when the key is missing. */
  function Load(s: Store): (r: seq<Todo>)
    ensures ReadKey !in s ==> r == []
    ensures ReadKey in s ==> r == s[ReadKey]
  {
    if ReadKey in s then s[ReadKey] else []
  }

  /** `saveTodos` on a store: the list goes under `'todos'`, every other key keeps its entry. */
  function Saved(s: Store, todos: seq<Todo>): (r: Store)
    ensures WriteKey in r && r[WriteKey] == todos
    ensures forall key | key != WriteKey :: (key in r <==> key in s) && (key in s ==> r[key] == s[key])
  {
    s[WriteKey := todos]
  }

  /** The store after `updateTodo` or `toggleComplete`: unchanged when they write nothing. */
  function SavedIfSome(s: Store, written: Option<seq<Todo>>): (r: Store)
    ensures written.None? ==> r == s
    ensures written.Some? ==> r == Saved(s, written.value)
  {
    match written
    case None => s
    case Some(todos) => Saved(s, todos)
  }

  /**
   * What `saveTodos` writes is never what `getTodos` reads: the two keys
   * differ, so a write leaves the next read exactly as it was.
   */
  lemma SaveIsNeverLoaded(s: Store, todos: seq<Todo>)
    ensures Load(Saved(s, todos)) == Load(s)
  {
    assert ReadKey != WriteKey by {
      assert |ReadKey| != |WriteKey|;
    }
  }

  /**
   * Two `addTodo` calls in a row: the second write starts again from the
   * unchanged `'todo'` list, so only the second record survives under `'todos'`.
   */
  lemma {:induction false} SecondAddDiscardsFirst(s: Store, id1: int, title1: string, description1: string,
                                                 id2: int, title2: string, description2: string)
    ensures var once := Saved(s, Load(s) + [NewTodo(id1, title1, description1)]);
            var twice := Saved(once, Load(once) + [NewTodo(id2, title2, description2)]);
            twice[WriteKey] == Load(s) + [NewTodo(id2, title2, description2)]
  {
    SaveIsNeverLoaded(s, Load(s) + [NewTodo(id1, title1, description1)]);
  }

  /** The to-do collection manager: every operation goes through `storage`. */
  class TodoStore {
    var storage: Store

    constructor (initial: Store)
      ensures storage == initial
    {
      storage := initial;
    }

    /** `getTodos()` (script.js:1-4). */
    method GetTodos() returns (todos: seq<Todo>)
      ensures ReadKey !in storage ==> todos == []
      ensures ReadKey in storage ==> todos == storage[ReadKey]
    {
      if ReadKey in storage {
        todos := storage[ReadKey];
      } else {
        todos := [];
      }
    }

    /** `saveTodos(todos)` (script.js:6-8). */
    method SaveTodos(todos: seq<Todo>)
      modifies this
      ensures storage == Saved(old(storage), todos)
    {
      storage := storage[WriteKey := todos];
    }

    /** `addTodo(title, description)` with `Date.now()` passed in as `id` (script.js:10-20). */
    method AddTodo(id: int, title: string, description: string)
      modifies this
      ensures storage == Saved(old(storage), Load(old(storage)) + [NewTodo(id, title, description)])
      ensures Load(storage) == Load(old(storage))
    {
      var todos := GetTodos();
      var newTodo := NewTodo(id, title, description);
      todos := todos + [newTodo];
      SaveTodos(todos);
      SaveIsNeverLoaded(old(storage), todos);
    }

    /** `getTodoById(id)` (script.js:22-25). */
    method GetTodoById(id: int) returns (todo: Option<Todo>)
      ensures todo.None? <==> Absent(Load(storage), id)
      ensures todo.Some? ==> todo.value == Load(storage)[FindIndex(Load(storage), id)]
    {
      var todos := GetTodos();
      var matches := FilterById(todos, id);
      FilterStartsAtFirstMatch(todos, id);
      if matches == [] {
        todo := None;
      } else {
        todo := Some(matches[0]);
      }
    }

    /** `updateTodo(id, title, description, completed)` (script.js:27-34). */
    method UpdateTodo(id: int, title: string, description: string, completed: bool)
      modifies this
      ensures Absent(Load(old(storage)), id) ==> storage == old(storage)
      ensures storage == SavedIfSome(old(storage), UpdatedTodos(Load(old(storage)), id, title, description, completed))
    {
      var todos := GetTodos();
      var index := FindIndex(todos, id);
      if index != -1 {
        todos := todos[index := EditedTodo(id, title, description, completed)];
        SaveTodos(todos);
      }
    }

    /** `deleteTodo(id)` (script.js:36-40): writes in every case, even an empty list. */
    method DeleteTodo(id: int)
      modifies this
      ensures storage == Saved(old(storage), FilterById(Load(old(storage)), id))
      ensures Absent(Load(old(storage)), id) ==> storage == Saved(old(storage), [])
    {
      var todos := GetTodos();
      var filteredTodos := FilterById(todos, id);
      FilterStartsAtFirstMatch(todos, id);
      SaveTodos(filteredTodos);
    }

    /** `toggleComplete(id)` (script.js:65-72). */
    method ToggleComplete(id: int)
      modifies this
      ensures Absent(Load(old(storage)), id) ==> storage == old(storage)
      ensures storage == SavedIfSome(old(storage), ToggledTodos(Load(old(storage)), id))
    {
      var todos := GetTodos();
      var index := FindIndex(todos, id);
      if index != -1 {
        todos := todos[index := todos[index].(completed := Some(Not(todos[index].completed)))];
        SaveTodos(todos);
      }
    }
  }
}

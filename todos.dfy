/**
 * The to-do record and the list logic of script.js: `findIndex` and `filter`
 * by id, the record that `addTodo` builds, the replacement that `updateTodo`
 * makes and the flag flip that `toggleComplete` makes, each as a function on
 * the sequence that `getTodos` returned.
 */
module Todos {
  import opened Wrappers

  /**
   * A to-do as the JavaScript objects carry it. `addTodo` creates a field
   * named `complete`, while `updateTodo` and `toggleComplete` set a field
   * named `completed`; either may be absent from a given record.
   */
  datatype Todo = Todo(
    id: int,
    title: string,
    description: string,
    complete: Option<bool>,
    completed: Option<bool>)

  /** The record `addTodo` appends: `complete: false`, no `completed` field. */
  function NewTodo(id: int, title: string, description: string): Todo
  {
    Todo(id, title, description, Some(false), None)
  }

  /** The record `updateTodo` stores: `completed` set, no `complete` field. */
  function EditedTodo(id: int, title: string, description: string, completed: bool): Todo
  {
    Todo(id, title, description, None, Some(completed))
  }

  /** JavaScript `!x` on a possibly absent boolean: `!undefined` is `true`. */
  function Not(b: Option<bool>): bool
  {
    match b
    case None => true
    case Some(v) => !v
  }

  /** The record after `todo.completed = !todo.completed`. */
  function Toggled(t: Todo): Todo
  {
    t.(completed := Some(Not(t.completed)))
  }

  /** No record in `todos` has the given id. */
  ghost predicate Absent(todos: seq<Todo>, id: int)
  {
    forall i | 0 <= i < |todos| :: todos[i].id != id
  }

  /** The ids in `todos` are pairwise distinct (the design's invariant; nothing in the source keeps it). */
  ghost predicate UniqueIds(todos: seq<Todo>)
  {
    forall i, j | 0 <= i < j < |todos| :: todos[i].id != todos[j].id
  }

  /** `r` is `s` with some elements dropped and the rest kept in order. */
  ghost predicate IsSubsequence<T>(r: seq<T>, s: seq<T>)
    decreases |s|
  {
    if r == [] then true
    else if s == [] then false
    else (r[0] == s[0] && IsSubsequence(r[1..], s[1..])) || IsSubsequence(r, s[1..])
  }

  /**
   * `todos.findIndex(todo => todo.id === id)`: the position of the first
   * record with the id, or -1 when there is none.
   */
  function FindIndex(todos: seq<Todo>, id: int): (r: int)
    ensures -1 <= r < |todos|
    ensures r == -1 <==> Absent(todos, id)
    ensures r != -1 ==> todos[r].id == id && Absent(todos[..r], id)
  {
    if todos == [] then -1
    else if todos[0].id == id then 0
    else
      var k := FindIndex(todos[1..], id);
      assert todos[1..][..if k == -1 then 0 else k] == todos[1..1 + if k == -1 then 0 else k];
      if k == -1 then -1 else k + 1
  }

  /**
   * `todos.filter(todo => todo.id === id)` (and `==`, the same on integer
   * ids): the records with the id, in their original order, each as often
   * as it occurs.
   */
  function FilterById(todos: seq<Todo>, id: int): (r: seq<Todo>)
    ensures IsSubsequence(r, todos)
    ensures forall t | t in r :: t.id == id
    ensures forall t: Todo | t.id == id :: multiset(r)[t] == multiset(todos)[t]
  {
    if todos == [] then []
    else
      assert todos == [todos[0]] + todos[1..];
      var rest := FilterById(todos[1..], id);
      if todos[0].id == id then [todos[0]] + rest else rest
  }

  /**
   * `getTodoById`'s expression `todos.filter(...)[0]`: the first record with
   * the id, or `undefined` when none has it.
   */
  function FirstById(todos: seq<Todo>, id: int): (r: Option<Todo>)
    ensures r.None? <==> Absent(todos, id)
    ensures r.Some? ==> FindIndex(todos, id) != -1 && r.value == todos[FindIndex(todos, id)]
  {
    var matches := FilterById(todos, id);
    FilterStartsAtFirstMatch(todos, id);
    if matches == [] then None else Some(matches[0])
  }

  /**
   * What `updateTodo` writes back: the list with its first record of the id
   * replaced by the edited record, or `None` when it writes nothing.
   */
  function UpdatedTodos(todos: seq<Todo>, id: int, title: string, description: string, completed: bool)
    : (r: Option<seq<Todo>>)
    ensures r.None? <==> Absent(todos, id)
    ensures r.Some? ==>
              var k := FindIndex(todos, id);
              && |r.value| == |todos|
              && r.value[k] == EditedTodo(id, title, description, completed)
              && forall j | 0 <= j < |todos| && j != k :: r.value[j] == todos[j]
  {
    var index := FindIndex(todos, id);
    if index == -1 then None
    else Some(todos[index := EditedTodo(id, title, description, completed)])
  }

  /**
   * What `toggleComplete` writes back: the list with `completed` flipped on
   * its first record of the id, or `None` when it writes nothing.
   */
  function ToggledTodos(todos: seq<Todo>, id: int): (r: Option<seq<Todo>>)
    ensures r.None? <==> Absent(todos, id)
    ensures r.Some? ==>
              var k := FindIndex(todos, id);
              && |r.value| == |todos|
              && r.value[k].id == todos[k].id
              && r.value[k].title == todos[k].title
              && r.value[k].description == todos[k].description
              && r.value[k].complete == todos[k].complete
              && r.value[k].completed == Some(Not(todos[k].completed))
              && forall j | 0 <= j < |todos| && j != k :: r.value[j] == todos[j]
  {
    var index := FindIndex(todos, id);
    if index == -1 then None
    else Some(todos[index := Toggled(todos[index])])
  }

  // ---------------------------------------------------------------- lemmas

  /** The filter is empty exactly when no record has the id, and otherwise starts with the first match. */
  lemma {:induction false} FilterStartsAtFirstMatch(todos: seq<Todo>, id: int)
    ensures FilterById(todos, id) == [] <==> FindIndex(todos, id) == -1
    ensures FilterById(todos, id) != [] ==> FilterById(todos, id)[0] == todos[FindIndex(todos, id)]
  {
    if todos != [] && todos[0].id != id {
      FilterStartsAtFirstMatch(todos[1..], id);
    }
  }

  /** Writing a record with the same id at the first match leaves the first match where it was. */
  lemma FindIndexAfterWriteAtMatch(todos: seq<Todo>, id: int, t: Todo)
    requires FindIndex(todos, id) != -1 && t.id == id
    ensures FindIndex(todos[FindIndex(todos, id) := t], id) == FindIndex(todos, id)
  {
    var k := FindIndex(todos, id);
    var after := todos[k := t];
    // The first match of `after` is not before `k` (that prefix is unchanged) and not after it.
    var k' := FindIndex(after, id);
    assert after[k].id == id;
  }

  /** Records appended after a match never change which record `getTodoById` returns. */
  lemma {:induction false} FirstMatchIgnoresLater(todos: seq<Todo>, later: seq<Todo>, id: int)
    requires !Absent(todos, id)
    ensures FirstById(todos + later, id) == FirstById(todos, id)
    ensures FindIndex(todos + later, id) == FindIndex(todos, id)
  {
    if todos[0].id != id {
      assert (todos + later)[1..] == todos[1..] + later;
      PresentInTail(todos, id);
      FirstMatchIgnoresLater(todos[1..], later, id);
    }
  }

  /** A record appended under an id the list does not hold is what `getTodoById` then finds. */
  lemma {:induction false} AppendedIsFound(todos: seq<Todo>, t: Todo)
    requires Absent(todos, t.id)
    ensures FindIndex(todos + [t], t.id) == |todos|
    ensures FirstById(todos + [t], t.id) == Some(t)
  {
    if todos == [] {
      assert todos + [t] == [t];
    } else {
      AbsentFromTail(todos, t.id);
      assert (todos + [t])[1..] == todos[1..] + [t];
      AppendedIsFound(todos[1..], t);
    }
  }

  /** After `updateTodo` writes, `getTodoById` on the written list returns the edited record. */
  lemma UpdateThenGet(todos: seq<Todo>, id: int, title: string, description: string, completed: bool)
    requires !Absent(todos, id)
    ensures UpdatedTodos(todos, id, title, description, completed).Some?
    ensures FirstById(UpdatedTodos(todos, id, title, description, completed).value, id)
            == Some(EditedTodo(id, title, description, completed))
  {
    FindIndexAfterWriteAtMatch(todos, id, EditedTodo(id, title, description, completed));
  }

  /** Repeating an update with the same arguments writes the same list again. */
  lemma UpdateIsIdempotent(todos: seq<Todo>, id: int, title: string, description: string, completed: bool)
    requires !Absent(todos, id)
    ensures UpdatedTodos(todos, id, title, description, completed).Some?
    ensures UpdatedTodos(UpdatedTodos(todos, id, title, description, completed).value,
                         id, title, description, completed)
            == UpdatedTodos(todos, id, title, description, completed)
  {
    var edited := EditedTodo(id, title, description, completed);
    FindIndexAfterWriteAtMatch(todos, id, edited);
    var once := UpdatedTodos(todos, id, title, description, completed).value;
    assert once[FindIndex(todos, id) := edited] == once;
  }

  /**
   * Toggling twice restores the list, provided the first matching record
   * already carries a `completed` field.
   */
  lemma ToggleTwiceRestores(todos: seq<Todo>, id: int)
    requires !Absent(todos, id)
    requires todos[FindIndex(todos, id)].completed.Some?
    ensures ToggledTodos(todos, id).Some?
    ensures ToggledTodos(ToggledTodos(todos, id).value, id) == Some(todos)
  {
    var k := FindIndex(todos, id);
    FindIndexAfterWriteAtMatch(todos, id, Toggled(todos[k]));
    var once := ToggledTodos(todos, id).value;
    assert Toggled(once[k]) == todos[k];
    assert once[k := Toggled(once[k])] == todos;
  }

  /**
   * Toggling twice a record made by `addTodo` does not restore it: it has no
   * `completed` field, the first flip sets `true` and the second `false`.
   */
  lemma ToggleTwiceOnNewTodoDiffers(todos: seq<Todo>, id: int, title: string, description: string)
    requires Absent(todos, id)
    ensures ToggledTodos(todos + [NewTodo(id, title, description)], id).Some?
    ensures var twice := ToggledTodos(ToggledTodos(todos + [NewTodo(id, title, description)], id).value, id);
            && twice.Some?
            && twice.value[|todos|].completed == Some(false)
            && twice.value != todos + [NewTodo(id, title, description)]
  {
    var t := NewTodo(id, title, description);
    AppendedIsFound(todos, t);
    FindIndexAfterWriteAtMatch(todos + [t], id, Toggled(t));
  }

  /** With distinct ids, the as-written delete keeps exactly the one record it was meant to remove. */
  lemma {:induction false} FilterOnUniqueIdsIsTheMatch(todos: seq<Todo>, id: int)
    requires UniqueIds(todos)
    requires !Absent(todos, id)
    ensures FilterById(todos, id) == [todos[FindIndex(todos, id)]]
  {
    if todos[0].id == id {
      AbsentFromTail(todos, id);
      FilterStartsAtFirstMatch(todos[1..], id);
    } else {
      UniqueIdsOfTail(todos);
      PresentInTail(todos, id);
      FilterOnUniqueIdsIsTheMatch(todos[1..], id);
    }
  }

  /** Helper: with distinct ids, no record after the first has the first one's id; an absent id stays absent in the tail. */
  lemma AbsentFromTail(todos: seq<Todo>, id: int)
    requires todos != []
    requires Absent(todos, id) || (UniqueIds(todos) && todos[0].id == id)
    ensures Absent(todos[1..], id)
  {
    forall i | 0 <= i < |todos| - 1 ensures todos[1..][i].id != id {
      assert todos[1..][i] == todos[i + 1];
    }
  }

  /** Helper: the tail of a list with distinct ids has distinct ids. */
  lemma UniqueIdsOfTail(todos: seq<Todo>)
    requires todos != [] && UniqueIds(todos)
    ensures UniqueIds(todos[1..])
  {
    forall i, j | 0 <= i < j < |todos| - 1 ensures todos[1..][i].id != todos[1..][j].id {
      assert todos[1..][i] == todos[i + 1] && todos[1..][j] == todos[j + 1];
    }
  }

  /** Helper: an id held by the list but not by its head is held by its tail. */
  lemma PresentInTail(todos: seq<Todo>, id: int)
    requires !Absent(todos, id) && todos[0].id != id
    ensures !Absent(todos[1..], id)
  {
    var i :| 0 <= i < |todos| && todos[i].id == id;
    assert todos[1..][i - 1] == todos[i];
  }
}

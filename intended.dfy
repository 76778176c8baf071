/**
 * The behaviour script.js evidently means, next to what it does:
 *  - reads and writes use one key, so a saved list is read back;
 *  - `deleteTodo` drops the records with the id instead of keeping only them;
 *  - a new record starts with `completed: false`, the field that
 *    `updateTodo` and `toggleComplete` use.
 * Each correction comes with the lemma that shows the source's version
 * departing from it.
 */
module Intended {
  import opened Wrappers
  import opened Todos
  import opened Storage

  /** `getTodos` reading the key that `saveTodos` writes. */
  function IntendedLoad(s: Store): (r: seq<Todo>)
    ensures WriteKey !in s ==> r == []
    ensures WriteKey in s ==> r == s[WriteKey]
  {
    if WriteKey in s then s[WriteKey] else []
  }

  /** The record `addTodo` is meant to create: `completed: false`. */
  function IntendedNewTodo(id: int, title: string, description: string): Todo
  {
    Todo(id, title, description, None, Some(false))
  }

  /** The store after the intended `addTodo`. */
  function IntendedAdd(s: Store, id: int, title: string, description: string): (r: Store)
    ensures IntendedLoad(r) == IntendedLoad(s) + [IntendedNewTodo(id, title, description)]
  {
    Saved(s, IntendedLoad(s) + [IntendedNewTodo(id, title, description)])
  }

  /** The store after the intended `toggleComplete`. */
  function IntendedToggle(s: Store, id: int): (r: Store)
    ensures Absent(IntendedLoad(s), id) ==> r == s
    ensures !Absent(IntendedLoad(s), id) ==> IntendedLoad(r) == ToggledTodos(IntendedLoad(s), id).value
  {
    SavedIfSome(s, ToggledTodos(IntendedLoad(s), id))
  }

  /**
   * The intended `deleteTodo` filter, `todo.id !== id`: every record except
   * those with the id, in their original order.
   */
  function WithoutId(todos: seq<Todo>, id: int): (r: seq<Todo>)
    ensures IsSubsequence(r, todos)
    ensures Absent(r, id)
    ensures forall t: Todo | t.id != id :: multiset(r)[t] == multiset(todos)[t]
  {
    if todos == [] then []
    else
      assert todos == [todos[0]] + todos[1..];
      var rest := WithoutId(todos[1..], id);
      if todos[0].id != id then [todos[0]] + rest else rest
  }

  /** The store after the intended `deleteTodo`. */
  function IntendedDelete(s: Store, id: int): (r: Store)
    ensures IntendedLoad(r) == WithoutId(IntendedLoad(s), id)
  {
    Saved(s, WithoutId(IntendedLoad(s), id))
  }

  // ---------------------------------------------------------------- lemmas

  /** With one key, what `saveTodos` writes is what `getTodos` reads next. */
  lemma {:induction false} IntendedAddThenGet(s: Store, id: int, title: string, description: string)
    requires Absent(IntendedLoad(s), id)
    ensures FirstById(IntendedLoad(IntendedAdd(s, id, title, description)), id)
            == Some(IntendedNewTodo(id, title, description))
  {
    AppendedIsFound(IntendedLoad(s), IntendedNewTodo(id, title, description));
  }

  /** As written, the list `getTodos` returns after `addTodo` does not hold the new record. */
  lemma AsWrittenAddIsNotRead(s: Store, id: int, title: string, description: string)
    requires Absent(Load(s), id)
    ensures FirstById(Load(Saved(s, Load(s) + [NewTodo(id, title, description)])), id) == None
  {
    SaveIsNeverLoaded(s, Load(s) + [NewTodo(id, title, description)]);
  }

  /** Deleting an id the list does not hold leaves the list as it was. */
  lemma {:induction false} WithoutAbsentIsIdentity(todos: seq<Todo>, id: int)
    requires Absent(todos, id)
    ensures WithoutId(todos, id) == todos
  {
    if todos != [] {
      AbsentFromTail(todos, id);
      WithoutAbsentIsIdentity(todos[1..], id);
      assert todos == [todos[0]] + todos[1..];
    }
  }

  /** With distinct ids, deleting removes exactly the record with the id and keeps the others in order. */
  lemma {:induction false} WithoutRemovesExactlyTheMatch(todos: seq<Todo>, id: int)
    requires UniqueIds(todos)
    requires !Absent(todos, id)
    ensures var k := FindIndex(todos, id);
            WithoutId(todos, id) == todos[..k] + todos[k + 1..]
  {
    if todos[0].id == id {
      AbsentFromTail(todos, id);
      WithoutAbsentIsIdentity(todos[1..], id);
      assert todos[..0] + todos[1..] == todos[1..];
    } else {
      UniqueIdsOfTail(todos);
      PresentInTail(todos, id);
      WithoutRemovesExactlyTheMatch(todos[1..], id);
      var k := FindIndex(todos[1..], id);
      assert FindIndex(todos, id) == k + 1;
      assert WithoutId(todos, id) == [todos[0]] + WithoutId(todos[1..], id);
      SlicesAroundShift(todos, k);
    }
  }

  /** Helper: cutting around position `k + 1` of `s` is cutting around `k` of its tail, with the head put back. */
  lemma SlicesAroundShift<T>(s: seq<T>, k: nat)
    requires k + 1 < |s|
    ensures s[..k + 1] + s[k + 2..] == [s[0]] + (s[1..][..k] + s[1..][k + 1..])
  {
    assert s[..k + 1] == [s[0]] + s[1..][..k];
    assert s[k + 2..] == s[1..][k + 1..];
  }

  /** On a two-record list, the source's delete keeps the record it should drop and drops the other. */
  lemma DeleteIsInverted()
    ensures var a := NewTodo(1, "a", "");
            var b := NewTodo(2, "b", "");
            && FilterById([a, b], 1) == [a]
            && WithoutId([a, b], 1) == [b]
  {
    var a := NewTodo(1, "a", "");
    var b := NewTodo(2, "b", "");
    assert [a, b][1..] == [b];
    assert [b][1..] == [];
  }

  /** A record created with `completed: false` is restored by two toggles. */
  lemma {:induction false} IntendedToggleTwiceRestores(todos: seq<Todo>, id: int, title: string, description: string)
    requires Absent(todos, id)
    ensures var list := todos + [IntendedNewTodo(id, title, description)];
            && ToggledTodos(list, id).Some?
            && ToggledTodos(ToggledTodos(list, id).value, id) == Some(list)
  {
    var list := todos + [IntendedNewTodo(id, title, description)];
    AppendedIsFound(todos, IntendedNewTodo(id, title, description));
    ToggleTwiceRestores(list, id);
  }

  /**
   * Starting from an empty store: add a record, toggle it, delete it. With the
   * intended behaviour the record appears with `completed` false, then true,
   * and the list ends empty.
   */
  lemma {:induction false} IntendedScenario(id: int)
    ensures var s1 := IntendedAdd(map[], id, "Buy milk", "2%");
            var s2 := IntendedToggle(s1, id);
            var s3 := IntendedDelete(s2, id);
            && IntendedLoad(s1) == [IntendedNewTodo(id, "Buy milk", "2%")]
            && |IntendedLoad(s2)| == 1
            && IntendedLoad(s2)[0].id == id
            && IntendedLoad(s2)[0].completed == Some(true)
            && IntendedLoad(s3) == []
  {
    var s1 := IntendedAdd(map[], id, "Buy milk", "2%");
    var t := IntendedNewTodo(id, "Buy milk", "2%");
    assert IntendedLoad(s1) == [t];
    assert FindIndex([t], id) == 0;
    var s2 := IntendedToggle(s1, id);
    var toggled := IntendedLoad(s2);
    assert |toggled| == 1 && toggled[0].id == id;
    assert toggled[1..] == [];
  }
}

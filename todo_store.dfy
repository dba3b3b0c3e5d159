/** The persisted to-do list: its records, the three list operations and the
    store that holds the list and the snapshot kept in local storage. */
module TodoStore {
  import opened Wrappers

  /** One to-do item. `createdAt` is a timestamp in milliseconds since the epoch. */
  datatype Todo = Todo(id: string, createdAt: int, completed: bool, text: string)

  /** The ids present in a list. */
  function Ids(todos: seq<Todo>): (r: set<string>)
  {
    set t | t in todos :: t.id
  }

  /** No two items of the list share an id. */
  predicate UniqueIds(todos: seq<Todo>)
  {
    forall i, j :: 0 <= i < j < |todos| ==> todos[i].id != todos[j].id
  }

  /** The same item with its completion flag flipped. */
  function Flipped(t: Todo): (r: Todo)
  {
    t.(completed := !t.completed)
  }

  // ---------------------------------------------------------------------
  // addTodo: spread-append of a new, not yet completed record
  // ---------------------------------------------------------------------

  /** The list after adding an item with the given id, timestamp and text. */
  function Appended(todos: seq<Todo>, id: string, createdAt: int, text: string): (r: seq<Todo>)
  {
    todos + [Todo(id, createdAt, false, text)]
  }

  /** Adding keeps the old list as a prefix and puts the new record last,
      whatever the text (the empty text included). */
  lemma AppendedShape(todos: seq<Todo>, id: string, createdAt: int, text: string)
    ensures var r := Appended(todos, id, createdAt, text);
      |r| == |todos| + 1 && r[..|todos|] == todos &&
      r[|todos|].id == id && r[|todos|].text == text &&
      r[|todos|].createdAt == createdAt && !r[|todos|].completed
  {
    assert (todos + [Todo(id, createdAt, false, text)])[..|todos|] == todos;
  }

  /** Adding contributes exactly the new id. */
  lemma AppendedIds(todos: seq<Todo>, id: string, createdAt: int, text: string)
    ensures Ids(Appended(todos, id, createdAt, text)) == Ids(todos) + {id}
  {
    var r := Appended(todos, id, createdAt, text);
    forall x | x in Ids(r) ensures x in Ids(todos) + {id} {
      var t :| t in r && t.id == x;
      if t != r[|todos|] {
        assert t in todos;
      }
    }
    assert r[|todos|] in r;
  }

  /** Adding with a fresh id keeps the ids unique. */
  lemma AppendedKeepsUnique(todos: seq<Todo>, id: string, createdAt: int, text: string)
    requires UniqueIds(todos)
    requires id !in Ids(todos)
    ensures UniqueIds(Appended(todos, id, createdAt, text))
  {
    var r := Appended(todos, id, createdAt, text);
    forall i, j | 0 <= i < j < |r| ensures r[i].id != r[j].id {
      if j == |todos| {
        assert r[i] == todos[i] && todos[i] in todos;
      }
    }
  }

  // ---------------------------------------------------------------------
  // deleteTodo: keep the items whose id differs, in their order
  // ---------------------------------------------------------------------

  /** The list filtered down to the items whose id is not `id`. */
  function Without(todos: seq<Todo>, id: string): (r: seq<Todo>)
    ensures |r| <= |todos|
  {
    if todos == [] then []
    else if todos[0].id == id then Without(todos[1..], id)
    else [todos[0]] + Without(todos[1..], id)
  }

  /** Deleting keeps exactly the items whose id differs. */
  lemma {:induction false} WithoutMembers(todos: seq<Todo>, id: string)
    ensures forall t :: t in Without(todos, id) <==> t in todos && t.id != id
  {
    if todos != [] {
      WithoutMembers(todos[1..], id);
      assert todos == [todos[0]] + todos[1..];
    }
  }

  /** Filtering distributes over concatenation, so the kept items stay in
      their original order. */
  lemma {:induction false} WithoutConcat(a: seq<Todo>, b: seq<Todo>, id: string)
    ensures Without(a + b, id) == Without(a, id) + Without(b, id)
  {
    if a != [] {
      assert (a + b)[0] == a[0];
      assert (a + b)[1..] == a[1..] + b;
      WithoutConcat(a[1..], b, id);
    } else {
      assert a + b == b;
    }
  }

  /** Deleting an id that is not present leaves the list identical. */
  lemma {:induction false} WithoutAbsent(todos: seq<Todo>, id: string)
    requires id !in Ids(todos)
    ensures Without(todos, id) == todos
  {
    if todos != [] {
      assert todos[0] in todos;
      assert Ids(todos[1..]) <= Ids(todos) by {
        forall x | x in Ids(todos[1..]) ensures x in Ids(todos) {
          var t :| t in todos[1..] && t.id == x;
          assert t in todos;
        }
      }
      WithoutAbsent(todos[1..], id);
      assert todos == [todos[0]] + todos[1..];
    }
  }

  /** After deleting, no item carries the id, and every other id is still there. */
  lemma WithoutIds(todos: seq<Todo>, id: string)
    ensures Ids(Without(todos, id)) == Ids(todos) - {id}
  {
    var r := Without(todos, id);
    WithoutMembers(todos, id);
    forall x | x in Ids(todos) - {id} ensures x in Ids(r) {
      var t :| t in todos && t.id == x;
      assert t in r;
    }
  }

  /** A list with unique ids starts with an id its tail does not repeat,
      and its tail has unique ids. */
  lemma UniqueTail(todos: seq<Todo>)
    requires UniqueIds(todos) && todos != []
    ensures UniqueIds(todos[1..])
    ensures forall t :: t in todos[1..] ==> t.id != todos[0].id
  {
    var tail := todos[1..];
    forall i, j | 0 <= i < j < |tail| ensures tail[i].id != tail[j].id {
      assert tail[i] == todos[i + 1] && tail[j] == todos[j + 1];
    }
    forall t | t in tail ensures t.id != todos[0].id {
      var k :| 0 <= k < |tail| && tail[k] == t;
      assert todos[k + 1] == t;
    }
  }

  /** Putting an item whose id is new in front of a list with unique ids
      keeps them unique. */
  lemma UniqueCons(h: Todo, rest: seq<Todo>)
    requires UniqueIds(rest)
    requires forall t :: t in rest ==> t.id != h.id
    ensures UniqueIds([h] + rest)
  {
    var r := [h] + rest;
    forall i, j | 0 <= i < j < |r| ensures r[i].id != r[j].id {
      assert r[j] == rest[j - 1];
      if i == 0 {
        assert rest[j - 1] in rest;
      } else {
        assert r[i] == rest[i - 1];
      }
    }
  }

  /** Deleting keeps the ids unique. */
  lemma {:induction false} WithoutKeepsUnique(todos: seq<Todo>, id: string)
    requires UniqueIds(todos)
    ensures UniqueIds(Without(todos, id))
  {
    if todos != [] {
      var tail := todos[1..];
      UniqueTail(todos);
      WithoutKeepsUnique(tail, id);
      if todos[0].id != id {
        WithoutMembers(tail, id);
        UniqueCons(todos[0], Without(tail, id));
      }
    }
  }

  /** When only the item at `k` carries `id`, deleting `id` removes exactly
      that item. */
  lemma {:induction false} WithoutSplit(todos: seq<Todo>, k: int, id: string)
    requires 0 <= k < |todos| && todos[k].id == id
    requires forall j :: 0 <= j < |todos| && j != k ==> todos[j].id != id
    ensures Without(todos, id) == todos[..k] + todos[k + 1..]
  {
    var tail := todos[1..];
    if k == 0 {
      assert id !in Ids(tail) by {
        forall t | t in tail ensures t.id != id {
          var j :| 0 <= j < |tail| && tail[j] == t;
          assert todos[j + 1] == t;
        }
      }
      WithoutAbsent(tail, id);
      assert todos[..k] + todos[k + 1..] == tail;
    } else {
      assert forall j :: 0 <= j < |tail| && j != k - 1 ==> tail[j].id != id by {
        forall j | 0 <= j < |tail| && j != k - 1 ensures tail[j].id != id {
          assert tail[j] == todos[j + 1];
        }
      }
      WithoutSplit(tail, k - 1, id);
      assert Without(todos, id) == [todos[0]] + Without(tail, id) by {
        assert todos[0].id != id;
      }
      assert todos[..k] + todos[k + 1..] == [todos[0]] + (tail[..k - 1] + tail[k..]);
    }
  }

  /** With unique ids, deleting a present id removes exactly the one item
      that carries it. */
  lemma WithoutRemovesOne(todos: seq<Todo>, k: int)
    requires UniqueIds(todos)
    requires 0 <= k < |todos|
    ensures Without(todos, todos[k].id) == todos[..k] + todos[k + 1..]
  {
    forall j | 0 <= j < |todos| && j != k ensures todos[j].id != todos[k].id {
      if j < k {
        assert todos[j].id != todos[k].id;
      } else {
        assert todos[k].id != todos[j].id;
      }
    }
    WithoutSplit(todos, k, todos[k].id);
  }

  // ---------------------------------------------------------------------
  // completeTodo: flip the flag of the first item with the id
  // ---------------------------------------------------------------------

  /** The list with the first item whose id is `id` flipped. */
  function Toggled(todos: seq<Todo>, id: string): (r: seq<Todo>)
    ensures |r| == |todos|
    ensures forall i :: 0 <= i < |r| ==>
      r[i].id == todos[i].id && r[i].text == todos[i].text && r[i].createdAt == todos[i].createdAt
  {
    if todos == [] then []
    else if todos[0].id == id then [Flipped(todos[0])] + todos[1..]
    else [todos[0]] + Toggled(todos[1..], id)
  }

  /** When `k` is the first index carrying `id`, toggling flips that item
      and leaves every other item unchanged. */
  lemma {:induction false} ToggledAt(todos: seq<Todo>, id: string, k: int)
    requires 0 <= k < |todos| && todos[k].id == id
    requires forall j :: 0 <= j < k ==> todos[j].id != id
    ensures Toggled(todos, id) == todos[k := Flipped(todos[k])]
  {
    if k > 0 {
      ToggledAt(todos[1..], id, k - 1);
    }
  }

  /** Toggling an id that is not present leaves the list identical. */
  lemma {:induction false} ToggledAbsent(todos: seq<Todo>, id: string)
    requires id !in Ids(todos)
    ensures Toggled(todos, id) == todos
  {
    if todos != [] {
      assert todos[0] in todos;
      assert id !in Ids(todos[1..]) by {
        forall t | t in todos[1..] ensures t.id != id {
          assert t in todos;
        }
      }
      ToggledAbsent(todos[1..], id);
      assert todos == [todos[0]] + todos[1..];
    }
  }

  /** Toggling twice restores the original list. */
  lemma {:induction false} ToggledTwice(todos: seq<Todo>, id: string)
    ensures Toggled(Toggled(todos, id), id) == todos
  {
    if todos != [] {
      if todos[0].id == id {
        var once := Toggled(todos, id);
        assert once[0] == Flipped(todos[0]) && once[1..] == todos[1..];
        assert todos == [todos[0]] + todos[1..];
      } else {
        ToggledTwice(todos[1..], id);
        assert todos == [todos[0]] + todos[1..];
      }
    }
  }

  /** Toggling keeps the ids unique (it changes no id). */
  lemma ToggledKeepsUnique(todos: seq<Todo>, id: string)
    requires UniqueIds(todos)
    ensures UniqueIds(Toggled(todos, id))
  {
  }

  /** The search loop of completeTodo: the index of the first item whose id
      is `id`, or -1 when there is none. */
  method FindFirst(todos: seq<Todo>, id: string) returns (index: int)
    ensures -1 <= index < |todos|
    ensures index == -1 <==> id !in Ids(todos)
    ensures index != -1 ==> todos[index].id == id
    ensures index != -1 ==> forall j :: 0 <= j < index ==> todos[j].id != id
  {
    index := -1;
    for i := 0 to |todos|
      invariant index == -1
      invariant forall j :: 0 <= j < i ==> todos[j].id != id
    {
      if todos[i].id == id {
        index := i;
        break;
      }
    }
    if index == -1 {
      assert id !in Ids(todos) by {
        forall t | t in todos ensures t.id != id {
          var j :| 0 <= j < |todos| && todos[j] == t;
        }
      }
    } else {
      assert todos[index] in todos;
    }
  }

  // ---------------------------------------------------------------------
  // The store
  // ---------------------------------------------------------------------

  /** The writable to-do store: the current list, and the snapshot the
      change subscriber last wrote under the "todos" key of local storage. */
  class Store {
    var todos: seq<Todo>
    var saved: seq<Todo>

    /** Every change has been written through to storage. */
    predicate Persisted()
      reads this
    {
      saved == todos
    }

    /** Starts from the stored snapshot when there is one, else from the
        empty list; subscribing the saver writes the start value back. */
    constructor (stored: Option<seq<Todo>>)
      ensures stored.Some? ==> todos == stored.value
      ensures stored.None? ==> todos == []
      ensures Persisted()
    {
      todos := if stored.Some? then stored.value else [];
      saved := todos;
    }

    /** Appends a new open item; `id` and `now` stand for the generated
        uuid and the current time. */
    method AddTodo(text: string, id: string, now: int)
      modifies this
      ensures todos == Appended(old(todos), id, now, text)
      ensures |todos| == |old(todos)| + 1 && todos[..|old(todos)|] == old(todos)
      ensures todos[|old(todos)|] == Todo(id, now, false, text)
      ensures UniqueIds(old(todos)) && id !in Ids(old(todos)) ==> UniqueIds(todos)
      ensures Persisted()
    {
      if UniqueIds(todos) && id !in Ids(todos) {
        AppendedKeepsUnique(todos, id, now, text);
      }
      AppendedShape(todos, id, now, text);
      todos := todos + [Todo(id, now, false, text)];
      saved := todos;
    }

    /** Drops every item whose id is `id`. */
    method DeleteTodo(id: string)
      modifies this
      ensures todos == Without(old(todos), id)
      ensures id !in Ids(todos)
      ensures id !in Ids(old(todos)) ==> todos == old(todos)
      ensures UniqueIds(old(todos)) ==> UniqueIds(todos)
      ensures Persisted()
    {
      if id !in Ids(todos) {
        WithoutAbsent(todos, id);
      }
      if UniqueIds(todos) {
        WithoutKeepsUnique(todos, id);
      }
      WithoutIds(todos, id);
      todos := Without(todos, id);
      saved := todos;
    }

    /** Flips the completion flag of the first item whose id is `id`, in
        place; does nothing when no item has that id. */
    method CompleteTodo(id: string)
      modifies this
      ensures todos == Toggled(old(todos), id)
      ensures id !in Ids(old(todos)) ==> todos == old(todos)
      ensures UniqueIds(old(todos)) ==> UniqueIds(todos)
      ensures Persisted()
    {
      var index := FindFirst(todos, id);
      if index != -1 {
        ToggledAt(todos, id, index);
        todos := todos[index := Flipped(todos[index])];
      } else {
        ToggledAbsent(todos, id);
      }
      saved := todos;
    }
  }
}

/**
 * The diary's todo list: a list of records kept in one JSON file of the
 * diary repository. Each operation loads the list, changes it and, when
 * something changed, saves it back (and commits). Here the loaded list is a
 * field of a store object and every save bumps a counter.
 */
module DiaryTodos {
  import opened Wrappers

  /** One todo record: `id`, `text`, `done` and `created`. */
  datatype Todo = Todo(id: string, text: string, done: bool, created: string)

  /** The position of the first todo with the given id, if any. */
  function FirstIndex(ts: seq<Todo>, id: string): (r: Option<nat>)
    ensures r.None? <==> forall j :: 0 <= j < |ts| ==> ts[j].id != id
    ensures r.Some? ==> r.value < |ts| && ts[r.value].id == id
    ensures r.Some? ==> forall j :: 0 <= j < r.value ==> ts[j].id != id
    decreases |ts|
  {
    if ts == [] then None
    else if ts[0].id == id then Some(0)
    else
      match FirstIndex(ts[1..], id)
      case None => None
      case Some(k) => Some(k + 1)
  }

  /** Todos at the same positions carry the same ids. */
  predicate SameIds(a: seq<Todo>, b: seq<Todo>) {
    |a| == |b| && forall i :: 0 <= i < |a| ==> a[i].id == b[i].id
  }

  /** Whether `ts[i]` is the first todo with the id. */
  predicate FirstWith(ts: seq<Todo>, id: string, i: nat)
    requires i < |ts|
  {
    ts[i].id == id && forall j :: 0 <= j < i ==> ts[j].id != id
  }

  /** The list after `toggle_todo`: the first match has its `done` flipped. */
  function Toggled(ts: seq<Todo>, id: string): (r: seq<Todo>)
    ensures SameIds(ts, r)
    ensures forall i :: 0 <= i < |ts| ==> r[i].text == ts[i].text && r[i].created == ts[i].created
    ensures forall i :: 0 <= i < |ts| ==> (r[i].done != ts[i].done <==> FirstWith(ts, id, i))
  {
    match FirstIndex(ts, id)
    case None => ts
    case Some(k) => ts[k := ts[k].(done := !ts[k].done)]
  }

  /** The list after `update_todo_text`: the first match gets the new text. */
  function Updated(ts: seq<Todo>, id: string, text: string): (r: seq<Todo>)
    ensures SameIds(ts, r)
    ensures forall i :: 0 <= i < |ts| ==> r[i].done == ts[i].done && r[i].created == ts[i].created
    ensures forall i :: 0 <= i < |ts| ==> if FirstWith(ts, id, i) then r[i].text == text else r[i] == ts[i]
  {
    match FirstIndex(ts, id)
    case None => ts
    case Some(k) => ts[k := ts[k].(text := text)]
  }

  /** The comprehension in `delete_todo`: every todo whose id differs, in order. */
  function Without(ts: seq<Todo>, id: string): (r: seq<Todo>)
    ensures |r| <= |ts|
    ensures forall i :: 0 <= i < |r| ==> r[i].id != id && r[i] in ts
    ensures |r| == |ts| <==> forall j :: 0 <= j < |ts| ==> ts[j].id != id
    decreases |ts|
  {
    if ts == [] then []
    else
      var rest := Without(ts[..|ts| - 1], id);
      var last := ts[|ts| - 1];
      assert forall t :: t in ts[..|ts| - 1] ==> t in ts;
      if last.id == id then rest else rest + [last]
  }

  // ---------------------------------------------------------------------
  // What the operations promise, over the specification functions
  // ---------------------------------------------------------------------

  /** `FirstIndex` looks only at ids. */
  lemma {:induction false} FirstIndexSameIds(a: seq<Todo>, b: seq<Todo>, id: string)
    requires SameIds(a, b)
    ensures FirstIndex(a, id) == FirstIndex(b, id)
    decreases |a|
  {
    if a != [] {
      FirstIndexSameIds(a[1..], b[1..], id);
    }
  }

  /** Toggling the same id twice gives back the list. */
  lemma ToggleTwice(ts: seq<Todo>, id: string)
    ensures Toggled(Toggled(ts, id), id) == ts
  {
    FirstIndexSameIds(ts, Toggled(ts, id), id);
  }

  /** Updating twice keeps only the second text. */
  lemma UpdateTwice(ts: seq<Todo>, id: string, first: string, second: string)
    ensures Updated(Updated(ts, id, first), id, second) == Updated(ts, id, second)
  {
    FirstIndexSameIds(ts, Updated(ts, id, first), id);
  }

  /** Deleting distributes over concatenation: the kept todos stay in their order. */
  lemma {:induction false} WithoutAppend(a: seq<Todo>, b: seq<Todo>, id: string)
    ensures Without(a + b, id) == Without(a, id) + Without(b, id)
    decreases |b|
  {
    if b == [] {
      assert a + b == a;
    } else {
      var b' := b[..|b| - 1];
      assert (a + b)[..|a + b| - 1] == a + b';
      assert (a + b)[|a + b| - 1] == b[|b| - 1];
      WithoutAppend(a, b', id);
    }
  }

  /** Every todo with another id is kept. */
  lemma {:induction false} WithoutKeeps(ts: seq<Todo>, id: string, t: Todo)
    requires t in ts && t.id != id
    ensures t in Without(ts, id)
    decreases |ts|
  {
    var last := ts[|ts| - 1];
    if t != last {
      assert ts == ts[..|ts| - 1] + [last];
      WithoutKeeps(ts[..|ts| - 1], id, t);
    }
  }

  /** Creating a todo under a fresh id and then deleting that id restores the list. */
  lemma CreateThenDelete(ts: seq<Todo>, t: Todo)
    requires forall j :: 0 <= j < |ts| ==> ts[j].id != t.id
    ensures Without(ts + [t], t.id) == ts
  {
    assert (ts + [t])[..|ts|] == ts;
    assert |Without(ts, t.id)| == |ts|;
    WithoutAbsent(ts, t.id);
  }

  /** Deleting an id that no todo has changes nothing. */
  lemma {:induction false} WithoutAbsent(ts: seq<Todo>, id: string)
    requires forall j :: 0 <= j < |ts| ==> ts[j].id != id
    ensures Without(ts, id) == ts
    decreases |ts|
  {
    if ts != [] {
      WithoutAbsent(ts[..|ts| - 1], id);
      assert ts == ts[..|ts| - 1] + [ts[|ts| - 1]];
    }
  }

  /** The todos as loaded from the repository, and how often they were saved. */
  class TodoStore {
    var todos: seq<Todo>
    var saves: nat

    constructor(loaded: seq<Todo>)
      ensures todos == loaded && saves == 0
    {
      todos := loaded;
      saves := 0;
    }

    /**
     * `create_todo`: appends one open todo and saves. The fresh id and the
     * creation time are parameters.
     */
    method CreateTodo(id: string, text: string, created: string) returns (todo: Todo)
      modifies this
      ensures todo == Todo(id, text, false, created)
      ensures todos == old(todos) + [todo]
      ensures saves == old(saves) + 1
    {
      todo := Todo(id, text, false, created);
      todos := todos + [todo];
      saves := saves + 1;
    }

    /** `toggle_todo`: flips the first match and saves, or reports none and saves nothing. */
    method ToggleTodo(id: string) returns (r: Option<Todo>)
      modifies this
      ensures todos == Toggled(old(todos), id)
      ensures r.None? <==> FirstIndex(old(todos), id).None?
      ensures r.Some? ==> r.value == todos[FirstIndex(old(todos), id).value]
      ensures saves == old(saves) + (if r.Some? then 1 else 0)
    {
      var i := 0;
      while i < |todos|
        invariant i <= |todos|
        invariant forall j :: 0 <= j < i ==> todos[j].id != id
        invariant unchanged(this)
      {
        if todos[i].id == id {
          todos := todos[i := todos[i].(done := !todos[i].done)];
          saves := saves + 1;
          return Some(todos[i]);
        }
        i := i + 1;
      }
      return None;
    }

    /** `update_todo_text`: sets the text of the first match and saves, or reports none. */
    method UpdateTodoText(id: string, text: string) returns (r: Option<Todo>)
      modifies this
      ensures todos == Updated(old(todos), id, text)
      ensures r.None? <==> FirstIndex(old(todos), id).None?
      ensures r.Some? ==> r.value == todos[FirstIndex(old(todos), id).value]
      ensures saves == old(saves) + (if r.Some? then 1 else 0)
    {
      var i := 0;
      while i < |todos|
        invariant i <= |todos|
        invariant forall j :: 0 <= j < i ==> todos[j].id != id
        invariant unchanged(this)
      {
        if todos[i].id == id {
          todos := todos[i := todos[i].(text := text)];
          saves := saves + 1;
          return Some(todos[i]);
        }
        i := i + 1;
      }
      return None;
    }

    /** `delete_todo`: drops every match; saves and reports true exactly when one existed. */
    method DeleteTodo(id: string) returns (deleted: bool)
      modifies this
      ensures todos == Without(old(todos), id)
      ensures deleted <==> exists j :: 0 <= j < |old(todos)| && old(todos)[j].id == id
      ensures saves == old(saves) + (if deleted then 1 else 0)
    {
      var newTodos := Without(todos, id);
      if |newTodos| == |todos| {
        WithoutAbsent(todos, id);
        return false;
      }
      todos := newTodos;
      saves := saves + 1;
      return true;
    }
  }
}

/**
 * The client: the list of todos it shows, the pure reconciliations that fold
 * each confirmed server response into that list, the counts derived from it,
 * and the form and editing state its event handlers change step by step.
 * An RPC call's outcome is a parameter: the answer the server gave, or a
 * failure (the call threw), after which the handlers change no list state.
 */
module TodoApp {
  import opened Wrappers
  import opened TodoSchema
  import opened TodoList
  import opened Validation
  import opened JsString
  import opened TodoStore

  /** How an awaited RPC call ended. */
  datatype Reply<T> = Answered(value: T) | Failed

  /** `prev.map(t => t.id === id ? response : t)`: every entry with `id` becomes `response`, all others stay in place. */
  function ReplaceById(todos: seq<Todo>, id: int, response: Todo): (r: seq<Todo>)
    ensures |r| == |todos|
    ensures forall k :: 0 <= k < |todos| && todos[k].id != id ==> r[k] == todos[k]
    ensures forall k :: 0 <= k < |todos| && todos[k].id == id ==> r[k] == response
  {
    if todos == [] then []
    else [if todos[0].id == id then response else todos[0]] + ReplaceById(todos[1..], id, response)
  }

  /** `todos.filter(todo => todo.completed)`. */
  function CompletedOnly(todos: seq<Todo>): (r: seq<Todo>)
    ensures |r| <= |todos|
    ensures forall t :: t in r <==> t in todos && t.completed
  {
    if todos == [] then []
    else if todos[0].completed then [todos[0]] + CompletedOnly(todos[1..])
    else CompletedOnly(todos[1..])
  }

  /** `completedCount`; `totalCount` is `|todos|`. */
  function CompletedCount(todos: seq<Todo>): (n: nat)
    ensures n <= |todos|
    ensures n == 0 <==> forall t :: t in todos ==> !t.completed
  {
    var done := CompletedOnly(todos);
    assert done != [] ==> done[0] in done;
    |done|
  }

  /** Counting the completed entries of `[x] + rest` counts `x` and then `rest`. */
  lemma CompletedCountCons(x: Todo, rest: seq<Todo>)
    ensures CompletedCount([x] + rest) == (if x.completed then 1 else 0) + CompletedCount(rest)
  {
    assert ([x] + rest)[0] == x && ([x] + rest)[1..] == rest;
  }

  /** The completed count splits into the entries with `id` and the rest. */
  lemma {:induction false} CompletedCountSplit(todos: seq<Todo>, id: int)
    ensures CompletedCount(todos) == CompletedCount(RowsWithId(todos, id)) + CompletedCount(WithoutId(todos, id))
  {
    if todos != [] {
      var x, tail := todos[0], todos[1..];
      assert todos == [x] + tail;
      CompletedCountSplit(tail, id);
      CompletedCountCons(x, tail);
      if x.id == id {
        CompletedCountCons(x, RowsWithId(tail, id));
      } else {
        CompletedCountCons(x, WithoutId(tail, id));
      }
    }
  }

  /** Replacing the entries with `id` by `response` counts `response` once per replaced entry. */
  lemma {:induction false} ReplaceCompletedCount(todos: seq<Todo>, id: int, response: Todo)
    ensures CompletedCount(ReplaceById(todos, id, response)) ==
      CompletedCount(WithoutId(todos, id)) + (if response.completed then |RowsWithId(todos, id)| else 0)
  {
    if todos != [] {
      var x, tail := todos[0], todos[1..];
      ReplaceCompletedCount(tail, id, response);
      var r := ReplaceById(todos, id, response);
      var head := if x.id == id then response else x;
      assert r == [head] + ReplaceById(tail, id, response);
      CompletedCountCons(head, ReplaceById(tail, id, response));
      if x.id != id {
        CompletedCountCons(x, WithoutId(tail, id));
      }
    }
  }

  /** When ids are unique, a toggle answered by the server moves the completed count by exactly one. */
  lemma ToggleMovesCountByOne(todos: seq<Todo>, todo: Todo, response: Todo)
    requires UniqueIds(todos) && todo in todos
    requires response.completed == !todo.completed
    ensures CompletedCount(ReplaceById(todos, todo.id, response)) ==
      if response.completed then CompletedCount(todos) + 1 else CompletedCount(todos) - 1
  {
    AtMostOneWithId(todos, todo.id);
    var sel := RowsWithId(todos, todo.id);
    assert todo in sel;
    assert sel == [todo];
    assert CompletedOnly(sel) == if todo.completed then [todo] else [];
    CompletedCountSplit(todos, todo.id);
    ReplaceCompletedCount(todos, todo.id, response);
  }

  /**
   * The client's list mirrors the table: each entry is the stored row with
   * its id, each stored row is in the list (in whatever order), and no id is
   * listed twice.
   */
  ghost predicate Mirrors(list: seq<Todo>, rows: seq<Todo>) {
    EntriesStored(list, rows) && RowsListed(rows, list) && UniqueIds(list)
  }

  /** Replacing the entries with `id` by a response carrying that id keeps the ids unique. */
  lemma ReplaceKeepsUnique(todos: seq<Todo>, id: int, response: Todo)
    requires UniqueIds(todos) && response.id == id
    ensures UniqueIds(ReplaceById(todos, id, response))
  {
    var r := ReplaceById(todos, id, response);
    forall i, j | 0 <= i < j < |r| ensures r[i].id != r[j].id {
      assert r[i].id == todos[i].id && r[j].id == todos[j].id;
    }
  }

  /** Each entry of the list is the stored row with its id. */
  ghost predicate EntriesStored(list: seq<Todo>, rows: seq<Todo>) {
    forall k :: 0 <= k < |list| ==> Lookup(rows, list[k].id) == Some(list[k])
  }

  /** Each stored row is an entry of the list. */
  ghost predicate RowsListed(rows: seq<Todo>, list: seq<Todo>) {
    forall t :: t in rows ==> t in list
  }

  /** Prepending the record the server inserted keeps the mirror. */
  lemma CreateKeepsMirror(list: seq<Todo>, rows: seq<Todo>, t: Todo)
    requires Mirrors(list, rows) && !HasId(rows, t.id)
    ensures Mirrors([t] + list, rows + [t])
  {
    var list' := [t] + list;
    forall u | u in list ensures u.id != t.id {
      var k :| 0 <= k < |list| && list[k] == u;
      assert Lookup(rows, u.id) == Some(u);
    }
    UniqueIdsCons(t, list);
    forall k | 0 <= k < |list'| ensures Lookup(rows + [t], list'[k].id) == Some(list'[k]) {
      LookupAppend(rows, t, list'[k].id);
      if k > 0 {
        assert list'[k] == list[k - 1];
      }
    }
  }

  /**
   * Replacing the entry with the updated row the server returned keeps the
   * mirror (under the primary key, that row is the only one with the id).
   */
  lemma UpdateKeepsMirror(list: seq<Todo>, rows: seq<Todo>, id: int, p: Patch)
    requires Mirrors(list, rows) && UniqueIds(rows) && HasId(rows, id)
    ensures var rows' := UpdateWhere(rows, id, p);
      Lookup(rows', id).Some? && Mirrors(ReplaceById(list, id, Lookup(rows', id).value), rows')
  {
    var rows' := UpdateWhere(rows, id, p);
    LookupAfterUpdate(rows, id, p, id);
    var t := Lookup(rows', id).value;
    UpdateKeepsEntriesStored(list, rows, id, p, t);
    UpdateKeepsRowsListed(list, rows, id, p, t);
    ReplaceKeepsUnique(list, id, t);
  }

  /**
   * Toggling an entry the client shows: the server finds its row, and
   * reconciling with the row it returns keeps the mirror.
   */
  lemma ToggleKeepsMirror(list: seq<Todo>, rows: seq<Todo>, todo: Todo, p: Patch)
    requires Mirrors(list, rows) && UniqueIds(rows) && todo in list
    ensures var rows' := UpdateWhere(rows, todo.id, p);
      Lookup(rows', todo.id).Some? && Mirrors(ReplaceById(list, todo.id, Lookup(rows', todo.id).value), rows')
  {
    var k :| 0 <= k < |list| && list[k] == todo;
    assert Lookup(rows, todo.id) == Some(todo);
    UpdateKeepsMirror(list, rows, todo.id, p);
  }

  /** The row the server returns for a toggle of a listed entry carries the flipped flag. */
  lemma ToggleFlipsStoredRow(list: seq<Todo>, rows: seq<Todo>, todo: Todo, p: Patch)
    requires Mirrors(list, rows) && todo in list && p.completed == Some(!todo.completed)
    ensures var answer := Lookup(UpdateWhere(rows, todo.id, p), todo.id);
      answer.Some? && answer.value.completed == !todo.completed
  {
    var k :| 0 <= k < |list| && list[k] == todo;
    assert Lookup(rows, todo.id) == Some(todo);
    LookupAfterUpdate(rows, todo.id, p, todo.id);
  }

  /** After the update, each reconciled entry is the stored row with its id. */
  lemma UpdateKeepsEntriesStored(list: seq<Todo>, rows: seq<Todo>, id: int, p: Patch, t: Todo)
    requires EntriesStored(list, rows)
    requires Lookup(UpdateWhere(rows, id, p), id) == Some(t)
    ensures EntriesStored(ReplaceById(list, id, t), UpdateWhere(rows, id, p))
  {
    var list' := ReplaceById(list, id, t);
    forall k | 0 <= k < |list'| ensures Lookup(UpdateWhere(rows, id, p), list'[k].id) == Some(list'[k]) {
      LookupAfterUpdate(rows, id, p, list[k].id);
    }
  }

  /** After the update, each stored row is among the reconciled entries. */
  lemma UpdateKeepsRowsListed(list: seq<Todo>, rows: seq<Todo>, id: int, p: Patch, t: Todo)
    requires RowsListed(rows, list) && UniqueIds(rows)
    requires Lookup(UpdateWhere(rows, id, p), id) == Some(t)
    ensures RowsListed(UpdateWhere(rows, id, p), ReplaceById(list, id, t))
  {
    var rows' := UpdateWhere(rows, id, p);
    var list' := ReplaceById(list, id, t);
    forall u | u in rows' ensures u in list' {
      var j :| 0 <= j < |rows'| && rows'[j] == u;
      assert rows[j] in rows;
      var k :| 0 <= k < |list| && list[k] == rows[j];
      if rows[j].id == id {
        LookupFindsRow(rows, rows[j]);
        LookupAfterUpdate(rows, id, p, id);
        assert list'[k] == t;
      } else {
        assert list'[k] == u;
      }
    }
  }

  /** Filtering out the deleted id keeps the mirror. */
  lemma DeleteKeepsMirror(list: seq<Todo>, rows: seq<Todo>, id: int)
    requires Mirrors(list, rows)
    ensures Mirrors(WithoutId(list, id), WithoutId(rows, id))
  {
    var list' := WithoutId(list, id);
    forall k | 0 <= k < |list'| ensures Lookup(WithoutId(rows, id), list'[k].id) == Some(list'[k]) {
      assert list'[k] in list;
      var j :| 0 <= j < |list| && list[j] == list'[k];
      LookupWithoutId(rows, id, list'[k].id);
    }
    WithoutIdKeepsUnique(list, id);
  }

  /** The component's state: the list, the busy flag, the editing state and the new-todo form. */
  class App {
    var todos: seq<Todo>
    var isLoading: bool
    var editingId: Option<int>
    var editingTitle: string
    /** The title in the new-todo form. */
    var newTodoTitle: string

    /** No title is held for editing unless some todo is being edited. */
    ghost predicate Valid()
      reads this
    {
      editingId.None? ==> editingTitle == ""
    }

    /** The initial state: an empty list, idle, nothing being edited, an empty form. */
    constructor ()
      ensures Valid()
      ensures todos == [] && !isLoading && editingId.None? && editingTitle == "" && newTodoTitle == ""
    {
      todos := [];
      isLoading := false;
      editingId := None;
      editingTitle := "";
      newTodoTitle := "";
    }

    /** Typing into the new-todo form. */
    method SetNewTodoTitle(title: string)
      modifies this`newTodoTitle
      ensures newTodoTitle == title
    {
      newTodoTitle := title;
    }

    /**
     * `handleCreateTodo` up to the call: a title that is blank after trimming
     * sends nothing; otherwise the form's title is sent as typed, untrimmed,
     * and the form becomes busy.
     */
    method SubmitCreate() returns (sent: Option<CreateTodoInput>)
      modifies this`isLoading
      ensures sent.None? <==> Trim(newTodoTitle) == ""
      ensures sent.Some? ==> sent.value == CreateTodoInput(newTodoTitle) && isLoading
      ensures sent.None? ==> isLoading == old(isLoading)
    {
      if Trim(newTodoTitle) == "" {
        return None;
      }
      isLoading := true;
      sent := Some(CreateTodoInput(newTodoTitle));
    }

    /**
     * `handleCreateTodo` after the call: an answer is prepended and clears the
     * form; a failure leaves both alone. Either way the form stops being busy.
     */
    method FinishCreate(reply: Reply<Todo>)
      modifies this`todos, this`newTodoTitle, this`isLoading
      ensures !isLoading
      ensures reply.Answered? ==> todos == [reply.value] + old(todos) && newTodoTitle == ""
      ensures reply.Failed? ==> todos == old(todos) && newTodoTitle == old(newTodoTitle)
    {
      if reply.Answered? {
        todos := [reply.value] + todos;
        newTodoTitle := "";
      }
      isLoading := false;
    }

    /**
     * `handleToggleComplete`: sends the flipped flag and no title; a non-null
     * answer replaces the entries with that id.
     */
    method HandleToggleComplete(todo: Todo, reply: Reply<Option<Todo>>) returns (sent: UpdateTodoInput)
      modifies this`todos
      ensures sent == UpdateTodoInput(todo.id, None, Some(!todo.completed))
      ensures reply.Answered? && reply.value.Some? ==> todos == ReplaceById(old(todos), todo.id, reply.value.value)
      ensures !(reply.Answered? && reply.value.Some?) ==> todos == old(todos)
    {
      sent := UpdateTodoInput(todo.id, None, Some(!todo.completed));
      if reply.Answered? && reply.value.Some? {
        todos := ReplaceById(todos, todo.id, reply.value.value);
      }
    }

    /** `startEditing`: edit this todo, starting from its current title. */
    method StartEditing(todo: Todo)
      modifies this`editingId, this`editingTitle
      ensures Valid()
      ensures editingId == Some(todo.id) && editingTitle == todo.title
    {
      editingId := Some(todo.id);
      editingTitle := todo.title;
    }

    /** Typing into the edit field, which is shown only while a todo is being edited. */
    method SetEditingTitle(title: string)
      requires editingId.Some?
      modifies this`editingTitle
      ensures Valid()
      ensures editingTitle == title
    {
      editingTitle := title;
    }

    /**
     * `handleSaveEdit`: a title that is blank after trimming does nothing;
     * otherwise the trimmed title is sent, a non-null answer replaces the
     * entries with that id, and any answer (null included) ends the editing.
     * A failed call leaves the editing state as it was.
     */
    method HandleSaveEdit(id: int, reply: Reply<Option<Todo>>) returns (sent: Option<UpdateTodoInput>)
      requires Valid()
      modifies this`todos, this`editingId, this`editingTitle
      ensures Valid()
      ensures sent.None? <==> Trim(old(editingTitle)) == ""
      ensures sent.Some? ==> sent.value == UpdateTodoInput(id, Some(Trim(old(editingTitle))), None)
      ensures sent.Some? ==> 1 <= |sent.value.title.value| <= |old(editingTitle)|
      ensures sent.Some? && reply.Answered? && reply.value.Some? ==>
        todos == ReplaceById(old(todos), id, reply.value.value)
      ensures !(sent.Some? && reply.Answered? && reply.value.Some?) ==> todos == old(todos)
      ensures sent.Some? && reply.Answered? ==> editingId.None? && editingTitle == ""
      ensures !(sent.Some? && reply.Answered?) ==>
        editingId == old(editingId) && editingTitle == old(editingTitle)
    {
      var title := Trim(editingTitle);
      if title == "" {
        return None;
      }
      sent := Some(UpdateTodoInput(id, Some(title), None));
      if reply.Answered? {
        if reply.value.Some? {
          todos := ReplaceById(todos, id, reply.value.value);
        }
        editingId := None;
        editingTitle := "";
      }
    }

    /** `cancelEditing`: back to editing nothing. */
    method CancelEditing()
      modifies this`editingId, this`editingTitle
      ensures Valid()
      ensures editingId.None? && editingTitle == ""
    {
      editingId := None;
      editingTitle := "";
    }

    /** `handleDeleteTodo`: sends the id; a `success` answer filters that id out of the list. */
    method HandleDeleteTodo(id: int, reply: Reply<bool>) returns (sent: DeleteTodoInput)
      modifies this`todos
      ensures sent == DeleteTodoInput(id)
      ensures reply == Answered(true) ==> todos == WithoutId(old(todos), id)
      ensures reply != Answered(true) ==> todos == old(todos)
    {
      sent := DeleteTodoInput(id);
      if reply == Answered(true) {
        todos := WithoutId(todos, id);
      }
    }
  }

  /**
   * A full toggle round: the client mirrors the table, the server runs the
   * update for an entry the client shows and the client reconciles with the
   * answer; the mirror survives and the completed count moves by one.
   */
  method ToggleRound(table: TodoTable, app: App, todo: Todo, now: nat)
    requires table.Valid() && Mirrors(app.todos, table.rows) && todo in app.todos
    modifies table`rows, app`todos
    ensures table.Valid() && Mirrors(app.todos, table.rows)
    ensures table.rows == UpdateWhere(old(table.rows), todo.id, Patch(now, None, Some(!todo.completed)))
    ensures Lookup(table.rows, todo.id).Some?
    ensures app.todos == ReplaceById(old(app.todos), todo.id, Lookup(table.rows, todo.id).value)
    ensures CompletedCount(app.todos) ==
      if todo.completed then CompletedCount(old(app.todos)) - 1 else CompletedCount(old(app.todos)) + 1
  {
    var input := UpdateTodoInput(todo.id, None, Some(!todo.completed));
    ghost var rows := table.rows;
    ghost var list := app.todos;
    var answer := table.UpdateTodo(input, now);
    ToggleKeepsMirror(list, rows, todo, Patch(now, input.title, input.completed));
    ToggleFlipsStoredRow(list, rows, todo, Patch(now, input.title, input.completed));
    ToggleMovesCountByOne(list, todo, answer.value);
    var sent := app.HandleToggleComplete(todo, Answered(answer));
    assert sent == input;
  }

  /**
   * A full delete round: whatever the server answers, the id is gone from
   * both the table and the list, and the client still mirrors the table.
   */
  method DeleteRound(table: TodoTable, app: App, id: int)
    requires table.Valid() && Mirrors(app.todos, table.rows)
    modifies table`rows, app`todos
    ensures table.Valid() && Mirrors(app.todos, table.rows)
    ensures table.rows == WithoutId(old(table.rows), id) && app.todos == WithoutId(old(app.todos), id)
    ensures !HasId(table.rows, id) && !HasId(app.todos, id)
  {
    ghost var rows := table.rows;
    ghost var list := app.todos;
    var success := table.DeleteTodo(DeleteTodoInput(id));
    var sent := app.HandleDeleteTodo(id, Answered(success));
    assert sent == DeleteTodoInput(id);
    DeleteKeepsMirror(list, rows, id);
    if !success {
      WithoutMissingId(list, id);
    }
  }

  /**
   * A create round, with the table's insert standing in for the create
   * handler: the server validates the body the client sends; a title the
   * create schema rejects makes the call throw, and a blank title is never
   * sent, so in both cases neither side changes; otherwise the record the
   * table inserts is appended there and prepended to the list, and the form
   * is cleared. Either way the client still mirrors the table.
   */
  method CreateRound(table: TodoTable, app: App, now: nat)
    requires table.Valid() && Mirrors(app.todos, table.rows)
    modifies table, app`todos, app`newTodoTitle, app`isLoading
    ensures table.Valid() && Mirrors(app.todos, table.rows)
    ensures !ValidTitle(old(app.newTodoTitle)) || Trim(old(app.newTodoTitle)) == "" ==>
      && table.rows == old(table.rows) && table.nextId == old(table.nextId)
      && app.todos == old(app.todos) && app.newTodoTitle == old(app.newTodoTitle)
    ensures ValidTitle(old(app.newTodoTitle)) && Trim(old(app.newTodoTitle)) != "" ==>
      var created := WithDefaults(NewTodo(old(app.newTodoTitle), None, None, None), old(table.nextId), now);
      && table.rows == old(table.rows) + [created] && table.nextId == old(table.nextId) + 1
      && app.todos == [created] + old(app.todos) && app.newTodoTitle == ""
    ensures Trim(old(app.newTodoTitle)) != "" ==> !app.isLoading
    ensures Trim(old(app.newTodoTitle)) == "" ==> app.isLoading == old(app.isLoading)
  {
    var sent := app.SubmitCreate();
    if sent.Some? {
      match ParseCreate(EncodeCreate(sent.value))
      case Rejected(_) =>
        app.FinishCreate(Failed);
      case Accepted(input) =>
        ghost var rows := table.rows;
        ghost var list := app.todos;
        var created := table.Insert(NewTodo(input.title, None, None, None), now);
        app.FinishCreate(Answered(created));
        CreateKeepsMirror(list, rows, created);
    }
  }
}

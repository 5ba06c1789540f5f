/**
 * The server side: the `todos` table as an in-memory sequence of rows with a
 * serial id counter, and the update and delete handlers that change it.
 * Each handler runs one statement against the table; `now` is the caller's clock.
 */
module TodoStore {
  import opened Wrappers
  import opened TodoSchema
  import opened TodoList
  import opened Validation

  /**
   * The `set(...)` object the update handler builds: the timestamp is always
   * set; `title` and `completed` only when the input carries them.
   */
  datatype Patch = Patch(updatedAt: nat, title: Option<string>, completed: Option<bool>)

  /** One row after `set(patch)`: present fields replace, absent fields keep, id and creation time never change. */
  function ApplyPatch(t: Todo, p: Patch): (u: Todo)
    ensures u.id == t.id && u.createdAt == t.createdAt
    ensures u.updatedAt == p.updatedAt
    ensures p.title.Some? ==> u.title == p.title.value
    ensures p.title.None? ==> u.title == t.title
    ensures p.completed.Some? ==> u.completed == p.completed.value
    ensures p.completed.None? ==> u.completed == t.completed
  {
    t.(title := p.title.GetOr(t.title), completed := p.completed.GetOr(t.completed), updatedAt := p.updatedAt)
  }

  /** The table after `UPDATE todos SET patch WHERE id = x`: matching rows patched, every other row as it was. */
  function UpdateWhere(rows: seq<Todo>, id: int, p: Patch): (r: seq<Todo>)
    ensures |r| == |rows|
    ensures forall k :: 0 <= k < |rows| ==> r[k].id == rows[k].id
    ensures forall k :: 0 <= k < |rows| && rows[k].id != id ==> r[k] == rows[k]
    ensures forall k :: 0 <= k < |rows| && rows[k].id == id ==> r[k] == ApplyPatch(rows[k], p)
  {
    if rows == [] then []
    else [if rows[0].id == id then ApplyPatch(rows[0], p) else rows[0]] + UpdateWhere(rows[1..], id, p)
  }

  /** Every stored title satisfies the title bounds. */
  predicate TitlesValid(rows: seq<Todo>) {
    forall t :: t in rows ==> ValidTitle(t.title)
  }

  /** No row was last updated before it was created. */
  predicate TimestampsOrdered(rows: seq<Todo>) {
    forall t :: t in rows ==> t.createdAt <= t.updatedAt
  }

  /** Applying the same patch twice is the same as applying it once. */
  lemma ApplyPatchIdempotent(t: Todo, p: Patch)
    ensures ApplyPatch(ApplyPatch(t, p), p) == ApplyPatch(t, p)
  {
  }

  /** A patch that supplies neither field only refreshes the timestamp. */
  lemma EmptyPatchTouchesOnlyTimestamp(t: Todo, now: nat)
    ensures ApplyPatch(t, Patch(now, None, None)) == t.(updatedAt := now)
  {
  }

  /** Updating an id that no row carries leaves the table exactly as it was. */
  lemma UpdateMissingId(rows: seq<Todo>, id: int, p: Patch)
    requires !HasId(rows, id)
    ensures UpdateWhere(rows, id, p) == rows
  {
    var r := UpdateWhere(rows, id, p);
    forall k | 0 <= k < |rows| ensures r[k] == rows[k] {
      assert rows[k] in rows;
    }
  }

  /** An update never changes which ids the table holds, so the primary key still holds. */
  lemma UpdateKeepsUnique(rows: seq<Todo>, id: int, p: Patch)
    requires UniqueIds(rows)
    ensures UniqueIds(UpdateWhere(rows, id, p))
  {
  }

  /**
   * After the update, a lookup of the updated id finds the old row with the
   * patch applied, and a lookup of any other id finds what it found before.
   */
  lemma {:induction false} LookupAfterUpdate(rows: seq<Todo>, id: int, p: Patch, other: int)
    ensures Lookup(UpdateWhere(rows, id, p), other) ==
      if other != id then Lookup(rows, other)
      else if Lookup(rows, id).None? then None
      else Some(ApplyPatch(Lookup(rows, id).value, p))
  {
    if rows != [] {
      LookupAfterUpdate(rows[1..], id, p, other);
      var r := UpdateWhere(rows, id, p);
      assert r[1..] == UpdateWhere(rows[1..], id, p);
      assert RowsWithId(r, other) == (if r[0].id == other then [r[0]] else []) + RowsWithId(r[1..], other);
    }
  }

  /** An update keeps every id within the range the serial sequence has handed out. */
  lemma UpdateKeepsIdRange(rows: seq<Todo>, id: int, p: Patch, next: int)
    requires forall t :: t in rows ==> 1 <= t.id < next
    ensures forall t :: t in UpdateWhere(rows, id, p) ==> 1 <= t.id < next
  {
    var r := UpdateWhere(rows, id, p);
    forall t | t in r ensures 1 <= t.id < next {
      var k :| 0 <= k < |r| && r[k] == t;
      assert rows[k] in rows;
    }
  }

  /** A valid title in the patch keeps every stored title within bounds. */
  lemma UpdateKeepsTitlesValid(rows: seq<Todo>, id: int, p: Patch)
    requires TitlesValid(rows)
    requires p.title.None? || ValidTitle(p.title.value)
    ensures TitlesValid(UpdateWhere(rows, id, p))
  {
    var r := UpdateWhere(rows, id, p);
    forall t | t in r ensures ValidTitle(t.title) {
      var k :| 0 <= k < |r| && r[k] == t;
      assert rows[k] in rows;
    }
  }

  /**
   * With a clock that does not run backwards, an update keeps every row's
   * creation time at or before its update time, and the updated row's
   * timestamp does not decrease.
   */
  lemma UpdateKeepsTimestampsOrdered(rows: seq<Todo>, id: int, p: Patch)
    requires TimestampsOrdered(rows)
    requires forall t :: t in rows ==> t.updatedAt <= p.updatedAt
    ensures TimestampsOrdered(UpdateWhere(rows, id, p))
    ensures forall k :: 0 <= k < |rows| ==> rows[k].updatedAt <= UpdateWhere(rows, id, p)[k].updatedAt
  {
    var r := UpdateWhere(rows, id, p);
    forall k | 0 <= k < |rows| ensures rows[k].updatedAt <= r[k].updatedAt && r[k].createdAt <= r[k].updatedAt {
      assert rows[k] in rows;
    }
    forall t | t in r ensures t.createdAt <= t.updatedAt {
      var k :| 0 <= k < |r| && r[k] == t;
    }
  }

  /**
   * The `set(...)` object as the update handler builds it: the timestamp
   * first, then each field the input carries.
   */
  method BuildPatch(input: UpdateTodoInput, now: nat) returns (patch: Patch)
    ensures patch.updatedAt == now
    ensures patch.title == input.title && patch.completed == input.completed
  {
    patch := Patch(now, None, None);
    if input.title.Some? {
      patch := patch.(title := input.title);
    }
    if input.completed.Some? {
      patch := patch.(completed := input.completed);
    }
  }

  /** The table: its rows in insertion order and the serial sequence that numbers them. */
  class TodoTable {
    var rows: seq<Todo>
    /** The next value the `id` serial sequence hands out. */
    var nextId: int

    /** The primary key holds, and every id was handed out by the sequence before. */
    ghost predicate Valid()
      reads this
    {
      && UniqueIds(rows)
      && 1 <= nextId
      && forall t :: t in rows ==> 1 <= t.id < nextId
    }

    /** An empty table whose serial sequence starts at 1. */
    constructor ()
      ensures Valid() && rows == [] && nextId == 1
    {
      rows := [];
      nextId := 1;
    }

    /**
     * `INSERT INTO todos`: the row takes the next serial id and the column
     * defaults, and is appended.
     */
    method Insert(row: NewTodo, now: nat) returns (t: Todo)
      requires Valid()
      modifies this
      ensures Valid()
      ensures t == WithDefaults(row, old(nextId), now)
      ensures !HasId(old(rows), t.id)
      ensures rows == old(rows) + [t] && nextId == old(nextId) + 1
      ensures Lookup(rows, t.id) == Some(t)
    {
      t := WithDefaults(row, nextId, now);
      var before := rows;
      rows := rows + [t];
      nextId := nextId + 1;
      forall i, j | 0 <= i < j < |rows| ensures rows[i].id != rows[j].id {
        assert rows[i] == before[i] && rows[i] in before;
        if j < |before| {
          assert rows[j] == before[j];
        }
      }
      LookupFindsRow(rows, t);
    }

    /**
     * The update handler: build the patch field by field, run the update on the
     * row whose id matches, and return that row as stored, or `None` when no
     * row matched.
     */
    method UpdateTodo(input: UpdateTodoInput, now: nat) returns (result: Option<Todo>)
      requires Valid()
      modifies this`rows
      ensures Valid() && nextId == old(nextId)
      ensures rows == UpdateWhere(old(rows), input.id, Patch(now, input.title, input.completed))
      ensures result == Lookup(rows, input.id)
      ensures result.None? <==> !HasId(old(rows), input.id)
      ensures result.None? ==> rows == old(rows)
      ensures result.Some? ==>
        result.value == ApplyPatch(Lookup(old(rows), input.id).value, Patch(now, input.title, input.completed))
    {
      var patch := BuildPatch(input, now);
      LookupAfterUpdate(rows, input.id, patch, input.id);
      UpdateKeepsUnique(rows, input.id, patch);
      UpdateKeepsIdRange(rows, input.id, patch, nextId);
      if !HasId(rows, input.id) {
        UpdateMissingId(rows, input.id, patch);
      }
      rows := UpdateWhere(rows, input.id, patch);
      var returned := RowsWithId(rows, input.id);
      if |returned| == 0 {
        result := None;
      } else {
        result := Some(returned[0]);
      }
    }

    /**
     * The delete handler: remove the row whose id matches and report success
     * exactly when the statement removed a row.
     */
    method DeleteTodo(input: DeleteTodoInput) returns (success: bool)
      requires Valid()
      modifies this`rows
      ensures Valid() && nextId == old(nextId)
      ensures rows == WithoutId(old(rows), input.id)
      ensures success <==> HasId(old(rows), input.id)
      ensures |rows| == |old(rows)| - (if success then 1 else 0)
      ensures !success ==> rows == old(rows)
      ensures !HasId(rows, input.id)
    {
      AtMostOneWithId(rows, input.id);
      WithoutIdKeepsUnique(rows, input.id);
      if !HasId(rows, input.id) {
        WithoutMissingId(rows, input.id);
      }
      var rowCount := |RowsWithId(rows, input.id)|;
      rows := WithoutId(rows, input.id);
      success := rowCount > 0;
    }
  }

  /** Deleting the middle of three rows with distinct ids finds it and keeps the outer two, in order. */
  lemma DeleteMiddleOfThree(a: Todo, b: Todo, c: Todo)
    requires a.id != b.id && c.id != b.id
    ensures HasId([a, b, c], b.id)
    ensures WithoutId([a, b, c], b.id) == [a, c]
  {
    assert [a, b, c][1] == b;
    assert [a, b, c][1..] == [b, c] && [b, c][1..] == [c] && [c][1..] == [];
    assert WithoutId([c], b.id) == [c];
    assert WithoutId([b, c], b.id) == [c];
  }

  /**
   * Inserting three rows and deleting the middle one succeeds and leaves the
   * other two, in order; deleting it again reports no success.
   */
  method DeleteMiddleScenario(now: nat) returns (deleted: bool, remaining: seq<Todo>, again: bool)
    ensures deleted && !again
    ensures |remaining| == 2 && remaining[0].title == "Todo 1" && remaining[1].title == "Todo 3"
  {
    var table := new TodoTable();
    var a := table.Insert(NewTodo("Todo 1", Some(false), None, None), now);
    var b := table.Insert(NewTodo("Todo 2", Some(true), None, None), now);
    var c := table.Insert(NewTodo("Todo 3", Some(false), None, None), now);
    assert table.rows == [a, b, c] && a.id < b.id < c.id;
    DeleteMiddleOfThree(a, b, c);
    deleted := table.DeleteTodo(DeleteTodoInput(b.id));
    remaining := table.rows;
    again := table.DeleteTodo(DeleteTodoInput(b.id));
  }

  /** Updating only the title keeps the completion flag and moves the timestamp forward. */
  method UpdateTitleScenario(now: nat, later: nat) returns (result: Option<Todo>)
    requires now < later
    ensures result.Some? && result.value.title == "Only Title Updated" && result.value.completed
    ensures result.value.updatedAt > now
  {
    var table := new TodoTable();
    var t := table.Insert(NewTodo("Original Title", Some(true), None, None), now);
    result := table.UpdateTodo(UpdateTodoInput(t.id, Some("Only Title Updated"), None), later);
  }
}

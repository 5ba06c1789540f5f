/**
 * The `todos` table: the record every row holds, the row an insert supplies,
 * and the column defaults the database fills in.
 * Timestamps are abstract natural numbers; the caller supplies `now`.
 */
module TodoSchema {
  import opened Wrappers

  /** A stored todo. Every column is NOT NULL, so every field is always present. */
  datatype Todo = Todo(
    id: int,
    title: string,
    completed: bool,
    createdAt: nat,
    updatedAt: nat)

  /**
   * The row an insert supplies. `id` is a serial column and is never supplied;
   * `completed` and both timestamps have column defaults and may be omitted.
   */
  datatype NewTodo = NewTodo(
    title: string,
    completed: Option<bool>,
    createdAt: Option<nat>,
    updatedAt: Option<nat>)

  /** The insert row with the column defaults filled in: `completed = false`, timestamps = `now`. */
  function WithDefaults(row: NewTodo, id: int, now: nat): (t: Todo)
    ensures t.id == id && t.title == row.title
    ensures row.completed.None? ==> !t.completed
    ensures row.completed.Some? ==> t.completed == row.completed.value
    ensures row.createdAt.None? ==> t.createdAt == now
    ensures row.updatedAt.None? ==> t.updatedAt == now
    ensures row.createdAt.Some? ==> t.createdAt == row.createdAt.value
    ensures row.updatedAt.Some? ==> t.updatedAt == row.updatedAt.value
  {
    Todo(id, row.title, row.completed.GetOr(false), row.createdAt.GetOr(now), row.updatedAt.GetOr(now))
  }

  /** An insert that gives only a title stores a pending todo whose two timestamps are equal. */
  lemma TitleOnlyInsert(title: string, id: int, now: nat)
    ensures var t := WithDefaults(NewTodo(title, None, None, None), id, now);
      t == Todo(id, title, false, now, now) && t.createdAt == t.updatedAt
  {
  }
}

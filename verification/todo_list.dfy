/**
 * Sequences of todos: the rows of the `todos` table on the server and the
 * client's in-memory copy of them. `WHERE id = x` selects, `DELETE ... WHERE
 * id = x` and the client's `filter(t => t.id !== id)` remove, and the primary
 * key keeps ids unique.
 */
module TodoList {
  import opened Wrappers
  import opened TodoSchema

  /** Some row carries `id`. */
  predicate HasId(rows: seq<Todo>, id: int) {
    exists t :: t in rows && t.id == id
  }

  /** The primary-key constraint: no two rows share an id. */
  predicate UniqueIds(rows: seq<Todo>) {
    forall i, j :: 0 <= i < j < |rows| ==> rows[i].id != rows[j].id
  }

  /** The rows `WHERE id = x` selects, in table order. */
  function RowsWithId(rows: seq<Todo>, id: int): (r: seq<Todo>)
    ensures |r| <= |rows|
    ensures forall t :: t in r <==> t in rows && t.id == id
    ensures r == [] <==> !HasId(rows, id)
  {
    if rows == [] then []
    else if rows[0].id == id then [rows[0]] + RowsWithId(rows[1..], id)
    else RowsWithId(rows[1..], id)
  }

  /** The rows that survive `DELETE ... WHERE id = x` (equally, `filter(t => t.id !== x)`), in order. */
  function WithoutId(rows: seq<Todo>, id: int): (r: seq<Todo>)
    ensures |r| == |rows| - |RowsWithId(rows, id)|
    ensures forall t :: t in r <==> t in rows && t.id != id
    ensures !HasId(r, id)
  {
    if rows == [] then []
    else if rows[0].id == id then WithoutId(rows[1..], id)
    else [rows[0]] + WithoutId(rows[1..], id)
  }

  /** A select by primary key: the first row with `id`, or nothing. */
  function Lookup(rows: seq<Todo>, id: int): (r: Option<Todo>)
    ensures r.None? <==> !HasId(rows, id)
    ensures r.Some? ==> r.value in rows && r.value.id == id
  {
    var matched := RowsWithId(rows, id);
    if matched == [] then None else Some(matched[0])
  }

  /** Uniqueness of ids splits into the head's id being fresh and the tail being unique. */
  lemma UniqueIdsCons(x: Todo, rows: seq<Todo>)
    ensures UniqueIds([x] + rows) <==> UniqueIds(rows) && !HasId(rows, x.id)
  {
    var s := [x] + rows;
    if UniqueIds(s) {
      UniqueTail(x, rows);
      UniqueHeadFresh(x, rows);
    }
    if UniqueIds(rows) && !HasId(rows, x.id) {
      forall i, j | 0 <= i < j < |s| ensures s[i].id != s[j].id {
        assert s[j] == rows[j - 1];
        if i == 0 {
          assert s[j] in rows;
        } else {
          assert s[i] == rows[i - 1];
        }
      }
    }
  }

  /** The rows after the first of a table with a primary key still have one. */
  lemma UniqueTail(x: Todo, rows: seq<Todo>)
    requires UniqueIds([x] + rows)
    ensures UniqueIds(rows)
  {
    var s := [x] + rows;
    forall i, j | 0 <= i < j < |rows| ensures rows[i].id != rows[j].id {
      assert rows[i] == s[i + 1] && rows[j] == s[j + 1];
    }
  }

  /** Under the primary key, no later row repeats the first row's id. */
  lemma UniqueHeadFresh(x: Todo, rows: seq<Todo>)
    requires UniqueIds([x] + rows)
    ensures !HasId(rows, x.id)
  {
    var s := [x] + rows;
    forall t | t in rows ensures t.id != x.id {
      var k :| 0 <= k < |rows| && rows[k] == t;
      assert s[k + 1] == t && s[0] == x;
    }
  }

  /** Because `id` is the primary key, `WHERE id = x` matches at most one row. */
  lemma {:induction false} AtMostOneWithId(rows: seq<Todo>, id: int)
    requires UniqueIds(rows)
    ensures |RowsWithId(rows, id)| <= 1
  {
    if rows != [] {
      assert rows == [rows[0]] + rows[1..];
      UniqueIdsCons(rows[0], rows[1..]);
      AtMostOneWithId(rows[1..], id);
    }
  }

  /** Under the primary key, looking up a stored row's id finds that very row. */
  lemma LookupFindsRow(rows: seq<Todo>, t: Todo)
    requires UniqueIds(rows) && t in rows
    ensures Lookup(rows, t.id) == Some(t)
  {
    AtMostOneWithId(rows, t.id);
    assert t in RowsWithId(rows, t.id);
  }

  /** Removing one id keeps the remaining ids unique. */
  lemma {:induction false} WithoutIdKeepsUnique(rows: seq<Todo>, id: int)
    requires UniqueIds(rows)
    ensures UniqueIds(WithoutId(rows, id))
  {
    if rows != [] {
      assert rows == [rows[0]] + rows[1..];
      UniqueIdsCons(rows[0], rows[1..]);
      WithoutIdKeepsUnique(rows[1..], id);
      if rows[0].id != id {
        UniqueIdsCons(rows[0], WithoutId(rows[1..], id));
      }
    }
  }

  /** Removal works row by row: it distributes over concatenation, so survivors keep their relative order. */
  lemma {:induction false} WithoutIdConcat(a: seq<Todo>, b: seq<Todo>, id: int)
    ensures WithoutId(a + b, id) == WithoutId(a, id) + WithoutId(b, id)
  {
    if a == [] {
      assert a + b == b;
    } else {
      var x, tail := a[0], a[1..];
      assert (a + b)[0] == x && (a + b)[1..] == tail + b;
      WithoutIdConcat(tail, b, id);
      var p, q := WithoutId(tail, id), WithoutId(b, id);
      if x.id != id {
        assert [x] + (p + q) == ([x] + p) + q;
      }
    }
  }

  /** Removing an id no row carries changes nothing. */
  lemma {:induction false} WithoutMissingId(rows: seq<Todo>, id: int)
    requires !HasId(rows, id)
    ensures WithoutId(rows, id) == rows
  {
    if rows != [] {
      assert rows[0] in rows;
      assert !HasId(rows[1..], id) by {
        forall t | t in rows[1..] ensures t.id != id { assert t in rows; }
      }
      WithoutMissingId(rows[1..], id);
    }
  }

  /** Removing the same id twice is the same as removing it once. */
  lemma WithoutIdIdempotent(rows: seq<Todo>, id: int)
    ensures WithoutId(WithoutId(rows, id), id) == WithoutId(rows, id)
  {
    WithoutMissingId(WithoutId(rows, id), id);
  }

  /** After removing `id`, a lookup of `id` finds nothing and a lookup of any other id is unaffected. */
  lemma {:induction false} LookupWithoutId(rows: seq<Todo>, id: int, other: int)
    ensures Lookup(WithoutId(rows, id), other) == if other == id then None else Lookup(rows, other)
  {
    if rows != [] && other != id {
      LookupWithoutId(rows[1..], id, other);
      if rows[0].id != id {
        assert ([rows[0]] + WithoutId(rows[1..], id))[1..] == WithoutId(rows[1..], id);
      }
    }
  }

  /** Selection works row by row: it distributes over concatenation. */
  lemma {:induction false} RowsWithIdConcat(a: seq<Todo>, b: seq<Todo>, id: int)
    ensures RowsWithId(a + b, id) == RowsWithId(a, id) + RowsWithId(b, id)
  {
    if a == [] {
      assert a + b == b;
    } else {
      var x, tail := a[0], a[1..];
      assert (a + b)[0] == x && (a + b)[1..] == tail + b;
      RowsWithIdConcat(tail, b, id);
      var p, q := RowsWithId(tail, id), RowsWithId(b, id);
      if x.id == id {
        assert [x] + (p + q) == ([x] + p) + q;
      }
    }
  }

  /** Appending a row with a fresh id makes it findable and leaves every other lookup as it was. */
  lemma LookupAppend(rows: seq<Todo>, t: Todo, other: int)
    requires !HasId(rows, t.id)
    ensures Lookup(rows + [t], other) == if other == t.id then Some(t) else Lookup(rows, other)
  {
    RowsWithIdConcat(rows, [t], other);
    assert RowsWithId([t], other) == if t.id == other then [t] else [];
  }
}

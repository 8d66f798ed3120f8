/** The `todos` table (`backend/app/models.py`) and the row operations both front-ends
    perform on it: the HTTP router and the Telegram bot's `_create_todo`,
    `_get_todos`, `_complete_todo` and `_delete_todo` helpers.

    The table is a map from id to row. New ids come from a counter that is above
    every id ever handed out, which is all the model relies on of the database's
    id allocation: a new id is never one in use.
 */
module TodoStore {
  import opened Base

  /** One row; `createdAt` is the server clock reading taken at insertion. */
  datatype Todo = Todo(title: string, completed: bool, createdBy: string, createdAt: int)

  /** A row together with its primary key, as queries return it. */
  datatype Row = Row(id: int, todo: Todo)

  datatype Store = Store(todos: map<int, Todo>, nextId: int)

  /** Every id in use is positive and below the allocation counter. */
  predicate Valid(st: Store) {
    st.nextId >= 1 && forall id :: id in st.todos ==> 1 <= id < st.nextId
  }

  const Empty: Store := Store(map[], 1)

  /** The creator recorded for todos made through the web API unless the request names one. */
  const WebCreator: string := "web"

  // ---------------------------------------------------------------------------
  // Insert

  datatype Created = Created(id: int, store: Store)

  /** `Todo(title=..., created_by=...)` added and committed: a new row under a fresh
      id, not completed, stamped with the clock; every other row is untouched. */
  function Create(st: Store, title: string, createdBy: string, now: int): (r: Created)
    requires Valid(st)
    ensures Valid(r.store)
    ensures r.id > 0 && r.id !in st.todos
    ensures r.store.todos.Keys == st.todos.Keys + {r.id}
    ensures r.store.todos[r.id] == Todo(title, false, createdBy, now)
    ensures forall id :: id in st.todos ==> r.store.todos[id] == st.todos[id]
  {
    var id := st.nextId;
    Created(id, Store(st.todos[id := Todo(title, false, createdBy, now)], id + 1))
  }

  // ---------------------------------------------------------------------------
  // Lookup

  /** The range of SQLite's INTEGER type: 64-bit two's complement. */
  const MinSqlInteger: int := -0x8000_0000_0000_0000
  const MaxSqlInteger: int := 0x7FFF_FFFF_FFFF_FFFF

  /** Whether an id can be bound as a query parameter. Outside this range the driver
      raises `OverflowError` before the query runs, so every lookup by such an id
      fails instead of finding nothing. */
  predicate Bindable(id: int) {
    MinSqlInteger <= id <= MaxSqlInteger
  }

  /** `db.query(Todo).filter(Todo.id == id).first()` for a bindable id. */
  function Find(st: Store, id: int): (r: Option<Todo>)
    ensures r.Some? <==> id in st.todos
    ensures r.Some? ==> r.value == st.todos[id]
  {
    if id in st.todos then Some(st.todos[id]) else None
  }

  // ---------------------------------------------------------------------------
  // Update

  /** The fields a partial update may carry; an absent field is left alone. */
  datatype Patch = Patch(title: Option<string>, completed: Option<bool>)

  /** The patch that marks a todo completed, as the bot's `/done` does. */
  const MarkDone: Patch := Patch(None, Some(true))

  /** The result of a lookup-then-modify: the row after the change (`None` when the
      id is absent) and the table after it. */
  datatype Change = Change(todo: Option<Todo>, store: Store)

  /** Look the row up; if present, overwrite the supplied fields and commit. */
  function Update(st: Store, id: int, patch: Patch): (r: Change)
    requires Valid(st)
    ensures Valid(r.store) && r.store.nextId == st.nextId
    ensures r.store.todos.Keys == st.todos.Keys
    ensures id !in st.todos ==> r.todo.None? && r.store == st
    ensures id in st.todos ==> r.todo == Some(r.store.todos[id])
    ensures forall k :: k in st.todos && k != id ==> r.store.todos[k] == st.todos[k]
    ensures id in st.todos ==>
      var old_, new_ := st.todos[id], r.store.todos[id];
      && new_.title == (if patch.title.Some? then patch.title.value else old_.title)
      && new_.completed == (if patch.completed.Some? then patch.completed.value else old_.completed)
      && new_.createdBy == old_.createdBy
      && new_.createdAt == old_.createdAt
  {
    match Find(st, id)
    case None => Change(None, st)
    case Some(t) =>
      var t' := t.(title := patch.title.GetOr(t.title), completed := patch.completed.GetOr(t.completed));
      Change(Some(t'), st.(todos := st.todos[id := t']))
  }

  // ---------------------------------------------------------------------------
  // Delete

  /** Whether a row was found, and the table after deleting it. */
  datatype Deletion = Deletion(found: bool, store: Store)

  /** Look the row up; if present, delete it and commit. */
  function Delete(st: Store, id: int): (r: Deletion)
    requires Valid(st)
    ensures Valid(r.store) && r.store.nextId == st.nextId
    ensures r.found <==> id in st.todos
    ensures r.store.todos.Keys == st.todos.Keys - {id}
    ensures forall k :: k in r.store.todos ==> r.store.todos[k] == st.todos[k]
    ensures !r.found ==> r.store == st
  {
    if id in st.todos then Deletion(true, st.(todos := st.todos - {id})) else Deletion(false, st)
  }

  // ---------------------------------------------------------------------------
  // Listing

  /** The optional `completed == b` filter of a listing query. */
  predicate Selected(t: Todo, completed: Option<bool>) {
    completed.None? || t.completed == completed.value
  }

  predicate DistinctIds(rows: seq<Row>) {
    forall i, j :: 0 <= i < j < |rows| ==> rows[i].id != rows[j].id
  }

  /** `ORDER BY created_at DESC`. */
  predicate NewestFirst(rows: seq<Row>) {
    forall i, j :: 0 <= i < j < |rows| ==> rows[i].todo.createdAt >= rows[j].todo.createdAt
  }

  /** The selected rows whose ids lie in `[lo, nextId)`, in increasing id order. */
  function Scan(st: Store, completed: Option<bool>, lo: int): (r: seq<Row>)
    ensures forall row :: row in r <==>
      lo <= row.id < st.nextId && row.id in st.todos && st.todos[row.id] == row.todo && Selected(row.todo, completed)
    ensures forall i, j :: 0 <= i < j < |r| ==> r[i].id < r[j].id
    decreases st.nextId - lo
  {
    if lo >= st.nextId then []
    else
      var rest := Scan(st, completed, lo + 1);
      if lo in st.todos && Selected(st.todos[lo], completed) then [Row(lo, st.todos[lo])] + rest else rest
  }

  /** Put `x` in front of the first row that is not newer than it. */
  function InsertNewest(x: Row, rows: seq<Row>): (r: seq<Row>)
    requires NewestFirst(rows)
    ensures NewestFirst(r)
    ensures |r| == |rows| + 1
    ensures forall row :: row in r <==> row in rows || row == x
  {
    if |rows| == 0 || x.todo.createdAt >= rows[0].todo.createdAt then [x] + rows
    else
      var inner := InsertNewest(x, rows[1..]);
      forall row | row in inner ensures row.todo.createdAt <= rows[0].todo.createdAt {
        if row != x {
          var m :| 0 <= m < |rows[1..]| && rows[1..][m] == row;
          assert rows[m + 1] == row;
        }
      }
      var r := [rows[0]] + inner;
      assert forall j :: 1 <= j < |r| ==> r[j] == inner[j - 1] && r[j] in inner;
      r
  }

  /** Insertion sort, newest first. */
  function SortNewest(rows: seq<Row>): (r: seq<Row>)
    requires DistinctIds(rows)
    ensures NewestFirst(r) && DistinctIds(r)
    ensures |r| == |rows|
    ensures forall row :: row in r <==> row in rows
  {
    if |rows| == 0 then []
    else
      var rest := SortNewest(rows[1..]);
      var r := InsertNewest(rows[0], rest);
      assert forall row :: row in rest ==> row.id != rows[0].id by {
        forall row | row in rest ensures row.id != rows[0].id {
          var m :| 1 <= m < |rows| && rows[m] == row by {
            var k :| 0 <= k < |rows[1..]| && rows[1..][k] == row;
            assert rows[k + 1] == row;
          }
        }
      }
      InsertKeepsDistinct(rows[0], rest);
      r
  }

  lemma {:induction false} InsertKeepsDistinct(x: Row, rows: seq<Row>)
    requires NewestFirst(rows) && DistinctIds(rows)
    requires forall row :: row in rows ==> row.id != x.id
    ensures DistinctIds(InsertNewest(x, rows))
    decreases |rows|
  {
    if |rows| > 0 && x.todo.createdAt < rows[0].todo.createdAt {
      var tail := rows[1..];
      assert forall row :: row in tail ==> row in rows;
      assert DistinctIds(tail);
      InsertKeepsDistinct(x, tail);
      var inner := InsertNewest(x, tail);
      forall k | 0 <= k < |inner| ensures inner[k].id != rows[0].id {
        if inner[k] != x {
          assert inner[k] in inner;
          var m :| 0 <= m < |tail| && tail[m] == inner[k];
          assert rows[m + 1] == inner[k];
        }
      }
    }
  }

  /** `query.order_by(Todo.created_at.desc()).all()` after the optional filter on
      `completed`: exactly the selected rows, each once, newest first. */
  function List(st: Store, completed: Option<bool>): (r: seq<Row>)
    requires Valid(st)
    ensures forall row :: row in r <==>
      row.id in st.todos && st.todos[row.id] == row.todo && Selected(row.todo, completed)
    ensures DistinctIds(r)
    ensures NewestFirst(r)
  {
    SortNewest(Scan(st, completed, 1))
  }

  // ---------------------------------------------------------------------------
  // Properties relating the operations

  /** A created todo reads back with the given title and creator, not completed. */
  lemma {:induction false} CreateThenFind(st: Store, title: string, createdBy: string, now: int)
    requires Valid(st)
    ensures var c := Create(st, title, createdBy, now);
            Find(c.store, c.id) == Some(Todo(title, false, createdBy, now))
  {
  }

  /** A created todo shows up in the full listing and in the pending listing. */
  lemma {:induction false} CreateThenListed(st: Store, title: string, createdBy: string, now: int)
    requires Valid(st)
    ensures var c := Create(st, title, createdBy, now);
            && Row(c.id, Todo(title, false, createdBy, now)) in List(c.store, None)
            && Row(c.id, Todo(title, false, createdBy, now)) in List(c.store, Some(false))
  {
  }

  /** After a delete the id is gone. */
  lemma {:induction false} DeleteThenFind(st: Store, id: int)
    requires Valid(st)
    ensures Find(Delete(st, id).store, id).None?
  {
  }

  /** Applying the same patch twice is the same as applying it once. */
  lemma {:induction false} UpdateIdempotent(st: Store, id: int, patch: Patch)
    requires Valid(st)
    ensures var once := Update(st, id, patch);
            Update(once.store, id, patch) == once
  {
  }

  /** The completed and pending listings split the full listing: every row is in
      exactly one of them. */
  lemma {:induction false} ListingsPartition(st: Store, row: Row)
    requires Valid(st)
    ensures row in List(st, None) <==> row in List(st, Some(true)) || row in List(st, Some(false))
    ensures !(row in List(st, Some(true)) && row in List(st, Some(false)))
  {
  }

  /** A listing is empty exactly when no todo passes its filter. */
  lemma {:induction false} EmptyListing(st: Store, completed: Option<bool>)
    requires Valid(st)
    ensures |List(st, completed)| == 0 <==> forall id :: id in st.todos ==> !Selected(st.todos[id], completed)
  {
    var rows := List(st, completed);
    if |rows| > 0 {
      assert rows[0] in rows;
    }
    forall id | id in st.todos && Selected(st.todos[id], completed) ensures |rows| > 0 {
      assert Row(id, st.todos[id]) in rows;
    }
  }
}

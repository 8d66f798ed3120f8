/** The todo CRUD endpoints under `/api/todos` (`backend/app/routers/todos.py`), each
    a function from the request and the table to the response and the table after it.
 */
module TodosApi {
  import opened Base
  import opened TodoStore

  /** `TodoCreate`: a title, and a creator that defaults to "web" when the body omits it. */
  datatype TodoCreate = TodoCreate(title: string, createdBy: Option<string>)

  datatype Body = Record(row: Row) | Records(rows: seq<Row>) | Detail(message: string) | PlainText(text: string) | NoBody

  datatype Response = Response(status: int, body: Body)

  datatype Handled = Handled(response: Response, store: Store)

  const NotFound: Response := Response(404, Detail("Todo not found"))

  /** What the server answers when an endpoint raises an exception it does not catch. */
  const ServerError: Response := Response(500, PlainText("Internal Server Error"))

  /** `GET /api/todos?completed=b`: 200 with exactly the todos whose completed flag is
      `b` (all of them without the parameter), each once, newest first. */
  function GetTodos(st: Store, completed: Option<bool>): (r: Response)
    requires Valid(st)
    ensures r.status == 200 && r.body.Records?
    ensures forall row :: row in r.body.rows <==>
      && row.id in st.todos && st.todos[row.id] == row.todo
      && (completed.Some? ==> row.todo.completed == completed.value)
    ensures DistinctIds(r.body.rows) && NewestFirst(r.body.rows)
  {
    Response(200, Records(List(st, completed)))
  }

  /** `POST /api/todos`: 201 with the new row, which is stored under a fresh id, not
      completed, created by the named creator or "web". */
  function CreateTodo(st: Store, request: TodoCreate, now: int): (r: Handled)
    requires Valid(st)
    ensures Valid(r.store)
    ensures r.response.status == 201 && r.response.body.Record?
    ensures var row := r.response.body.row;
            && row.id !in st.todos
            && row.todo == Todo(request.title, false, request.createdBy.GetOr(WebCreator), now)
            && r.store.todos == st.todos[row.id := row.todo]
  {
    var c := Create(st, request.title, request.createdBy.GetOr(WebCreator), now);
    Handled(Response(201, Record(Row(c.id, c.store.todos[c.id]))), c.store)
  }

  /** `GET /api/todos/{id}`: 200 with the row, or 404 when there is none; an id the
      database cannot hold makes the lookup raise. */
  function GetTodo(st: Store, id: int): (r: Response)
    ensures !Bindable(id) ==> r == ServerError
    ensures Bindable(id) ==> (id in st.todos <==> r.status == 200)
    ensures Bindable(id) && id in st.todos ==> r.body == Record(Row(id, st.todos[id]))
    ensures Bindable(id) && id !in st.todos ==> r == NotFound
  {
    if !Bindable(id) then ServerError
    else match Find(st, id)
    case None => NotFound
    case Some(t) => Response(200, Record(Row(id, t)))
  }

  /** `PUT /api/todos/{id}`: 404 and no change when there is no such row; otherwise
      the supplied fields are overwritten and the row after the change is returned.
      An id the database cannot hold makes the lookup raise, changing nothing. */
  function UpdateTodo(st: Store, id: int, patch: Patch): (r: Handled)
    requires Valid(st)
    ensures Valid(r.store)
    ensures !Bindable(id) ==> r == Handled(ServerError, st)
    ensures Bindable(id) && id !in st.todos ==> r.response == NotFound && r.store == st
    ensures Bindable(id) && id in st.todos ==>
      && r.store == Update(st, id, patch).store
      && r.response == Response(200, Record(Row(id, r.store.todos[id])))
  {
    if !Bindable(id) then Handled(ServerError, st) else
    var c := Update(st, id, patch);
    match c.todo
    case None => Handled(NotFound, st)
    case Some(t) => Handled(Response(200, Record(Row(id, t))), c.store)
  }

  /** `DELETE /api/todos/{id}`: 404 and no change when there is no such row; otherwise
      204 and exactly that row is gone. An id the database cannot hold makes the lookup
      raise, changing nothing. */
  function DeleteTodo(st: Store, id: int): (r: Handled)
    requires Valid(st)
    ensures Valid(r.store)
    ensures !Bindable(id) ==> r == Handled(ServerError, st)
    ensures Bindable(id) && id !in st.todos ==> r.response == NotFound && r.store == st
    ensures Bindable(id) && id in st.todos ==> r.response == Response(204, NoBody) && r.store.todos == st.todos - {id}
  {
    if !Bindable(id) then Handled(ServerError, st) else
    var d := Delete(st, id);
    if d.found then Handled(Response(204, NoBody), d.store) else Handled(NotFound, st)
  }

  /** Creating a todo and reading it back gives the same title and creator, not completed. */
  lemma {:induction false} CreateThenGet(st: Store, request: TodoCreate, now: int)
    requires Valid(st) && st.nextId <= MaxSqlInteger
    ensures var h := CreateTodo(st, request, now);
            GetTodo(h.store, h.response.body.row.id) == Response(200, h.response.body)
  {
  }

  /** Deleting a todo makes reading it a 404, and deleting it again a 404 too (a 500
      throughout for an id the database cannot hold). */
  lemma {:induction false} DeleteThenGet(st: Store, id: int)
    requires Valid(st)
    ensures var h := DeleteTodo(st, id);
            var missing := if Bindable(id) then NotFound else ServerError;
            && GetTodo(h.store, id) == missing
            && DeleteTodo(h.store, id) == Handled(missing, h.store)
  {
  }

  /** Updating only the completed flag keeps the title, and updating only the title keeps
      the completed flag. */
  lemma {:induction false} UpdateTouchesOnlySuppliedFields(st: Store, id: int, title: string, completed: bool)
    requires Valid(st) && id in st.todos && Bindable(id)
    ensures UpdateTodo(st, id, Patch(None, Some(completed))).store.todos[id].title == st.todos[id].title
    ensures UpdateTodo(st, id, Patch(Some(title), None)).store.todos[id].completed == st.todos[id].completed
  {
  }
}

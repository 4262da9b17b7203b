/** The todo application: a `todos(id, task, done)` table, one route per
    operation, and the request-scoped connection of ConnectionScope. The
    functions state what each route does to the table; the methods of `App`
    follow the routes statement by statement and are proved to do just that. */
module TodoApp {
  import opened Wrappers
  import opened Http
  import opened PyStr
  import opened RowTable
  import opened ConnectionScope

  /** A row of `todos`, less its id. */
  datatype Todo = Todo(task: string, done: bool)

  /** The routes, with the form field `task` where the route reads one. */
  datatype Request =
    | GetIndex
    | PostAdd(task: Option<string>)
    | PostEdit(id: int, task: Option<string>)
    | GetUpdate(id: int)
    | GetDelete(id: int)

  /** Every stored task is non-blank and has no surrounding whitespace. */
  ghost predicate TasksWellFormed(t: Table<Todo>)
  {
    forall id :: id in t.rows ==> t.rows[id].task != [] && Trimmed(t.rows[id].task)
  }

  /** The table after `POST /add`; `None` when the INSERT fails. A missing or
      blank field leaves the table as it is; otherwise exactly one row is added,
      under a never-used id, holding the stripped text and `done = false`. */
  function AddTask(t: Table<Todo>, task: Option<string>): (r: Option<Table<Todo>>)
    requires Valid(t)
    ensures task.None? || AllSpace(task.value) ==> r == Some(t)
    ensures task.Some? && !AllSpace(task.value) && t.lastId == MaxRowId ==> r == None
    ensures task.Some? && !AllSpace(task.value) && t.lastId < MaxRowId ==>
      && r.Some?
      && t.lastId < r.value.lastId
      && r.value.lastId !in t.rows
      && r.value.rows == t.rows[r.value.lastId := Todo(Strip(task.value), false)]
    ensures r.Some? ==> Valid(r.value)
    ensures r.Some? && TasksWellFormed(t) ==> TasksWellFormed(r.value)
  {
    match StrippedField(task)
    case None => Some(t)
    case Some(text) => Insert(t, Todo(text, false))
  }

  /** The table after `POST /edit/<id>`: the row's task becomes the stripped
      text; its `done` and every other row stay. A missing row or a missing or
      blank field changes nothing. */
  function EditTask(t: Table<Todo>, id: int, task: Option<string>): (r: Table<Todo>)
    ensures id !in t.rows || task.None? || AllSpace(task.value) ==> r == t
    ensures r.lastId == t.lastId && r.rows.Keys == t.rows.Keys
    ensures forall k :: k in t.rows && k != id ==> r.rows[k] == t.rows[k]
    ensures id in t.rows && task.Some? && !AllSpace(task.value) ==>
      r.rows[id] == Todo(Strip(task.value), t.rows[id].done)
    ensures Valid(t) ==> Valid(r)
    ensures TasksWellFormed(t) ==> TasksWellFormed(r)
  {
    if Select(t, id).None? then t
    else
      match StrippedField(task)
      case None => t
      case Some(text) => UpdateWhere(t, id, (row: Todo) => row.(task := text))
  }

  /** The table after `GET /update/<id>`: the row's `done` is flipped, its task
      and every other row stay; a missing row changes nothing. */
  function ToggleDone(t: Table<Todo>, id: int): (r: Table<Todo>)
    ensures id !in t.rows ==> r == t
    ensures r.lastId == t.lastId && r.rows.Keys == t.rows.Keys
    ensures forall k :: k in t.rows && k != id ==> r.rows[k] == t.rows[k]
    ensures id in t.rows ==> r.rows[id] == Todo(t.rows[id].task, !t.rows[id].done)
    ensures Valid(t) ==> Valid(r)
    ensures TasksWellFormed(t) ==> TasksWellFormed(r)
  {
    match Select(t, id)
    case None => t
    case Some(row) =>
      var newStatus := !row.done;
      UpdateWhere(t, id, (r: Todo) => r.(done := newStatus))
  }

  /** Toggling the same row twice restores the table. */
  lemma ToggleTwice(t: Table<Todo>, id: int)
    ensures ToggleDone(ToggleDone(t, id), id) == t
  {
  }

  /** A task added by `POST /add` shows up on the index page, after all the
      rows that were there before. */
  lemma AddedTaskListedLast(t: Table<Todo>, task: Option<string>)
    requires Valid(t) && t.lastId < MaxRowId
    requires task.Some? && !AllSpace(task.value)
    ensures var t' := AddTask(t, task).value;
      OrderById(t') == OrderById(t) + [(t'.lastId, Todo(Strip(task.value), false))]
  {
    InsertListedLast(t, Todo(Strip(task.value), false));
  }

  /** The table after one request. A request whose INSERT fails leaves the
      table as it was. */
  function Effect(t: Table<Todo>, req: Request): (r: Table<Todo>)
    requires Valid(t)
    ensures Valid(r) && t.lastId <= r.lastId
    ensures forall id :: id in r.rows && id !in t.rows ==> t.lastId < id
    ensures TasksWellFormed(t) ==> TasksWellFormed(r)
  {
    match req
    case GetIndex => t
    case PostAdd(task) => AddTask(t, task).GetOr(t)
    case PostEdit(id, task) => EditTask(t, id, task)
    case GetUpdate(id) => ToggleDone(t, id)
    case GetDelete(id) => DeleteWhere(t, id)
  }

  /** The table after a sequence of requests, handled one after the other. */
  function Run(t: Table<Todo>, reqs: seq<Request>): (r: Table<Todo>)
    requires Valid(t)
    ensures Valid(r)
    decreases |reqs|
  {
    if reqs == [] then t else Run(Effect(t, reqs[0]), reqs[1..])
  }

  /** Over any sequence of requests: no blank or unstripped task is ever
      stored, the id counter never goes back, and an id that is not in use at
      the start and not above the counter (never handed out, or deleted) never
      comes back. */
  lemma {:induction false} RunKeepsInvariants(t: Table<Todo>, reqs: seq<Request>)
    requires Valid(t)
    ensures TasksWellFormed(t) ==> TasksWellFormed(Run(t, reqs))
    ensures t.lastId <= Run(t, reqs).lastId
    ensures forall id :: id in Run(t, reqs).rows && id !in t.rows ==> t.lastId < id
    decreases |reqs|
  {
    if reqs != [] {
      RunKeepsInvariants(Effect(t, reqs[0]), reqs[1..]);
    }
  }

  /** The application: the `todos` table of `todo.db` and the `g` object
      holding the request's connection. */
  class App {
    var todos: Table<Todo>
    const g: Scope

    ghost predicate Valid()
      reads this, g
    {
      RowTable.Valid(todos) && g.Valid()
    }

    /** The application over an existing database, before any request. */
    constructor (stored: Table<Todo>)
      requires RowTable.Valid(stored)
      ensures Valid() && todos == stored && fresh(g) && g.Released()
    {
      todos := stored;
      g := new Scope();
    }

    /** `index()`: every row, ascending by id. */
    method Index() returns (rows: seq<(int, Todo)>)
      requires Valid()
      modifies g
      ensures Valid() && g.AcquiredFrom(old(g.db), old(g.connects), old(g.closed))
      ensures rows == OrderById(todos)
      ensures ListsExactly(todos.rows, rows) && IdsAscending(rows)
    {
      var _ := g.GetDb();
      rows := OrderById(todos);
    }

    /** `add()`: asks for a connection only when there is text to insert. */
    method Add(task: Option<string>) returns (resp: Response)
      requires Valid()
      modifies this, g
      ensures Valid()
      ensures todos == AddTask(old(todos), task).GetOr(old(todos))
      ensures resp == if AddTask(old(todos), task).Some? then Redirect else ServerError
      ensures StrippedField(task).None? ==> unchanged(g)
      ensures StrippedField(task).Some? ==> g.AcquiredFrom(old(g.db), old(g.connects), old(g.closed))
    {
      resp := Redirect;
      var text := StrippedField(task);
      if text.Some? {
        var _ := g.GetDb();
        var inserted := Insert(todos, Todo(text.value, false));
        if inserted.Some? {
          todos := inserted.value;
        } else {
          resp := ServerError;
        }
      }
    }

    /** `edit(todo_id)` on POST. */
    method Edit(id: int, task: Option<string>)
      requires Valid()
      modifies this, g
      ensures Valid()
      ensures todos == EditTask(old(todos), id, task)
      ensures g.AcquiredFrom(old(g.db), old(g.connects), old(g.closed))
    {
      var _ := g.GetDb();
      var row := Select(todos, id);
      if row.None? {
        return;
      }
      var text := StrippedField(task);
      if text.Some? {
        todos := UpdateWhere(todos, id, (r: Todo) => r.(task := text.value));
      }
    }

    /** `update(todo_id)`: reads `done`, then writes its negation back. */
    method Update(id: int)
      requires Valid()
      modifies this, g
      ensures Valid()
      ensures todos == ToggleDone(old(todos), id)
      ensures g.AcquiredFrom(old(g.db), old(g.connects), old(g.closed))
    {
      var _ := g.GetDb();
      var row := Select(todos, id);
      if row.Some? {
        var newStatus := !row.value.done;
        todos := UpdateWhere(todos, id, (r: Todo) => r.(done := newStatus));
      }
    }

    /** `delete(todo_id)`. */
    method Delete(id: int)
      requires Valid()
      modifies this, g
      ensures Valid()
      ensures todos == DeleteWhere(old(todos), id)
      ensures g.AcquiredFrom(old(g.db), old(g.connects), old(g.closed))
    {
      var _ := g.GetDb();
      todos := DeleteWhere(todos, id);
    }

    /** One request: its route runs, then the app-context teardown runs
        `close_db`. The request opens at most one connection and leaves none
        open. */
    method Handle(req: Request)
      requires Valid()
      modifies this, g
      ensures Valid() && g.Released()
      ensures todos == Effect(old(todos), req)
      ensures g.connects <= old(g.connects) + 1
    {
      match req {
        case GetIndex =>
          var _ := Index();
        case PostAdd(task) =>
          var _ := Add(task);
        case PostEdit(id, task) =>
          Edit(id, task);
        case GetUpdate(id) =>
          Update(id);
        case GetDelete(id) =>
          Delete(id);
      }
      g.CloseDb();
    }
  }

  /** `test_add_task`: posting a task stores it, not done, under a new id;
      posting a blank task stores nothing. */
  method AddTaskScenario(app: App)
    requires app.Valid() && app.todos.lastId < MaxRowId
    modifies app, app.g
  {
    TextIsKept("Test Task");
    var before := app.todos;
    var resp := app.Add(Some("Test Task"));
    var id := app.todos.lastId;
    assert resp == Redirect && id !in before.rows && app.todos.rows[id] == Todo("Test Task", false);
    var afterAdd := app.todos;
    assert AllSpace(" \t ") by {
      var blank := " \t ";
      assert IsSpace(blank[0]) && IsSpace(blank[1]) && IsSpace(blank[2]);
    }
    resp := app.Add(Some(" \t "));
    assert app.todos == afterAdd;
  }

  /** `test_edit_task`: posting new text for an existing row replaces its task. */
  method EditTaskScenario(app: App, id: int)
    requires app.Valid() && id in app.todos.rows
    modifies app, app.g
  {
    TextIsKept("Updated Task");
    var done := app.todos.rows[id].done;
    app.Edit(id, Some("Updated Task"));
    assert app.todos.rows[id] == Todo("Updated Task", done);
  }

  /** `test_update_toggle_done`: a row added as not done is done after one
      toggle, and not done again after a second. */
  method ToggleScenario(app: App, id: int)
    requires app.Valid() && id in app.todos.rows && !app.todos.rows[id].done
    modifies app, app.g
  {
    var task := app.todos.rows[id].task;
    app.Update(id);
    assert app.todos.rows[id] == Todo(task, true);
    app.Update(id);
    assert app.todos.rows[id] == Todo(task, false);
  }

  /** `test_delete_task`: the row is gone, and deleting it again changes nothing. */
  method DeleteScenario(app: App, id: int)
    requires app.Valid() && id in app.todos.rows
    modifies app, app.g
  {
    app.Delete(id);
    assert id !in app.todos.rows;
    var afterDelete := app.todos;
    app.Delete(id);
    assert app.todos == afterDelete;
  }

  /** A text with no whitespace at its ends is stored as it is. */
  lemma TextIsKept(text: string)
    requires text != [] && Trimmed(text)
    ensures !AllSpace(text) && Strip(text) == text
  {
  }
}

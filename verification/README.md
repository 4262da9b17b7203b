# Todo list and blog: a verified model of the two Flask applications

The repository holds two small Flask applications, each backed by one SQLite table.

- **Todo list** (`stqa/app.py`). It has a `todos(id, task, done)` table and five routes:
  - `GET /` lists the rows.
  - `POST /add` adds a task.
  - `POST /edit/<id>` replaces a task's text.
  - `GET /update/<id>` toggles `done`.
  - `GET /delete/<id>` removes a row.

  Each request reaches the database through `get_db()`. That function fills the
  request's `g.db` slot on first use and reuses the handle afterwards. The
  app-context teardown `close_db()` then pops the slot and closes the handle.
- **Blog** (`blog_app/app.py`). It has a `posts(id, title, content)` table. `init_db()`
  creates the table if it is absent. There are four routes: list newest first, show
  one post, add, and delete.

The model turns each SQL statement into an operation on an abstract table: a map
from id to row, plus the AUTOINCREMENT counter. Each route becomes a method that
follows the route statement by statement. Each method is proved to leave the table
as a function of the old table (`AddTask`, `EditTask`, `ToggleDone`, `DeleteWhere`,
`Effect`), and those functions' properties are proved as lemmas.

Modules:

- `Wrappers` (`wrappers.dfy`): `Option`. It models an absent form field and a missing row.
- `Http` (`http.dfy`): the outcome of a route. The outcomes are a redirect, a 400 for a
  missing required form field, and a server error when an SQL statement raises.
- `PyStr` (`pystr.dfy`): Python's `str.isspace` and `str.strip()`, and the test
  `field and field.strip()` that both todo routes apply to the form field `task`.
  `IsSpace` is the exact character set Python treats as whitespace.
- `RowTable` (`rowtable.dfy`): a SQLite table whose `id INTEGER PRIMARY KEY
  AUTOINCREMENT` column is the rowid. It covers INSERT, SELECT/UPDATE/DELETE
  `WHERE id = ?`, and `ORDER BY id [DESC]`. Both applications share it.
  - A new row gets the id one above the largest id ever handed out.
  - Deleted ids are never reused.
  - Once the counter reaches 2^63 - 1, an INSERT fails with SQLITE_FULL.
- `ConnectionScope` (`scope.dfy`): class `Scope`, the `g` object and its `db` slot, with
  `GetDb` (`get_db`) and `CloseDb` (`close_db`). Handles are numbered in the order
  they are opened. The class invariant says three things:
  - no handle is closed twice;
  - the handle in the slot is open;
  - every handle ever opened is either in the slot or closed.
- `TodoApp` (`todo.dfy`): the route effects as functions (`AddTask`, `EditTask`,
  `ToggleDone`, `Effect`, `Run`) and class `App`, whose methods are the routes.
  The methods `AddTaskScenario`, `EditTaskScenario`, `ToggleScenario` and
  `DeleteScenario` replay the four tests of `stqa/whitebox.py` through the `App`
  contracts.
- `BlogApp` (`blog.dfy`): class `Blog`, whose constructor runs `init_db()` as the
  module import does. Its methods are the four routes. `AddThenRead` shows what the
  contracts give a client: the new post's id, its lookup, and its place at the head
  of the index.

Three points about the code shape the model:

- The todo app has no route that reads a single item. `edit` and `update` read one
  row internally, before they write it.
- The schema (`task TEXT NOT NULL`) does not force tasks to be non-blank or stripped.
  Rows inserted directly, as the white-box tests and the seeding script do, need not
  be. The model therefore does not assume this property of the stored table.
  `TasksWellFormed` is proved to be preserved by every route and by any sequence of
  requests (`RunKeepsInvariants`).
- `add` calls `get_db()` only when the text is not blank. A blank add opens no
  connection. `App.Add` states this.

## Model

| member | source | states |
|---|---|---|
| `PyStr.Strip` | stqa/app.py:74 | `s.strip()` has no whitespace at either end, is no longer than `s`, and is empty exactly when `s` is all whitespace |
| `PyStr.StripSplit` | stqa/app.py:78 | `s` is its stripped text with only whitespace before it and only whitespace after it |
| `PyStr.StripUnique` | stqa/app.py:78 | whenever `s` is whitespace, then a trimmed text `m`, then whitespace, `s.strip()` is exactly `m`, so strip is fully determined |
| `PyStr.StripIdempotent` | stqa/app.py:103 | stripping an already stripped text changes nothing |
| `PyStr.StrippedField` | stqa/app.py:72-74 | the form test yields no text exactly when the field is absent or all whitespace (empty included), and otherwise yields the stripped text, which is non-empty and trimmed |
| `RowTable.Create` | blog_app/app.py:10-13 | a newly created table is empty, satisfies the AUTOINCREMENT invariant and has handed out no id, so its first INSERT succeeds with id 1 |
| `RowTable.Insert` | blog_app/app.py:11-13 | INSERT succeeds exactly when the counter is below 2^63 - 1; the new row gets an id above every id handed out before and every live id, nothing else changes, and the invariant is kept |
| `RowTable.Select` | blog_app/app.py:32-33 | `SELECT ... WHERE id = ?` then `fetchone()` finds a row exactly when that id is stored, and then it is the stored row |
| `RowTable.UpdateWhere` | stqa/app.py:101-104 | UPDATE ... WHERE id = ? rewrites only the row with that id, if it exists; the set of ids, the counter and every other row stay |
| `RowTable.DeleteWhere` | stqa/app.py:133 | DELETE ... WHERE id = ? removes exactly that id, if present; other rows and the counter stay, so the id is not handed out again |
| `RowTable.DeleteTwice` | stqa/app.py:133 | deleting the same id twice gives the same table as deleting it once |
| `RowTable.OrderById` | stqa/app.py:63 | `ORDER BY id` lists every row exactly once, and nothing else, in strictly ascending id order |
| `RowTable.OrderByIdDesc` | blog_app/app.py:23 | `ORDER BY id DESC` lists every row exactly once, and nothing else, in strictly descending id order |
| `RowTable.InsertListedLast` | stqa/app.py:76-79 | after an INSERT, the ascending listing is the old listing followed by the new row |
| `RowTable.InsertListedFirst` | blog_app/app.py:43 | after an INSERT, the descending listing is the new row followed by the old listing |
| `ConnectionScope.Scope.constructor` | stqa/app.py:26-34 | a fresh `g` has an empty slot, has opened nothing and holds no open handle |
| `ConnectionScope.Scope.GetDb` | stqa/app.py:17-24 | an empty slot gets a newly opened handle; a full slot keeps its handle and opens nothing; the handle returned is the one in the slot, it is open, and nothing is closed |
| `ConnectionScope.Scope.CloseDb` | stqa/app.py:32-34 | the slot is emptied; exactly the handle it held, if any, is closed; an empty slot closes nothing; afterwards every handle opened is closed and none twice |
| `TodoApp.AddTask` | stqa/app.py:72-80 | a missing, empty or whitespace-only task leaves the table unchanged; otherwise exactly one row is added, under a never-used id, with the stripped text and `done = false`, unless the id space is exhausted; the well-formed-task invariant is kept |
| `TodoApp.EditTask` | stqa/app.py:91-106 | a missing id, or a missing or blank task, changes nothing; otherwise only that row's task becomes the stripped text; its `done`, the other rows, the ids and the counter stay |
| `TodoApp.ToggleDone` | stqa/app.py:117-124 | an existing row's `done` is negated and its task kept; other rows, the ids and the counter stay; a missing id changes nothing |
| `TodoApp.ToggleTwice` | stqa/app.py:119-124 | toggling the same id twice restores the table |
| `TodoApp.AddedTaskListedLast` | stqa/app.py:63-80 | after a non-blank add, the index lists the old rows in their order, then the new row with the stripped text, not done |
| `TodoApp.Effect` | stqa/app.py:56-135 | every route keeps the AUTOINCREMENT invariant and the well-formed-task invariant, never lowers the counter, and any row it adds has an id above the old counter |
| `TodoApp.RunKeepsInvariants` | stqa/app.py:67-135 | over any sequence of requests, stored tasks stay non-blank and stripped, the counter never decreases, and an id that was not in use and not above the counter never reappears |
| `TodoApp.App.constructor` | stqa/app.py:6-8 | the application starts over the stored table with a fresh, empty `g` |
| `TodoApp.App.Index` | stqa/app.py:61-65 | obtains the connection as `get_db` does and returns every row exactly once, ascending by id |
| `TodoApp.App.Add` | stqa/app.py:72-82 | the table becomes `AddTask` of the old one, or stays as it was with a server error when the INSERT fails; a connection is requested only for non-blank text |
| `TodoApp.App.Edit` | stqa/app.py:91-106 | obtains the connection, checks the id exists, and leaves the table equal to `EditTask` of the old one |
| `TodoApp.App.Update` | stqa/app.py:117-125 | obtains the connection, reads `done`, writes its negation; the table equals `ToggleDone` of the old one |
| `TodoApp.App.Delete` | stqa/app.py:132-135 | obtains the connection; the table equals `DeleteWhere` of the old one |
| `TodoApp.App.Handle` | stqa/app.py:26-34 | one request runs its route and then the teardown; the table changes as `Effect` says, at most one handle is opened, and none is left open |
| `BlogApp.Blog.constructor` | blog_app/app.py:17 | importing the application leaves an existing table untouched and otherwise creates an empty one |
| `BlogApp.Blog.InitDb` | blog_app/app.py:7-15 | CREATE TABLE IF NOT EXISTS creates an empty table only when there is none and leaves an existing one unchanged, rows and counter included |
| `BlogApp.Blog.Index` | blog_app/app.py:20-26 | returns every post exactly once, newest (highest id) first |
| `BlogApp.Blog.GetPost` | blog_app/app.py:29-35 | returns the post with that id exactly when it exists, and nothing otherwise |
| `BlogApp.Blog.Add` | blog_app/app.py:38-46 | a missing title or content is a 400 and writes nothing; otherwise exactly one post is inserted with both values verbatim, without trimming or a blank check, or the request fails when ids are exhausted |
| `BlogApp.Blog.Delete` | blog_app/app.py:49-55 | the post with that id is removed; the other posts and the counter stay; an absent id changes nothing |

## Left out

- Flask plumbing is not modelled: routing decorators, `render_template`, `redirect`/`url_for` and the redirect targets. Routes return an `Http.Response` or the listed rows.
- The GET branch of `edit` (stqa/app.py:109) is not modelled. It only renders the edit form after the same existence check. `App.Edit` models the POST branch.
- SQLite internals are abstracted: the file, `detect_types`, `row_factory`, commit durability, and the statements themselves. The model keeps their effect on rows and on the AUTOINCREMENT counter.
- `done` is modelled as `bool`. SQLite stores 0/1, and `not todo['done']` is applied to that integer. Values other than 0/1, which only a direct write could store, are not modelled.
- BlogApp.Blog.GetPost: an id of 2^63 or more is treated as absent and gives no post. The `<int:post_id>` converter accepts any unsigned decimal, and `sqlite3` raises `OverflowError` when it binds such an id, so the source answers with a server error (blog_app/app.py:32).
- BlogApp.Blog.Delete: an id of 2^63 or more is a no-op in the model; the source fails with `OverflowError` when binding it (blog_app/app.py:52).
- TodoApp.App.Edit: an id of 2^63 or more is treated as absent (a redirect, no change); the source fails with `OverflowError` at the SELECT (stqa/app.py:92). The table is unchanged either way.
- TodoApp.App.Update: as for `Edit`, an id of 2^63 or more is a no-op in the model and an `OverflowError` in the source (stqa/app.py:119).
- TodoApp.App.Delete: as for `Edit`, an id of 2^63 or more is a no-op in the model and an `OverflowError` in the source (stqa/app.py:133).
- TodoApp.App.Handle: ids are `int`. A negative id, which the `<int:...>` converter rejects with a 404 before the view runs, still reaches the route in the model and opens a connection there; its effect on the table is none, as in the source.
- SQL failures other than SQLITE_FULL (a locked or unreadable database, disk errors) are not modelled. Neither is the todo table being absent.
- ConnectionScope.Scope.GetDb: `sqlite3.connect` always succeeds in the model. A failure to open, which would propagate to the request boundary, is not modelled.
- `init_db` of the todo app, which runs `schema.sql` (not part of this model), and the `init-db` CLI command are left out. So are the `__main__` blocks. The todo `App` starts from any well-formed table.
- `stqa/db.py` (a seeding script), `stqa/seleniumtest.py` (browser automation) and `stqa/whitebox.py` are not modelled. The white-box tests are restated as the client methods named above.
- The blog opens and closes a connection inside every route. That per-request connect/close is not modelled, as it has no effect on the table.
- Concurrency between requests is left out: requests run one after the other. This covers last-writer-wins and SQLite's locking.
- `Strip` works on Unicode code points, as Python's `str` does. No normalisation or encoding is involved.

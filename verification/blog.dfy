/** The blog application: a `posts(id, title, content)` table created on
    import if absent, and four routes over it. */
module BlogApp {
  import opened Wrappers
  import opened Http
  import opened RowTable

  /** A row of `posts`, less its id. */
  datatype Post = Post(title: string, content: string)

  class Blog {
    /** The `posts` table of `blog.db`; `None` while the table does not exist. */
    var posts: Option<Table<Post>>

    /** Whatever `blog.db` holds is a well-formed table, if the table exists. */
    ghost predicate Stored()
      reads this
    {
      posts.Some? ==> RowTable.Valid(posts.value)
    }

    /** The table exists and is well formed. */
    ghost predicate Valid()
      reads this
    {
      posts.Some? && RowTable.Valid(posts.value)
    }

    /** Importing the application: `init_db()` runs once against whatever
        `blog.db` already holds. */
    constructor (stored: Option<Table<Post>>)
      requires stored.Some? ==> RowTable.Valid(stored.value)
      ensures Valid()
      ensures stored.Some? ==> posts == stored
      ensures stored.None? ==> posts == Some(Create())
    {
      posts := stored;
      new;
      InitDb();
    }

    /** `init_db()`: `CREATE TABLE IF NOT EXISTS` creates an empty table when
        there is none and leaves an existing one, rows and counter, alone. */
    method InitDb()
      requires Stored()
      modifies this
      ensures Valid()
      ensures old(posts).Some? ==> posts == old(posts)
      ensures old(posts).None? ==> posts == Some(Create())
    {
      if posts.None? {
        posts := Some(Create());
      }
    }

    /** `index()`: every post, newest (highest id) first. */
    method Index() returns (rows: seq<(int, Post)>)
      requires Valid()
      ensures rows == OrderByIdDesc(posts.value)
      ensures ListsExactly(posts.value.rows, rows) && IdsDescending(rows)
    {
      rows := OrderByIdDesc(posts.value);
    }

    /** `post(post_id)`: the row with that id, or nothing when there is none. */
    method GetPost(id: int) returns (row: Option<(int, Post)>)
      requires Valid()
      ensures row.Some? <==> id in posts.value.rows
      ensures row.Some? ==> row.value == (id, posts.value.rows[id])
    {
      var found := Select(posts.value, id);
      if found.Some? {
        row := Some((id, found.value));
      } else {
        row := None;
      }
    }

    /** `add()`: both form fields are required (a missing one is a 400 and
        nothing is written); their values are stored verbatim, without
        trimming or a blank check, in one new row. */
    method Add(title: Option<string>, content: Option<string>) returns (resp: Response)
      requires Valid()
      modifies this
      ensures Valid()
      ensures title.None? || content.None? ==> resp == BadRequest && posts == old(posts)
      ensures title.Some? && content.Some? ==>
        var inserted := Insert(old(posts).value, Post(title.value, content.value));
        && posts == Some(inserted.GetOr(old(posts).value))
        && resp == if inserted.Some? then Redirect else ServerError
    {
      if title.None? || content.None? {
        return BadRequest;
      }
      var inserted := Insert(posts.value, Post(title.value, content.value));
      if inserted.Some? {
        posts := inserted;
        resp := Redirect;
      } else {
        resp := ServerError;
      }
    }

    /** `delete(post_id)`. */
    method Delete(id: int)
      requires Valid()
      modifies this
      ensures Valid()
      ensures posts == Some(DeleteWhere(old(posts).value, id))
    {
      posts := Some(DeleteWhere(posts.value, id));
    }
  }

  /** A post added through `add()` gets an id above every id handed out before,
      is what `post(id)` then returns, and heads the index page, ahead of the
      earlier posts in their old order. */
  method AddThenRead(blog: Blog, title: string, content: string)
    requires blog.Valid() && blog.posts.value.lastId < MaxRowId
    modifies blog
  {
    var before := blog.posts.value;
    var listedBefore := blog.Index();
    var resp := blog.Add(Some(title), Some(content));
    assert resp == Redirect;
    var id := blog.posts.value.lastId;
    assert before.lastId < id && forall k :: k in before.rows ==> k < id;
    var row := blog.GetPost(id);
    assert row == Some((id, Post(title, content)));
    var listed := blog.Index();
    InsertListedFirst(before, Post(title, content));
    assert listed == [(id, Post(title, content))] + listedBefore;
  }
}

/** The request-scoped connection slot of the todo application: `get_db`
    fills the optional `db` attribute of the per-request `g` object on first
    use and hands back the same handle afterwards; `close_db`, registered as
    the app-context teardown, pops the slot and closes what it held. */
module ConnectionScope {
  import opened Wrappers

  /** A database handle, identified by the order in which `sqlite3.connect`
      opened it. */
  datatype Connection = Connection(serial: nat)

  class Scope {
    /** The `g.db` slot. */
    var db: Option<Connection>
    /** How many handles `sqlite3.connect` has opened so far. */
    var connects: nat
    /** The handles closed so far, in closing order. */
    var closed: seq<Connection>

    /** No handle is closed twice, the handle in the slot is still open, and
        every handle ever opened is either in the slot or closed. */
    ghost predicate Valid()
      reads this
    {
      && (forall i, j :: 0 <= i < j < |closed| ==> closed[i] != closed[j])
      && (forall i :: 0 <= i < |closed| ==> closed[i].serial < connects)
      && (db.Some? ==> db.value.serial < connects && db.value !in closed)
      && (forall c: Connection :: c.serial < connects ==> c in closed || db == Some(c))
    }

    /** No handle outlives the scope: the slot is empty and everything opened is closed. */
    ghost predicate Released()
      reads this
    {
      db.None? && forall c: Connection :: c.serial < connects ==> c in closed
    }

    /** What one `get_db()` call does to the slot, given the slot, the count of
        opened handles and the closed handles before the call: an empty slot
        gets a newly opened handle, a full one is kept, nothing is closed. */
    ghost predicate AcquiredFrom(db0: Option<Connection>, connects0: nat, closed0: seq<Connection>)
      reads this
    {
      && closed == closed0
      && (db0.Some? ==> db == db0 && connects == connects0)
      && (db0.None? ==> db == Some(Connection(connects0)) && connects == connects0 + 1)
    }

    /** A fresh `g`: empty slot, nothing opened yet. */
    constructor ()
      ensures Valid() && Released()
      ensures db == None && connects == 0 && closed == []
    {
      db := None;
      connects := 0;
      closed := [];
    }

    /** `get_db()`: opens a handle only when the slot is empty, and returns
        the handle the slot holds. */
    method GetDb() returns (c: Connection)
      requires Valid()
      modifies this
      ensures Valid()
      ensures AcquiredFrom(old(db), old(connects), old(closed))
      ensures db == Some(c) && c !in closed
    {
      if db.None? {
        db := Some(Connection(connects));
        connects := connects + 1;
      }
      c := db.value;
    }

    /** `close_db()`: pops the slot and closes the handle it held, if any;
        on an empty slot it does nothing. */
    method CloseDb()
      requires Valid()
      modifies this
      ensures Valid() && Released()
      ensures connects == old(connects)
      ensures closed == old(closed) + (if old(db).Some? then [old(db).value] else [])
    {
      var handle := db;
      db := None;
      if handle.Some? {
        closed := closed + [handle.value];
      }
    }
  }

  /** Within one scope, a second `get_db()` returns the handle the first one
      returned and opens nothing; `close_db()` then closes exactly that handle,
      and a second `close_db()` closes nothing more. */
  method ScopeLifecycle()
  {
    var g := new Scope();
    var first := g.GetDb();
    var second := g.GetDb();
    assert first == second && g.connects == 1;
    g.CloseDb();
    assert g.closed == [first];
    g.CloseDb();
    assert g.closed == [first] && g.Released();
  }
}

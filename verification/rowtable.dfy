/** A SQLite table whose `id INTEGER PRIMARY KEY AUTOINCREMENT` column is the
    rowid, with the single-row statements both applications issue:
    INSERT, UPDATE ... WHERE id = ?, DELETE ... WHERE id = ?, SELECT ... WHERE id = ?
    and SELECT ... ORDER BY id [DESC]. */
module RowTable {
  import opened Wrappers

  /** The largest rowid SQLite can hand out (2^63 - 1). */
  const MaxRowId: int := 0x7FFF_FFFF_FFFF_FFFF

  /** `rows` maps each id to the rest of its row; `lastId` is the table's
      `sqlite_sequence` entry, the largest id ever handed out (0 for a new table). */
  datatype Table<V> = Table(rows: map<int, V>, lastId: int)

  /** What AUTOINCREMENT maintains: the counter is in range and no live row
      has an id above it. */
  ghost predicate Valid<V>(t: Table<V>)
  {
    && 0 <= t.lastId <= MaxRowId
    && forall id :: id in t.rows ==> 1 <= id <= t.lastId
  }

  /** `CREATE TABLE`: no rows, nothing handed out yet. */
  function Create<V>(): (t: Table<V>)
    ensures Valid(t) && t.rows == map[] && t.lastId == 0
  {
    Table(map[], 0)
  }

  /** `INSERT`: the new row takes the id one above the largest ever handed out;
      once that is MaxRowId, the statement fails with SQLITE_FULL and the table
      is left as it was. */
  function Insert<V>(t: Table<V>, v: V): (r: Option<Table<V>>)
    requires Valid(t)
    ensures r.Some? <==> t.lastId < MaxRowId
    ensures r.Some? ==>
      && Valid(r.value)
      && t.lastId < r.value.lastId
      && (forall id :: id in t.rows ==> id < r.value.lastId)
      && r.value.rows == t.rows[r.value.lastId := v]
  {
    if t.lastId < MaxRowId then Some(Table(t.rows[t.lastId + 1 := v], t.lastId + 1)) else None
  }

  /** `SELECT ... WHERE id = ?` followed by `fetchone()`. */
  function Select<V>(t: Table<V>, id: int): (r: Option<V>)
    ensures r.Some? <==> id in t.rows
    ensures r.Some? ==> r.value == t.rows[id]
  {
    if id in t.rows then Some(t.rows[id]) else None
  }

  /** `UPDATE ... SET ... WHERE id = ?`: `f` rewrites the matching row, if any;
      no other row and not the counter change. */
  function UpdateWhere<V>(t: Table<V>, id: int, f: V -> V): (r: Table<V>)
    ensures Valid(t) ==> Valid(r)
    ensures r.lastId == t.lastId && r.rows.Keys == t.rows.Keys
    ensures id in t.rows ==> r.rows[id] == f(t.rows[id])
    ensures forall k :: k in t.rows && k != id ==> r.rows[k] == t.rows[k]
  {
    if id in t.rows then t.(rows := t.rows[id := f(t.rows[id])]) else t
  }

  /** `DELETE ... WHERE id = ?`: the row with that id, if any, is gone; the
      others and the counter stay, so a deleted id is never handed out again. */
  function DeleteWhere<V>(t: Table<V>, id: int): (r: Table<V>)
    ensures Valid(t) ==> Valid(r)
    ensures r.lastId == t.lastId && r.rows.Keys == t.rows.Keys - {id}
    ensures forall k :: k in r.rows ==> r.rows[k] == t.rows[k]
  {
    t.(rows := t.rows - {id})
  }

  /** Deleting an id a second time changes nothing. */
  lemma DeleteTwice<V>(t: Table<V>, id: int)
    ensures DeleteWhere(DeleteWhere(t, id), id) == DeleteWhere(t, id)
  {
  }

  /** `r` holds every row of `rows`, and nothing else. */
  ghost predicate ListsExactly<V>(rows: map<int, V>, r: seq<(int, V)>)
  {
    && (forall i :: 0 <= i < |r| ==> r[i].0 in rows && rows[r[i].0] == r[i].1)
    && (forall k :: k in rows ==> (k, rows[k]) in r)
  }

  ghost predicate IdsAscending<V>(r: seq<(int, V)>)
  {
    forall i, j :: 0 <= i < j < |r| ==> r[i].0 < r[j].0
  }

  ghost predicate IdsDescending<V>(r: seq<(int, V)>)
  {
    forall i, j :: 0 <= i < j < |r| ==> r[i].0 > r[j].0
  }

  /** The rows with ids in [lo, hi], lowest id first. */
  function Ascending<V>(rows: map<int, V>, lo: int, hi: int): (r: seq<(int, V)>)
    ensures forall i :: 0 <= i < |r| ==> lo <= r[i].0 <= hi && r[i].0 in rows && rows[r[i].0] == r[i].1
    ensures IdsAscending(r)
    decreases hi - lo
  {
    if lo > hi then []
    else (if lo in rows then [(lo, rows[lo])] else []) + Ascending(rows, lo + 1, hi)
  }

  /** The rows with ids in [lo, hi], highest id first. */
  function Descending<V>(rows: map<int, V>, lo: int, hi: int): (r: seq<(int, V)>)
    ensures forall i :: 0 <= i < |r| ==> lo <= r[i].0 <= hi && r[i].0 in rows && rows[r[i].0] == r[i].1
    ensures IdsDescending(r)
    decreases hi - lo
  {
    if lo > hi then []
    else (if hi in rows then [(hi, rows[hi])] else []) + Descending(rows, lo, hi - 1)
  }

  /** Every row with an id in [lo, hi] appears in the ascending listing. */
  lemma {:induction false} AscendingHas<V>(rows: map<int, V>, lo: int, hi: int, k: int) returns (i: nat)
    requires lo <= k <= hi && k in rows
    ensures i < |Ascending(rows, lo, hi)| && Ascending(rows, lo, hi)[i] == (k, rows[k])
    decreases hi - lo
  {
    if k == lo {
      i := 0;
    } else {
      var j := AscendingHas(rows, lo + 1, hi, k);
      i := if lo in rows then j + 1 else j;
    }
  }

  lemma AscendingComplete<V>(rows: map<int, V>, lo: int, hi: int)
    ensures forall k :: lo <= k <= hi && k in rows ==> (k, rows[k]) in Ascending(rows, lo, hi)
  {
    forall k | lo <= k <= hi && k in rows
      ensures (k, rows[k]) in Ascending(rows, lo, hi)
    {
      var i := AscendingHas(rows, lo, hi, k);
    }
  }

  /** Every row with an id in [lo, hi] appears in the descending listing. */
  lemma {:induction false} DescendingHas<V>(rows: map<int, V>, lo: int, hi: int, k: int) returns (i: nat)
    requires lo <= k <= hi && k in rows
    ensures i < |Descending(rows, lo, hi)| && Descending(rows, lo, hi)[i] == (k, rows[k])
    decreases hi - lo
  {
    if k == hi {
      i := 0;
    } else {
      var j := DescendingHas(rows, lo, hi - 1, k);
      i := if hi in rows then j + 1 else j;
    }
  }

  lemma DescendingComplete<V>(rows: map<int, V>, lo: int, hi: int)
    ensures forall k :: lo <= k <= hi && k in rows ==> (k, rows[k]) in Descending(rows, lo, hi)
  {
    forall k | lo <= k <= hi && k in rows
      ensures (k, rows[k]) in Descending(rows, lo, hi)
    {
      var i := DescendingHas(rows, lo, hi, k);
    }
  }

  /** `SELECT * ... ORDER BY id`: every row exactly once, ids strictly ascending. */
  function OrderById<V>(t: Table<V>): (r: seq<(int, V)>)
    requires Valid(t)
    ensures ListsExactly(t.rows, r) && IdsAscending(r)
  {
    AscendingComplete(t.rows, 1, t.lastId);
    Ascending(t.rows, 1, t.lastId)
  }

  /** `SELECT * ... ORDER BY id DESC`: every row exactly once, ids strictly descending. */
  function OrderByIdDesc<V>(t: Table<V>): (r: seq<(int, V)>)
    requires Valid(t)
    ensures ListsExactly(t.rows, r) && IdsDescending(r)
  {
    DescendingComplete(t.rows, 1, t.lastId);
    Descending(t.rows, 1, t.lastId)
  }

  /** Rows whose ids lie outside [lo, hi] do not affect the ascending listing. */
  lemma {:induction false} AscendingIgnoresOutside<V>(rows: map<int, V>, id: int, v: V, lo: int, hi: int)
    requires id < lo || hi < id
    ensures Ascending(rows[id := v], lo, hi) == Ascending(rows, lo, hi)
    decreases hi - lo
  {
    if lo <= hi {
      AscendingIgnoresOutside(rows, id, v, lo + 1, hi);
    }
  }

  /** Extending the range by one id at the top appends that row, if present. */
  lemma {:induction false} AscendingExtend<V>(rows: map<int, V>, lo: int, hi: int)
    requires lo <= hi + 1
    ensures Ascending(rows, lo, hi + 1) ==
      Ascending(rows, lo, hi) + (if hi + 1 in rows then [(hi + 1, rows[hi + 1])] else [])
    decreases hi - lo
  {
    var top := if hi + 1 in rows then [(hi + 1, rows[hi + 1])] else [];
    if lo <= hi {
      var head := if lo in rows then [(lo, rows[lo])] else [];
      AscendingExtend(rows, lo + 1, hi);
      calc {
        Ascending(rows, lo, hi + 1);
        head + Ascending(rows, lo + 1, hi + 1);
        head + (Ascending(rows, lo + 1, hi) + top);
        { assert head + (Ascending(rows, lo + 1, hi) + top) == (head + Ascending(rows, lo + 1, hi)) + top; }
        (head + Ascending(rows, lo + 1, hi)) + top;
        Ascending(rows, lo, hi) + top;
      }
    } else {
      assert Ascending(rows, lo, hi + 1) == top + [];
    }
  }

  /** Rows whose ids lie outside [lo, hi] do not affect the descending listing. */
  lemma {:induction false} DescendingIgnoresOutside<V>(rows: map<int, V>, id: int, v: V, lo: int, hi: int)
    requires id < lo || hi < id
    ensures Descending(rows[id := v], lo, hi) == Descending(rows, lo, hi)
    decreases hi - lo
  {
    if lo <= hi {
      DescendingIgnoresOutside(rows, id, v, lo, hi - 1);
    }
  }

  /** A freshly inserted row is listed last by `ORDER BY id`, after the
      rows that were there before, which keep their order. */
  lemma InsertListedLast<V>(t: Table<V>, v: V)
    requires Valid(t) && t.lastId < MaxRowId
    ensures var t' := Insert(t, v).value;
      OrderById(t') == OrderById(t) + [(t'.lastId, v)]
  {
    var t' := Insert(t, v).value;
    var n := t'.lastId;
    AscendingExtend(t'.rows, 1, n - 1);
    AscendingIgnoresOutside(t.rows, n, v, 1, n - 1);
  }

  /** A freshly inserted row is listed first by `ORDER BY id DESC`, before the
      rows that were there before, which keep their order. */
  lemma InsertListedFirst<V>(t: Table<V>, v: V)
    requires Valid(t) && t.lastId < MaxRowId
    ensures var t' := Insert(t, v).value;
      OrderByIdDesc(t') == [(t'.lastId, v)] + OrderByIdDesc(t)
  {
    var t' := Insert(t, v).value;
    var n := t'.lastId;
    DescendingIgnoresOutside(t.rows, n, v, 1, n - 1);
  }
}

/** The relational store of `daily_tasks/repository/sqlite_task_repository.py`.

    The database is the one table `tasks(id INTEGER PRIMARY KEY, title, description,
    completed)`, modelled as its rows in ascending id order, the order in which a
    rowid table is scanned. Every call opens its own connection and commits before
    it returns, so each call is one transition of the table. */
module SqliteStore {
  import opened Wrappers
  import opened Models
  import opened TaskRepository

  datatype Row = Row(id: int, title: string, description: string, completed: bool)

  datatype Table = Table(rows: seq<Row>)

  /** Rowids are unique and rows come back in rowid order. */
  predicate Valid(t: Table)
  {
    Ascending(t.rows)
  }

  predicate Ascending(rows: seq<Row>)
  {
    forall i, j :: 0 <= i < j < |rows| ==> rows[i].id < rows[j].id
  }

  function RowIds(rows: seq<Row>): set<int>
  {
    set r | r in rows :: r.id
  }

  /** A selected row as the `Task` the store builds from it. */
  function ToTask(row: Row): (t: Task)
    ensures t.id == Some(row.id)
    ensures t.title == row.title && t.description == row.description && t.completed == row.completed
  {
    Task(Some(row.id), row.title, row.description, row.completed)
  }

  /** `_initialize_db`: `CREATE TABLE IF NOT EXISTS`, so an existing table and its
      rows are kept and a missing one starts empty. `existing` is the table already
      in the database file, if any. */
  function Initialize(existing: Option<Table>): (t: Table)
    ensures existing.Some? ==> t == existing.value
    ensures existing.None? ==> t.rows == []
  {
    if existing.Some? then existing.value else Table([])
  }

  /** The constructor: the base checks, then the SQLite settings are read (the
      source fails with an attribute lookup on a missing value, not a
      `ValueError`), then the table is initialised. */
  function Open(settings: Option<Settings>, preferences: Option<Preferences>,
                existing: Option<Table>): (r: Result<Table, Error>)
    ensures CheckConfig(settings, preferences).Err? ==> r == Err(CheckConfig(settings, preferences).error)
    ensures CheckConfig(settings, preferences).Ok? && settings.value.sqliteSettings.None? ==>
              r == Err(MissingSqliteSettings)
    ensures r.Ok? <==> CheckConfig(settings, preferences).Ok? && settings.value.sqliteSettings.Some?
    ensures r.Ok? && existing.Some? ==> r.value == existing.value
    ensures r.Ok? && existing.None? ==> r.value.rows == []
  {
    var config :- CheckConfig(settings, preferences);
    if config.settings.sqliteSettings.None? then Err(MissingSqliteSettings)
    else Ok(Initialize(existing))
  }

  /** The largest rowid in use. */
  function MaxId(rows: seq<Row>): (m: int)
    requires |rows| > 0
    ensures m in RowIds(rows)
    ensures forall r :: r in rows ==> r.id <= m
  {
    if |rows| == 1 then rows[0].id
    else
      var rest := MaxId(rows[1..]);
      assert rows == [rows[0]] + rows[1..];
      if rows[0].id >= rest then rows[0].id else rest
  }

  /** The rowid an `INSERT` without an explicit id receives in a table declared
      without AUTOINCREMENT: 1 in an empty table, otherwise one more than the
      largest rowid in use. It is never a rowid in use. */
  function NextRowid(rows: seq<Row>): (id: int)
    ensures id !in RowIds(rows)
    ensures forall r :: r in rows ==> r.id < id
    ensures |rows| == 0 ==> id == 1
    ensures |rows| > 0 ==> id - 1 in RowIds(rows)
  {
    if |rows| == 0 then 1 else MaxId(rows) + 1
  }

  /** The first position holding rowid `id`. */
  function FindRow(rows: seq<Row>, id: int): (r: Option<nat>)
    ensures r.Some? ==> r.value < |rows| && rows[r.value].id == id
    ensures r.Some? ==> forall j :: 0 <= j < r.value ==> rows[j].id != id
    ensures r.None? <==> id !in RowIds(rows)
  {
    if |rows| == 0 then None
    else if rows[0].id == id then Some(0)
    else
      match FindRow(rows[1..], id)
      case None => assert rows == [rows[0]] + rows[1..]; None
      case Some(i) => Some(i + 1)
  }

  /** `create_task`: the row is inserted with the task's title, description and
      completed flag, and the task comes back carrying the engine-assigned id. */
  function Create(t: Table, task: Task): (r: Step<Table, Task>)
    ensures r.result.Ok?
    ensures r.result.value.id == Some(NextRowid(t.rows))
    ensures r.result.value.id.value !in RowIds(t.rows)
    ensures r.result.value == task.(id := r.result.value.id)
    ensures RowIds(r.state.rows) == RowIds(t.rows) + {r.result.value.id.value}
    ensures forall row :: row in t.rows ==> row in r.state.rows
    ensures Valid(t) ==> Valid(r.state)
    ensures List(r.state) == List(t) + [r.result.value]
  {
    var id := NextRowid(t.rows);
    var row := Row(id, task.title, task.description, task.completed);
    var rows := t.rows + [row];
    assert RowIds(rows) == RowIds(t.rows) + {id} by {
      assert forall x :: x in rows <==> x in t.rows || x == row;
    }
    ListAppend(t.rows, row);
    Step(Table(rows), Ok(ToTask(row)))
  }

  /** Appending a row appends its task to the listing. */
  lemma ListAppend(rows: seq<Row>, row: Row)
    ensures List(Table(rows + [row])) == List(Table(rows)) + [ToTask(row)]
  {
    assert forall i :: 0 <= i < |rows| ==> (rows + [row])[i] == rows[i];
  }

  /** `read_task`: `SELECT … WHERE id = ?` and the first row it returns. */
  function Read(t: Table, id: int): (r: Result<Task, Error>)
    ensures r.Ok? <==> id in RowIds(t.rows)
    ensures r.Ok? ==> r.value.id == Some(id) && r.value in List(t)
    ensures r.Err? ==> r.error == NotFound(id)
    ensures Valid(t) ==> forall row :: row in t.rows && row.id == id ==> r == Ok(ToTask(row))
  {
    match FindRow(t.rows, id)
    case None => Err(NotFound(id))
    case Some(i) =>
      assert Valid(t) ==> forall row :: row in t.rows && row.id == id ==> row == t.rows[i];
      assert ToTask(t.rows[i]) == List(t)[i];
      Ok(ToTask(t.rows[i]))
  }

  /** The `SET` of an `UPDATE` on one row: only the supplied columns change. */
  function SetColumns(row: Row, p: Patch): (r: Row)
    ensures ToTask(r) == ApplyPatch(ToTask(row), p)
  {
    Row(row.id,
        if p.title.Some? then p.title.value else row.title,
        if p.description.Some? then p.description.value else row.description,
        if p.completed.Some? then p.completed.value else row.completed)
  }

  /** `UPDATE tasks SET … WHERE id = ?` over the whole table. */
  function UpdateRows(rows: seq<Row>, id: int, p: Patch): (r: seq<Row>)
    ensures |r| == |rows|
    ensures forall i :: 0 <= i < |rows| ==> r[i].id == rows[i].id
    ensures forall i :: 0 <= i < |rows| && rows[i].id != id ==> r[i] == rows[i]
    ensures forall i :: 0 <= i < |rows| && rows[i].id == id ==> r[i] == SetColumns(rows[i], p)
  {
    seq(|rows|, i requires 0 <= i < |rows| => if rows[i].id == id then SetColumns(rows[i], p) else rows[i])
  }

  /** `update_task`: an `UPDATE` of the supplied columns, then a fresh `read_task`.
      With no column supplied the statement has an empty `SET` and is rejected.
      An absent id makes the `UPDATE` match nothing, and the re-read raises. */
  function Update(t: Table, id: int, p: Patch): (r: Step<Table, Task>)
    ensures IsEmptyPatch(p) ==> r == Step(t, Err(MalformedUpdate))
    ensures !IsEmptyPatch(p) && id !in RowIds(t.rows) ==> r == Step(t, Err(NotFound(id)))
    ensures !IsEmptyPatch(p) && id in RowIds(t.rows) && Valid(t) ==>
              r.result == Ok(ApplyPatch(Read(t, id).value, p))
    ensures !IsEmptyPatch(p) ==> r.result == Read(r.state, id)
    ensures RowIds(r.state.rows) == RowIds(t.rows)
    ensures Valid(t) ==> Valid(r.state)
    ensures forall k :: k != id ==> Read(r.state, k) == Read(t, k)
  {
    if IsEmptyPatch(p) then Step(t, Err(MalformedUpdate))
    else
      var updated := Table(UpdateRows(t.rows, id, p));
      UpdateRowsKeepsKeys(t, id, p);
      assert forall k :: k != id ==> Read(updated, k) == Read(t, k) by {
        forall k | k != id ensures Read(updated, k) == Read(t, k) {
          UpdateRowsKeepsOthers(t, id, p, k);
        }
      }
      assert Valid(t) && id in RowIds(t.rows) ==> Read(updated, id) == Ok(ApplyPatch(Read(t, id).value, p)) by {
        if Valid(t) && id in RowIds(t.rows) { UpdateRowsPatches(t, id, p); }
      }
      Step(updated, Read(updated, id))
  }

  /** The `UPDATE` keeps the set of rowids and, with it, the row order. */
  lemma UpdateRowsKeepsKeys(t: Table, id: int, p: Patch)
    ensures RowIds(UpdateRows(t.rows, id, p)) == RowIds(t.rows)
    ensures Valid(t) ==> Valid(Table(UpdateRows(t.rows, id, p)))
    ensures id !in RowIds(t.rows) ==> UpdateRows(t.rows, id, p) == t.rows
  {
    var updated := UpdateRows(t.rows, id, p);
    forall k | k in RowIds(t.rows) ensures k in RowIds(updated) {
      var i :| 0 <= i < |t.rows| && t.rows[i].id == k;
      assert updated[i].id == k;
    }
    forall k | k in RowIds(updated) ensures k in RowIds(t.rows) {
      var i :| 0 <= i < |updated| && updated[i].id == k;
      assert t.rows[i].id == k;
    }
    if id !in RowIds(t.rows) {
      assert forall i :: 0 <= i < |t.rows| ==> t.rows[i].id != id;
    }
  }

  /** The `UPDATE` leaves every row it does not address as it was. */
  lemma UpdateRowsKeepsOthers(t: Table, id: int, p: Patch, k: int)
    requires k != id
    ensures Read(Table(UpdateRows(t.rows, id, p)), k) == Read(t, k)
  {
    var updated := UpdateRows(t.rows, id, p);
    FindRowSameIds(t.rows, updated, k);
    match FindRow(t.rows, k)
    case None =>
    case Some(i) =>
      assert updated[i] == t.rows[i];
  }

  /** Lookup by rowid only looks at the rowids. */
  lemma {:induction false} FindRowSameIds(a: seq<Row>, b: seq<Row>, k: int)
    requires |a| == |b| && forall i :: 0 <= i < |a| ==> a[i].id == b[i].id
    ensures FindRow(a, k) == FindRow(b, k)
  {
    if |a| > 0 {
      FindRowSameIds(a[1..], b[1..], k);
    }
  }

  /** The re-read after the `UPDATE` sees the addressed task with the patch
      applied. */
  lemma UpdateRowsPatches(t: Table, id: int, p: Patch)
    requires Valid(t) && id in RowIds(t.rows)
    ensures Read(Table(UpdateRows(t.rows, id, p)), id) == Ok(ApplyPatch(Read(t, id).value, p))
  {
    var updated := Table(UpdateRows(t.rows, id, p));
    UpdateRowsKeepsKeys(t, id, p);
    var i := FindRow(t.rows, id).value;
    assert updated.rows[i] == SetColumns(t.rows[i], p);
    assert updated.rows[i] in updated.rows;
    assert t.rows[i] in t.rows;
  }

  /** `delete_task`: `DELETE … WHERE id = ?` without looking first, so an absent id
      is a silent no-op. */
  function Delete(t: Table, id: int): (r: Step<Table, ()>)
    ensures r.result.Ok?
    ensures forall row :: row in r.state.rows <==> row in t.rows && row.id != id
    ensures RowIds(r.state.rows) == RowIds(t.rows) - {id}
    ensures id !in RowIds(t.rows) ==> r.state == t
    ensures Valid(t) ==> Valid(r.state)
    ensures Valid(t) && id in RowIds(t.rows) ==> |r.state.rows| == |t.rows| - 1
  {
    assert Valid(t) ==> Valid(Table(DeleteRows(t.rows, id))) by {
      if Valid(t) { DeleteRowsAscending(t.rows, id); }
    }
    assert Valid(t) && id in RowIds(t.rows) ==> |DeleteRows(t.rows, id)| == |t.rows| - 1 by {
      if Valid(t) && id in RowIds(t.rows) { DeleteRowsCount(t.rows, id); }
    }
    Step(Table(DeleteRows(t.rows, id)), Ok(()))
  }

  /** The rows a `DELETE … WHERE id = ?` keeps, in order. */
  function DeleteRows(rows: seq<Row>, id: int): (r: seq<Row>)
    ensures forall row :: row in r <==> row in rows && row.id != id
    ensures id !in RowIds(rows) ==> r == rows
  {
    if |rows| == 0 then []
    else
      assert rows == [rows[0]] + rows[1..];
      var rest := DeleteRows(rows[1..], id);
      if rows[0].id == id then rest else [rows[0]] + rest
  }

  /** A delete keeps the surviving rows in rowid order. */
  lemma {:induction false} DeleteRowsAscending(rows: seq<Row>, id: int)
    requires Ascending(rows)
    ensures Ascending(DeleteRows(rows, id))
  {
    if |rows| > 0 {
      DeleteRowsAscending(rows[1..], id);
      if rows[0].id != id {
        DeleteRowsAbove(rows[1..], id, rows[0].id);
      }
    }
  }

  /** A delete keeps only rows it was given, so a lower bound on their rowids
      survives it. */
  lemma {:induction false} DeleteRowsAbove(rows: seq<Row>, id: int, lo: int)
    requires forall i :: 0 <= i < |rows| ==> lo < rows[i].id
    ensures forall i :: 0 <= i < |DeleteRows(rows, id)| ==> lo < DeleteRows(rows, id)[i].id
  {
    if |rows| > 0 {
      DeleteRowsAbove(rows[1..], id, lo);
    }
  }

  /** In a table with unique rowids a delete of a present id removes one row. */
  lemma {:induction false} DeleteRowsCount(rows: seq<Row>, id: int)
    requires Ascending(rows) && id in RowIds(rows)
    ensures |DeleteRows(rows, id)| == |rows| - 1
  {
    assert rows == [rows[0]] + rows[1..];
    if rows[0].id == id {
      assert id !in RowIds(rows[1..]);
    } else {
      DeleteRowsCount(rows[1..], id);
    }
  }

  /** `list_tasks`: every row, as a task, in rowid order. */
  function List(t: Table): (r: seq<Task>)
    ensures |r| == |t.rows|
    ensures forall i :: 0 <= i < |r| ==> r[i] == ToTask(t.rows[i])
  {
    seq(|t.rows|, i requires 0 <= i < |t.rows| => ToTask(t.rows[i]))
  }

  /** The filter arguments that reach a query: the three enumeration values as
      text. */
  predicate Accepts(arg: FilterArg)
  {
    arg.Text? && FilterFromValue(arg.text).Some?
  }

  /** `filter_tasks`: "completed" selects `completed = 1`, "active" selects
      `completed = 0`, "all" selects every row; each keeps rowid order. */
  function Filter(t: Table, arg: FilterArg): (r: seq<Task>)
    requires Accepts(arg)
    ensures arg.text == "all" ==> r == List(t)
    ensures arg.text == "completed" ==> forall x :: x in r <==> x in List(t) && x.completed
    ensures arg.text == "active" ==> forall x :: x in r <==> x in List(t) && !x.completed
    ensures r == Select(List(t), FilterFromValue(arg.text).value)
  {
    var f := FilterFromValue(arg.text).value;
    SelectAllIsIdentity(List(t));
    Select(List(t), f)
  }

  /** Without AUTOINCREMENT a rowid is not retired by a delete: once the row with
      the largest rowid `m` is deleted, the next insert gets a rowid no larger than
      `m` (unless `m` was the only rowid and below 1, when an empty table restarts
      at 1), and exactly `m` when `m - 1` is left below it or `m` was a lone 1. */
  lemma DeleteLargestThenCreateReusesId(t: Table, task: Task)
    requires Valid(t) && |t.rows| > 0
    ensures var m := t.rows[|t.rows| - 1].id;
            (|t.rows| > 1 || m >= 1) ==> Create(Delete(t, m).state, task).result.value.id.value <= m
    ensures var m := t.rows[|t.rows| - 1].id;
            |t.rows| == 1 && m == 1 ==> Create(Delete(t, m).state, task).result.value.id == Some(m)
    ensures var m := t.rows[|t.rows| - 1].id;
            |t.rows| > 1 && t.rows[|t.rows| - 2].id == m - 1 ==>
              Create(Delete(t, m).state, task).result.value.id == Some(m)
  {
    var m := t.rows[|t.rows| - 1].id;
    var rest := t.rows[..|t.rows| - 1];
    assert t.rows == rest + [t.rows[|t.rows| - 1]];
    assert m !in RowIds(rest);
    assert DeleteRows(rest, m) == rest;
    assert DeleteRows(t.rows, m) == rest by {
      DeleteRowsAppend(rest, t.rows[|t.rows| - 1], m);
    }
    assert Delete(t, m).state == Table(rest);
    assert Create(Table(rest), task).result.value.id == Some(NextRowid(rest));
    if |rest| > 0 {
      var top := MaxId(rest);
      assert top in RowIds(rest);
      assert top < m;
      assert NextRowid(rest) == top + 1;
      if |t.rows| > 1 && t.rows[|t.rows| - 2].id == m - 1 {
        assert rest[|rest| - 1].id == m - 1;
        assert rest[|rest| - 1] in rest;
        assert top == m - 1;
      }
    }
  }

  /** A delete works row by row, so it distributes over concatenation. */
  lemma {:induction false} DeleteRowsConcat(a: seq<Row>, b: seq<Row>, id: int)
    ensures DeleteRows(a + b, id) == DeleteRows(a, id) + DeleteRows(b, id)
  {
    if |a| == 0 {
      assert a + b == b;
    } else {
      assert (a + b)[0] == a[0];
      assert (a + b)[1..] == a[1..] + b;
      DeleteRowsConcat(a[1..], b, id);
    }
  }

  /** Deleting the rowid of a last row that holds it alone drops just that row. */
  lemma DeleteRowsAppend(rows: seq<Row>, last: Row, id: int)
    requires last.id == id && id !in RowIds(rows)
    ensures DeleteRows(rows + [last], id) == rows
  {
    DeleteRowsConcat(rows, [last], id);
    assert [last][1..] == [];
  }
}

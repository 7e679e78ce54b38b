/** The store contract of `daily_tasks/task_repository.py`, as the closed set of
    its two implementations: one function per abstract operation (create, read,
    update, delete, list, filter) dispatching to the JSON or the SQLite store. The
    contracts here are what both stores guarantee alike; where they differ, the
    contract names the store. */
module Repository {
  import opened Wrappers
  import opened Models
  import opened TaskRepository
  import JsonStore
  import SqliteStore

  /** The `repository_class` handed to the orchestrator. */
  datatype Backend = JsonBackend | SqliteBackend

  datatype Store = Json(json: JsonStore.Store) | Sqlite(table: SqliteStore.Table)

  predicate Valid(r: Store)
  {
    match r
    case Json(s) => JsonStore.Valid(s)
    case Sqlite(t) => SqliteStore.Valid(t)
  }

  /** Building the chosen store. `jsonFile` is the content of the tasks file and
      `database` the table already in the database file, `None` when absent. */
  function Open(backend: Backend, settings: Option<Settings>, preferences: Option<Preferences>,
                jsonFile: Option<seq<Task>>, database: Option<SqliteStore.Table>): (r: Result<Store, Error>)
    ensures CheckConfig(settings, preferences).Err? ==> r == Err(CheckConfig(settings, preferences).error)
    ensures r.Ok? && backend == JsonBackend ==> r.value.Json?
    ensures r.Ok? && backend == SqliteBackend ==> r.value.Sqlite?
    ensures r.Ok? && (database.Some? ==> SqliteStore.Valid(database.value)) ==> Valid(r.value)
    ensures backend == JsonBackend ==>
              (r.Ok? <==> JsonStore.Open(settings, preferences, jsonFile).Ok?)
              && (r.Ok? ==> r.value.json == JsonStore.Open(settings, preferences, jsonFile).value)
    ensures backend == SqliteBackend ==>
              (r.Ok? <==> SqliteStore.Open(settings, preferences, database).Ok?)
              && (r.Ok? ==> r.value.table == SqliteStore.Open(settings, preferences, database).value)
    ensures r.Ok? && backend == JsonBackend && jsonFile.Some? && DistinctIds(jsonFile.value) ==>
              List(r.value) == jsonFile.value
    ensures r.Ok? && backend == JsonBackend && jsonFile.None? ==> List(r.value) == []
    ensures r.Ok? && backend == SqliteBackend && database.Some? ==>
              List(r.value) == SqliteStore.List(database.value)
    ensures r.Ok? && backend == SqliteBackend && database.None? ==> List(r.value) == []
  {
    match backend
    case JsonBackend =>
      var s :- JsonStore.Open(settings, preferences, jsonFile);
      Ok(Json(s))
    case SqliteBackend =>
      var t :- SqliteStore.Open(settings, preferences, database);
      Ok(Sqlite(t))
  }

  /** `list_tasks`. In every valid store the listed ids are distinct. */
  function List(r: Store): (ts: seq<Task>)
    ensures Valid(r) ==> DistinctIds(ts)
    ensures r.Sqlite? ==> forall t :: t in ts ==> t.id.Some?
    ensures r.Json? ==> |ts| == |r.json.tasks| && Ids(ts) == Ids(r.json.tasks)
    ensures r.Sqlite? ==> |ts| == |r.table.rows|
  {
    match r
    case Json(s) => JsonStore.List(s)
    case Sqlite(t) => SqliteStore.List(t)
  }

  /** `create_task`. A created task keeps its fields, gets an id, and reads back
      unchanged; only the JSON store can fail, at its ceiling. */
  function Create(r: Store, t: Task): (o: Step<Store, Task>)
    ensures o.state.Json? == r.Json?
    ensures Valid(r) ==> Valid(o.state)
    ensures o.result.Ok? ==>
              && o.result.value.id.Some?
              && o.result.value == t.(id := o.result.value.id)
    ensures Valid(r) && o.result.Ok? ==> Read(o.state, o.result.value.id.value) == Ok(o.result.value)
    ensures Valid(r) && o.result.Ok? ==> o.result.value in List(o.state)
    ensures r.Sqlite? ==> o.result.Ok? && o.result.value.id !in Ids(List(r))
    ensures r.Sqlite? ==> o.result.value.id == Some(SqliteStore.NextRowid(r.table.rows))
    ensures r.Sqlite? ==> List(o.state) == List(r) + [o.result.value]
    ensures o.result.Err? ==> r.Json? && o.result.error == CapacityExceeded
  {
    match r
    case Json(s) =>
      var step := JsonStore.Create(s, t);
      Step(Json(step.state), step.result)
    case Sqlite(table) =>
      var step := SqliteStore.Create(table, t);
      assert Valid(r) ==> step.result.value == SqliteStore.ToTask(step.state.rows[|step.state.rows| - 1]);
      Step(Sqlite(step.state), step.result)
  }

  /** `read_task`. */
  function Read(r: Store, id: int): (o: Result<Task, Error>)
    ensures o.Ok? <==> Some(id) in Ids(List(r))
    ensures o.Ok? ==> o.value.id == Some(id) && o.value in List(r)
    ensures o.Err? ==> o.error == NotFound(id)
    ensures Valid(r) ==> forall t :: t in List(r) && t.id == Some(id) ==> o == Ok(t)
  {
    match r
    case Json(s) => JsonStore.Read(s, id)
    case Sqlite(table) =>
      SqliteIds(table, id);
      SqliteStore.Read(table, id)
  }

  /** The ids of the listed SQLite tasks are its rowids. */
  lemma SqliteIds(table: SqliteStore.Table, id: int)
    ensures Some(id) in Ids(SqliteStore.List(table)) <==> id in SqliteStore.RowIds(table.rows)
    ensures SqliteStore.Valid(table) ==>
              forall t :: t in SqliteStore.List(table) && t.id == Some(id) ==>
                SqliteStore.Read(table, id) == Ok(t)
  {
    var ts := SqliteStore.List(table);
    if id in SqliteStore.RowIds(table.rows) {
      var i :| 0 <= i < |table.rows| && table.rows[i].id == id;
      assert ts[i].id == Some(id);
    }
    if Some(id) in Ids(ts) {
      var i :| 0 <= i < |ts| && ts[i].id == Some(id);
      assert table.rows[i].id == id;
    }
    if SqliteStore.Valid(table) {
      forall t | t in ts && t.id == Some(id) ensures SqliteStore.Read(table, id) == Ok(t) {
        var i :| 0 <= i < |ts| && ts[i] == t;
        assert table.rows[i] in table.rows;
      }
    }
  }

  /** `update_task`: partial-patch semantics. An update that succeeds returns the
      stored task with exactly the supplied fields replaced, and reads back so; an
      absent id is refused and the listing is left as it was. */
  function Update(r: Store, id: int, p: Patch): (o: Step<Store, Task>)
    ensures o.state.Json? == r.Json?
    ensures Valid(r) ==> Valid(o.state)
    ensures Some(id) !in Ids(List(r)) ==> o.result.Err? && o.state == r
    ensures r.Json? && Some(id) !in Ids(List(r)) ==> o.result == Err(NotFound(id))
    ensures r.Sqlite? && !IsEmptyPatch(p) && Some(id) !in Ids(List(r)) ==> o.result == Err(NotFound(id))
    ensures r.Sqlite? && IsEmptyPatch(p) ==> o == Step(r, Err(MalformedUpdate))
    ensures Valid(r) && o.result.Ok? ==>
              && Read(r, id).Ok?
              && o.result.value == ApplyPatch(Read(r, id).value, p)
              && Read(o.state, id) == o.result
    ensures Valid(r) && o.result.Ok? ==> |List(o.state)| == |List(r)|
    ensures Valid(r) && o.result.Ok? ==>
              forall u :: u in List(r) && u.id != Some(id) ==> u in List(o.state)
  {
    match r
    case Json(s) =>
      var step := JsonStore.Update(s, id, p);
      JsonUpdateKeepsOthers(s, id, p);
      Step(Json(step.state), step.result)
    case Sqlite(table) =>
      SqliteIds(table, id);
      var step := SqliteStore.Update(table, id, p);
      SqliteIds(step.state, id);
      SqliteUpdateKeepsOthers(table, id, p);
      Step(Sqlite(step.state), step.result)
  }

  /** A JSON update that succeeds keeps every task with another id. */
  lemma JsonUpdateKeepsOthers(s: JsonStore.Store, id: int, p: Patch)
    ensures JsonStore.Valid(s) && JsonStore.Update(s, id, p).result.Ok? ==>
              forall u :: u in s.tasks && u.id != Some(id) ==> u in JsonStore.Update(s, id, p).state.tasks
  {
    var step := JsonStore.Update(s, id, p);
    if JsonStore.Valid(s) && step.result.Ok? {
      forall u | u in s.tasks && u.id != Some(id) ensures u in step.state.tasks {
        var j :| 0 <= j < |s.tasks| && s.tasks[j] == u;
        assert step.state.tasks[j] == u;
      }
    }
  }

  /** A SQLite update keeps every listed task with another id. */
  lemma SqliteUpdateKeepsOthers(table: SqliteStore.Table, id: int, p: Patch)
    ensures SqliteStore.Valid(table) ==>
            forall u :: u in SqliteStore.List(table) && u.id != Some(id) ==>
              u in SqliteStore.List(SqliteStore.Update(table, id, p).state)
  {
    var after := SqliteStore.Update(table, id, p).state;
    if SqliteStore.Valid(table) {
      forall u | u in SqliteStore.List(table) && u.id != Some(id) ensures u in SqliteStore.List(after) {
        var i :| 0 <= i < |table.rows| && SqliteStore.List(table)[i] == u;
        var k := table.rows[i].id;
        SqliteIds(table, k);
        SqliteIds(after, k);
      }
    }
  }

  /** `delete_task`: afterwards the id is never listed; a present id takes exactly
      its own task with it. Only the JSON store refuses an absent id. */
  function Delete(r: Store, id: int): (o: Step<Store, ()>)
    ensures o.state.Json? == r.Json?
    ensures Valid(r) ==> Valid(o.state)
    ensures Valid(r) ==> Some(id) !in Ids(List(o.state))
    ensures Valid(r) && Some(id) in Ids(List(r)) ==>
              && |List(o.state)| == |List(r)| - 1
              && forall u :: u in List(o.state) <==> u in List(r) && u.id != Some(id)
    ensures r.Json? && Some(id) !in Ids(List(r)) ==> o == Step(r, Err(NotFound(id)))
    ensures r.Sqlite? ==> o.result.Ok?
    ensures r.Sqlite? && Some(id) !in Ids(List(r)) ==> o.state == r
  {
    match r
    case Json(s) =>
      var step := JsonStore.Delete(s, id);
      Step(Json(step.state), step.result)
    case Sqlite(table) =>
      SqliteIds(table, id);
      var step := SqliteStore.Delete(table, id);
      SqliteIds(step.state, id);
      SqliteDeleteList(table, step.state, id);
      Step(Sqlite(step.state), step.result)
  }

  /** A SQLite delete seen through the listing. */
  lemma SqliteDeleteList(before: SqliteStore.Table, after: SqliteStore.Table, id: int)
    requires forall row :: row in after.rows <==> row in before.rows && row.id != id
    ensures forall u :: u in SqliteStore.List(after) <==>
              u in SqliteStore.List(before) && u.id != Some(id)
  {
    forall u ensures u in SqliteStore.List(after) <==> u in SqliteStore.List(before) && u.id != Some(id) {
      if u in SqliteStore.List(after) {
        var i :| 0 <= i < |after.rows| && SqliteStore.List(after)[i] == u;
        assert after.rows[i] in before.rows;
        var j :| 0 <= j < |before.rows| && before.rows[j] == after.rows[i];
        assert SqliteStore.List(before)[j] == u;
      }
      if u in SqliteStore.List(before) && u.id != Some(id) {
        var j :| 0 <= j < |before.rows| && SqliteStore.List(before)[j] == u;
        assert before.rows[j] in after.rows;
        var i :| 0 <= i < |after.rows| && after.rows[i] == before.rows[j];
        assert SqliteStore.List(after)[i] == u;
      }
    }
  }

  /** The filter arguments a store can act on: the JSON store takes anything,
      the SQLite store only the three enumeration values as text. */
  predicate Accepts(r: Store, arg: FilterArg)
  {
    r.Json? || SqliteStore.Accepts(arg)
  }

  /** The category a store actually applies for an argument: the JSON store
      recognises only enumeration members, the SQLite store only their values. */
  function Criterion(r: Store, arg: FilterArg): (c: TaskFilter)
    requires Accepts(r, arg)
    ensures r.Json? && arg.Member? ==> c == arg.filter
    ensures r.Json? && arg.Text? ==> c == All
    ensures r.Sqlite? ==> FilterValue(c) == arg.text
  {
    match r
    case Json(_) => if arg.Member? then arg.filter else All
    case Sqlite(_) => FilterFromValue(arg.text).value
  }

  /** The argument a store applies as the given category: the enumeration member
      for the JSON store, the member's value as text for the SQLite store. The
      front-ends do not choose by store: the graphical one always passes members
      and the command-line one always passes text. */
  function ArgumentFor(r: Store, f: TaskFilter): (arg: FilterArg)
    ensures Accepts(r, arg) && Criterion(r, arg) == f
  {
    if r.Json? then Member(f) else Text(FilterValue(f))
  }

  /** `filter_tasks`: the listed tasks of the applied category, in listing order. */
  function Filter(r: Store, arg: FilterArg): (ts: seq<Task>)
    requires Accepts(r, arg)
    ensures ts == Select(List(r), Criterion(r, arg))
    ensures forall t :: t in ts <==> t in List(r) && Matches(Criterion(r, arg), t)
  {
    match r
    case Json(s) =>
      SelectAllIsIdentity(s.tasks);
      JsonStore.Filter(s, arg)
    case Sqlite(table) => SqliteStore.Filter(table, arg)
  }

  /** For either store, given the argument it applies as each category, ACTIVE
      and COMPLETED split the listing with no overlap and no omission, and ALL
      returns the listing itself. */
  lemma FilterPartition(r: Store)
    ensures Filter(r, ArgumentFor(r, All)) == List(r)
    ensures multiset(Filter(r, ArgumentFor(r, Active))) + multiset(Filter(r, ArgumentFor(r, Completed)))
            == multiset(List(r))
    ensures |Filter(r, ArgumentFor(r, Active))| + |Filter(r, ArgumentFor(r, Completed))| == |List(r)|
  {
    SelectAllIsIdentity(List(r));
    SelectPartition(List(r));
  }

  /** The JSON store does not understand the typed text the command-line front-end
      passes: "active" or "completed" as text returns every task. */
  lemma JsonIgnoresFilterText(s: JsonStore.Store, text: string)
    ensures Filter(Json(s), Text(text)) == List(Json(s))
  {
    SelectAllIsIdentity(s.tasks);
  }
}

/** The orchestrator of `daily_tasks/task_manager.py`: one store and the list of
    tasks the front-end currently shows. Lookups by position read that cached
    list; a filter replaces it with the filter's result; every mutation makes one
    store call and then replaces it with a fresh full listing, which drops any
    filter that was showing. A store error propagates before the list is
    replaced, so the list is then left as it was, while the store keeps whatever
    the failed call already did to it. */
module TaskManager {
  import opened Wrappers
  import opened Models
  import opened TaskRepository
  import Repository
  import JsonStore
  import SqliteStore

  /** The `gui_class` handed to the orchestrator; only its presence matters to
      the core. */
  datatype UiClass = GtkUi | CommandLineUi

  datatype Manager = Manager(repository: Repository.Store, visible: seq<Task>)

  /** The manager after a call, and the call's value or the error it raised. */
  datatype Outcome<T> = Outcome(manager: Manager, result: Result<T, Error>)

  predicate Valid(m: Manager)
  {
    Repository.Valid(m.repository)
  }

  /** The visible list is the full listing of the store. */
  predicate ShowsAll(m: Manager)
  {
    m.visible == Repository.List(m.repository)
  }

  /** `TaskManager.__init__`: settings, preferences, the front-end class and the
      store class are checked in that order, the store is built, and the visible
      list starts as the full listing. */
  function New(settings: Option<Settings>, preferences: Option<Preferences>, guiClass: Option<UiClass>,
               repositoryClass: Option<Repository.Backend>,
               jsonFile: Option<seq<Task>>, database: Option<SqliteStore.Table>): (r: Result<Manager, Error>)
    ensures settings.None? ==> r == Err(MissingSettings)
    ensures settings.Some? && preferences.None? ==> r == Err(MissingPreferences)
    ensures settings.Some? && preferences.Some? && guiClass.None? ==> r == Err(MissingGuiClass)
    ensures settings.Some? && preferences.Some? && guiClass.Some? && repositoryClass.None? ==>
              r == Err(MissingRepositoryClass)
    ensures r.Ok? ==> settings.Some? && preferences.Some? && guiClass.Some? && repositoryClass.Some?
    ensures r.Ok? ==> ShowsAll(r.value)
    ensures r.Ok? && (database.Some? ==> SqliteStore.Valid(database.value)) ==> Valid(r.value)
    ensures r.Ok? && repositoryClass == Some(Repository.SqliteBackend) ==> r.value.repository.Sqlite?
    ensures r.Ok? && repositoryClass == Some(Repository.JsonBackend) ==> r.value.repository.Json?
    ensures r.Ok? <==>
              guiClass.Some? && repositoryClass.Some?
              && Repository.Open(repositoryClass.value, settings, preferences, jsonFile, database).Ok?
    ensures r.Ok? ==>
              r.value.repository == Repository.Open(repositoryClass.value, settings, preferences, jsonFile, database).value
    ensures r.Ok? && repositoryClass == Some(Repository.JsonBackend) && jsonFile.Some? && DistinctIds(jsonFile.value) ==>
              r.value.visible == jsonFile.value
    ensures r.Ok? && repositoryClass == Some(Repository.SqliteBackend) && database.Some? ==>
              r.value.visible == SqliteStore.List(database.value)
    ensures r.Ok? && jsonFile.None? && database.None? ==> r.value.visible == []
  {
    if settings.None? then Err(MissingSettings)
    else if preferences.None? then Err(MissingPreferences)
    else if guiClass.None? then Err(MissingGuiClass)
    else if repositoryClass.None? then Err(MissingRepositoryClass)
    else
      var store :- Repository.Open(repositoryClass.value, settings, preferences, jsonFile, database);
      Ok(Manager(store, Repository.List(store)))
  }

  /** `handle_view_task_by_index`: Python list indexing on the cached list, so a
      negative index counts from the end; the store is not consulted. */
  function ViewTaskByIndex(m: Manager, index: int): (r: Result<Task, Error>)
    ensures r.Ok? <==> -|m.visible| <= index < |m.visible|
    ensures r.Ok? ==> r.value in m.visible
    ensures 0 <= index < |m.visible| ==> r == Ok(m.visible[index])
    ensures -|m.visible| <= index < 0 ==> r == Ok(m.visible[|m.visible| + index])
    ensures r.Err? ==> r.error == IndexOutOfRange(index)
  {
    if 0 <= index < |m.visible| then Ok(m.visible[index])
    else if -|m.visible| <= index < 0 then Ok(m.visible[|m.visible| + index])
    else Err(IndexOutOfRange(index))
  }

  /** `handle_view_task_by_id`: a pass-through to the store's read. */
  function ViewTaskById(m: Manager, id: int): (r: Result<Task, Error>)
    ensures r == Repository.Read(m.repository, id)
    ensures r.Ok? <==> Some(id) in Ids(Repository.List(m.repository))
    ensures r.Ok? ==> r.value.id == Some(id)
  {
    Repository.Read(m.repository, id)
  }

  /** `handle_filter_tasks`: the visible list becomes the store's filter result
      and is returned; the store is unchanged. */
  function FilterTasks(m: Manager, arg: FilterArg): (r: Outcome<seq<Task>>)
    requires Repository.Accepts(m.repository, arg)
    ensures r.manager.repository == m.repository
    ensures r.result.Ok? && r.result.value == r.manager.visible
    ensures forall t :: t in r.manager.visible <==>
              t in Repository.List(m.repository) && Matches(Repository.Criterion(m.repository, arg), t)
    ensures r.manager.visible == Select(Repository.List(m.repository), Repository.Criterion(m.repository, arg))
  {
    var shown := Repository.Filter(m.repository, arg);
    Outcome(Manager(m.repository, shown), Ok(shown))
  }

  /** The common tail of every mutation: after a store call that returned, show
      the full listing; after one that raised, keep the visible list. */
  function Refresh<T>(m: Manager, step: Step<Repository.Store, T>): (r: Outcome<seq<Task>>)
    ensures r.manager.repository == step.state
    ensures r.result.Ok? <==> step.result.Ok?
    ensures r.result.Ok? ==> ShowsAll(r.manager) && r.result.value == r.manager.visible
    ensures r.result.Err? ==> r.manager.visible == m.visible && r.result.error == step.result.error
  {
    if step.result.Ok? then
      var listed := Repository.List(step.state);
      Outcome(Manager(step.state, listed), Ok(listed))
    else
      Outcome(Manager(step.state, m.visible), Err(step.result.error))
  }

  /** `handle_create_task`. */
  function CreateTask(m: Manager, t: Task): (r: Outcome<seq<Task>>)
    ensures r.manager.repository == Repository.Create(m.repository, t).state
    ensures r.result.Ok? <==> Repository.Create(m.repository, t).result.Ok?
    ensures r.result.Ok? ==> ShowsAll(r.manager) && r.result.value == r.manager.visible
    ensures r.result.Err? ==> r.manager.visible == m.visible && r.result.error == CapacityExceeded
    ensures Valid(m) ==> Valid(r.manager)
    ensures Valid(m) && r.result.Ok? ==>
              exists c :: c in r.manager.visible && c == t.(id := c.id) && c.id.Some?
    ensures m.repository.Sqlite? ==> r.result.Ok? && |r.manager.visible| == |Repository.List(m.repository)| + 1
  {
    var step := Repository.Create(m.repository, t);
    assert Valid(m) && step.result.Ok? ==> step.result.value in Repository.List(step.state);
    Refresh(m, step)
  }

  /** `handle_edit_task`. */
  function EditTask(m: Manager, id: int, p: Patch): (r: Outcome<seq<Task>>)
    ensures r.manager.repository == Repository.Update(m.repository, id, p).state
    ensures r.result.Ok? <==> Repository.Update(m.repository, id, p).result.Ok?
    ensures r.result.Err? ==> r.result.error == Repository.Update(m.repository, id, p).result.error
    ensures r.result.Ok? ==> ShowsAll(r.manager) && r.result.value == r.manager.visible
    ensures r.result.Err? ==> r.manager.visible == m.visible
    ensures Some(id) !in Ids(Repository.List(m.repository)) ==>
              r.result.Err? && r.manager == m
    ensures Valid(m) ==> Valid(r.manager)
    ensures Valid(m) && r.result.Ok? ==>
              ApplyPatch(Repository.Read(m.repository, id).value, p) in r.manager.visible
    ensures Valid(m) && r.result.Ok? ==>
              forall u :: u in Repository.List(m.repository) && u.id != Some(id) ==> u in r.manager.visible
  {
    var step := Repository.Update(m.repository, id, p);
    Refresh(m, step)
  }

  /** `handle_delete_task`. */
  function DeleteTask(m: Manager, id: int): (r: Outcome<seq<Task>>)
    ensures r.manager.repository == Repository.Delete(m.repository, id).state
    ensures r.result.Ok? <==> Repository.Delete(m.repository, id).result.Ok?
    ensures r.result.Err? ==> r.result.error == Repository.Delete(m.repository, id).result.error
    ensures r.result.Ok? ==> ShowsAll(r.manager) && r.result.value == r.manager.visible
    ensures r.result.Err? ==> r.manager.visible == m.visible
    ensures Valid(m) ==> Valid(r.manager)
    ensures Valid(m) && r.result.Ok? ==> Some(id) !in Ids(r.manager.visible)
    ensures Valid(m) && r.result.Ok? && Some(id) in Ids(Repository.List(m.repository)) ==>
              |r.manager.visible| == |Repository.List(m.repository)| - 1
  {
    var step := Repository.Delete(m.repository, id);
    Refresh(m, step)
  }

  /** `handle_complete_task`: an edit that sets only `completed` to true. */
  function CompleteTask(m: Manager, id: int): (r: Outcome<seq<Task>>)
    ensures r == EditTask(m, id, MarkCompleted)
    ensures Valid(m) && r.result.Ok? ==>
              exists c :: c in r.manager.visible && c.id == Some(id) && c.completed
  {
    EditTask(m, id, MarkCompleted)
  }

  /** A mutation after a filter shows the full listing again: the filter is not
      remembered. */
  lemma MutationDropsFilter(m: Manager, arg: FilterArg, t: Task)
    requires Repository.Accepts(m.repository, arg)
    ensures var filtered := FilterTasks(m, arg).manager;
            var created := CreateTask(filtered, t);
            created.result.Ok? ==> created.manager.visible == Repository.List(created.manager.repository)
  {
  }

  /** The lookup by position answers from the cached list alone: two managers
      showing the same list answer alike whatever their stores hold. */
  lemma ViewByIndexIgnoresStore(m: Manager, other: Repository.Store, index: int)
    ensures ViewTaskByIndex(Manager(other, m.visible), index) == ViewTaskByIndex(m, index)
  {
  }

  /** The empty store of either kind, as a first start creates it. */
  function EmptyStore(backend: Repository.Backend): (r: Repository.Store)
    ensures Repository.Valid(r) && Repository.List(r) == []
  {
    match backend
    case JsonBackend => Repository.Json(JsonStore.Store([], 1, []))
    case SqliteBackend => Repository.Sqlite(SqliteStore.Table([]))
  }

  /** The end-to-end run on either store: two creates get ids 1 and 2, completing
      the first makes it the only completed task and leaves the second the only
      active one, and deleting the first leaves exactly the second, unchanged. */
  lemma BuyMilkScenario(backend: Repository.Backend)
    ensures var m0 := Manager(EmptyStore(backend), []);
            var m1 := CreateTask(m0, Milk).manager;
            var m2 := CreateTask(m1, Bread).manager;
            var m3 := CompleteTask(m2, 1).manager;
            var r := m3.repository;
            var m4 := DeleteTask(m3, 1);
            && m2.visible == [Milk1, Bread2]
            && Repository.Filter(r, Repository.ArgumentFor(r, Completed)) == [Done1]
            && Repository.Filter(r, Repository.ArgumentFor(r, Active)) == [Bread2]
            && m4.result.Ok?
            && m4.manager.visible == [Bread2]
  {
    match backend
    case JsonBackend => JsonScenario();
    case SqliteBackend => SqliteScenario();
  }

  const Milk: Task := Task(None, "Buy milk", "2%", false)
  const Bread: Task := Task(None, "Buy bread", "", false)
  const Milk1: Task := Task(Some(1), "Buy milk", "2%", false)
  const Bread2: Task := Task(Some(2), "Buy bread", "", false)
  const Done1: Task := Task(Some(1), "Buy milk", "2%", true)

  lemma JsonScenario()
    ensures var m0 := Manager(EmptyStore(Repository.JsonBackend), []);
            var m1 := CreateTask(m0, Milk).manager;
            var m2 := CreateTask(m1, Bread).manager;
            var m3 := CompleteTask(m2, 1).manager;
            var r := m3.repository;
            var m4 := DeleteTask(m3, 1);
            && m2.visible == [Milk1, Bread2]
            && Repository.Filter(r, Repository.ArgumentFor(r, Completed)) == [Done1]
            && Repository.Filter(r, Repository.ArgumentFor(r, Active)) == [Bread2]
            && m4.result.Ok?
            && m4.manager.visible == [Bread2]
  {
    JsonCreateFirst();
    JsonCreateSecond();
    JsonCompleteFirst();
    JsonDeleteFirst();
    ScenarioSplit();
  }

  lemma JsonCreateFirst()
    ensures CreateTask(Manager(EmptyStore(Repository.JsonBackend), []), Milk)
            == Outcome(Manager(Repository.Json(JsonStore.Store([Milk1], 2, [Milk1])), [Milk1]), Ok([Milk1]))
  {
    assert JsonStore.Put([], Milk1) == [Milk1];
  }

  lemma JsonCreateSecond()
    ensures var s2 := JsonStore.Store([Milk1, Bread2], 3, [Milk1, Bread2]);
            CreateTask(Manager(Repository.Json(JsonStore.Store([Milk1], 2, [Milk1])), [Milk1]), Bread)
            == Outcome(Manager(Repository.Json(s2), [Milk1, Bread2]), Ok([Milk1, Bread2]))
  {
    assert Some(2) !in Ids([Milk1]);
    assert JsonStore.Put([Milk1], Bread2) == [Milk1, Bread2];
  }

  lemma JsonCompleteFirst()
    ensures var s2 := JsonStore.Store([Milk1, Bread2], 3, [Milk1, Bread2]);
            var s3 := JsonStore.Store([Done1, Bread2], 3, [Done1, Bread2]);
            CompleteTask(Manager(Repository.Json(s2), [Milk1, Bread2]), 1)
            == Outcome(Manager(Repository.Json(s3), [Done1, Bread2]), Ok([Done1, Bread2]))
  {
    assert JsonStore.Find([Milk1, Bread2], Some(1)) == Some(0);
    assert JsonStore.Put([Milk1, Bread2], Done1) == [Done1, Bread2];
  }

  lemma JsonDeleteFirst()
    ensures var s3 := JsonStore.Store([Done1, Bread2], 3, [Done1, Bread2]);
            var s4 := JsonStore.Store([Bread2], 2, [Bread2]);
            DeleteTask(Manager(Repository.Json(s3), [Done1, Bread2]), 1)
            == Outcome(Manager(Repository.Json(s4), [Bread2]), Ok([Bread2]))
  {
    assert Done1 in [Done1, Bread2];
    assert JsonStore.Find([Done1, Bread2], Some(1)) == Some(0);
    assert JsonStore.Remove([Done1, Bread2], Some(1)) == [Bread2];
  }

  lemma SqliteScenario()
    ensures var m0 := Manager(EmptyStore(Repository.SqliteBackend), []);
            var m1 := CreateTask(m0, Milk).manager;
            var m2 := CreateTask(m1, Bread).manager;
            var m3 := CompleteTask(m2, 1).manager;
            var r := m3.repository;
            var m4 := DeleteTask(m3, 1);
            && m2.visible == [Milk1, Bread2]
            && Repository.Filter(r, Repository.ArgumentFor(r, Completed)) == [Done1]
            && Repository.Filter(r, Repository.ArgumentFor(r, Active)) == [Bread2]
            && m4.result.Ok?
            && m4.manager.visible == [Bread2]
  {
    var m0 := Manager(EmptyStore(Repository.SqliteBackend), []);
    SqliteCreateFirst();
    var m1 := Manager(Repository.Sqlite(SqliteStore.Table([Row1])), [Milk1]);
    assert CreateTask(m0, Milk).manager == m1;
    SqliteCreateSecond();
    var m2 := Manager(Repository.Sqlite(SqliteStore.Table([Row1, Row2])), [Milk1, Bread2]);
    assert CreateTask(m1, Bread).manager == m2;
    SqliteCompleteFirst();
    var m3 := Manager(Repository.Sqlite(SqliteStore.Table([DoneRow1, Row2])), [Done1, Bread2]);
    assert CompleteTask(m2, 1).manager == m3;
    SqliteDeleteFirst();
    SqliteFilters();
  }

  /** The two filters over the table left by completing the first task. */
  lemma SqliteFilters()
    ensures var r := Repository.Sqlite(SqliteStore.Table([DoneRow1, Row2]));
            && Repository.Filter(r, Repository.ArgumentFor(r, Completed)) == [Done1]
            && Repository.Filter(r, Repository.ArgumentFor(r, Active)) == [Bread2]
  {
    var r := Repository.Sqlite(SqliteStore.Table([DoneRow1, Row2]));
    assert Repository.List(r) == [Done1, Bread2];
    ScenarioSplit();
  }

  lemma ScenarioSplit()
    ensures Select([Done1, Bread2], Completed) == [Done1]
    ensures Select([Done1, Bread2], Active) == [Bread2]
  {
    assert [Done1, Bread2][1..] == [Bread2];
    assert [Bread2][1..] == [];
  }

  const Row1: SqliteStore.Row := SqliteStore.Row(1, "Buy milk", "2%", false)
  const Row2: SqliteStore.Row := SqliteStore.Row(2, "Buy bread", "", false)
  const DoneRow1: SqliteStore.Row := SqliteStore.Row(1, "Buy milk", "2%", true)

  lemma SqliteCreateFirst()
    ensures CreateTask(Manager(EmptyStore(Repository.SqliteBackend), []), Milk)
            == Outcome(Manager(Repository.Sqlite(SqliteStore.Table([Row1])), [Milk1]), Ok([Milk1]))
  {
    assert SqliteStore.List(SqliteStore.Table([Row1])) == [Milk1];
  }

  lemma SqliteCreateSecond()
    ensures CreateTask(Manager(Repository.Sqlite(SqliteStore.Table([Row1])), [Milk1]), Bread)
            == Outcome(Manager(Repository.Sqlite(SqliteStore.Table([Row1, Row2])), [Milk1, Bread2]),
                       Ok([Milk1, Bread2]))
  {
    assert SqliteStore.MaxId([Row1]) == 1;
    assert SqliteStore.NextRowid([Row1]) == 2;
    assert [Row1] + [Row2] == [Row1, Row2];
    assert SqliteStore.Create(SqliteStore.Table([Row1]), Bread)
           == Step(SqliteStore.Table([Row1, Row2]), Ok(Bread2));
    assert SqliteStore.List(SqliteStore.Table([Row1, Row2])) == [Milk1, Bread2];
  }

  lemma SqliteCompleteFirst()
    ensures CompleteTask(Manager(Repository.Sqlite(SqliteStore.Table([Row1, Row2])), [Milk1, Bread2]), 1)
            == Outcome(Manager(Repository.Sqlite(SqliteStore.Table([DoneRow1, Row2])), [Done1, Bread2]),
                       Ok([Done1, Bread2]))
  {
    assert SqliteStore.UpdateRows([Row1, Row2], 1, MarkCompleted) == [DoneRow1, Row2];
    assert SqliteStore.FindRow([DoneRow1, Row2], 1) == Some(0);
    assert SqliteStore.List(SqliteStore.Table([DoneRow1, Row2])) == [Done1, Bread2];
  }

  lemma SqliteDeleteFirst()
    ensures DeleteTask(Manager(Repository.Sqlite(SqliteStore.Table([DoneRow1, Row2])), [Done1, Bread2]), 1)
            == Outcome(Manager(Repository.Sqlite(SqliteStore.Table([Row2])), [Bread2]), Ok([Bread2]))
  {
    assert [DoneRow1, Row2][1..] == [Row2];
    assert SqliteStore.DeleteRows([DoneRow1, Row2], 1) == [Row2];
    assert SqliteStore.List(SqliteStore.Table([Row2])) == [Bread2];
  }
}

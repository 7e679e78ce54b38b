/** The flat-file store of `daily_tasks/repository/json_task_repository.py`.

    Its memory is a Python dict from id to task, which keeps insertion order; here
    it is the sequence of stored tasks in that order, each stored under its own
    `id` (so the key is `Task.id`), with the ids pairwise distinct. Beside it sit
    the `next_id` counter and the content of the backing file, the last task list
    written to disk. Every call returns the state afterwards together with its
    value or error, since a failing save leaves the memory already changed. */
module JsonStore {
  import opened Wrappers
  import opened Models
  import opened TaskRepository

  /** `MAX_TASKS_PER_FILE`. */
  const MaxTasksPerFile: nat := 2000

  datatype Store = Store(tasks: seq<Task>, nextId: int, file: seq<Task>)

  predicate Valid(s: Store)
  {
    DistinctIds(s.tasks)
  }

  /** The file and the counter agree with memory, as they do after a save that
      wrote a non-empty list. */
  predicate Synced(s: Store)
  {
    s.file == s.tasks && s.nextId == |s.tasks| + 1
  }

  /** The position of `key`, if it is stored. */
  function Find(ts: seq<Task>, key: Option<int>): (r: Option<nat>)
    ensures r.Some? ==> r.value < |ts| && ts[r.value].id == key
    ensures r.Some? ==> forall j :: 0 <= j < r.value ==> ts[j].id != key
    ensures r.None? <==> key !in Ids(ts)
  {
    if |ts| == 0 then None
    else if ts[0].id == key then Some(0)
    else
      match Find(ts[1..], key)
      case None => assert ts == [ts[0]] + ts[1..]; None
      case Some(i) => Some(i + 1)
  }

  /** In a dict without repeated keys a key sits at exactly one position. */
  lemma FindUnique(ts: seq<Task>, i: nat)
    requires DistinctIds(ts) && i < |ts|
    ensures Find(ts, ts[i].id) == Some(i)
  {
  }

  /** `dict.get`. */
  function Get(ts: seq<Task>, key: Option<int>): (r: Option<Task>)
    ensures r.Some? ==> r.value in ts && r.value.id == key
    ensures r.None? <==> key !in Ids(ts)
    ensures DistinctIds(ts) ==> forall t :: t in ts && t.id == key ==> r == Some(t)
  {
    match Find(ts, key)
    case None => None
    case Some(i) =>
      assert DistinctIds(ts) ==> forall t :: t in ts && t.id == key ==> t == ts[i] by {
        if DistinctIds(ts) {
          forall t | t in ts && t.id == key
            ensures t == ts[i]
          {
            var j :| 0 <= j < |ts| && ts[j] == t;
            FindUnique(ts, j);
          }
        }
      }
      Some(ts[i])
  }

  /** `d[t.id] = t`: a present key keeps its position and gets the new task; an
      absent key is added at the end. */
  function Put(ts: seq<Task>, t: Task): (r: seq<Task>)
    ensures Ids(r) == Ids(ts) + {t.id}
    ensures t in r
    ensures t.id !in Ids(ts) ==> r == ts + [t]
    ensures t.id in Ids(ts) ==> |r| == |ts|
    ensures t.id in Ids(ts) ==> r[Find(ts, t.id).value] == t
    ensures t.id in Ids(ts) ==>
              forall j :: 0 <= j < |ts| && j != Find(ts, t.id).value ==> r[j] == ts[j]
    ensures DistinctIds(ts) ==> DistinctIds(r)
    ensures DistinctIds(ts) ==> forall u :: u in r <==> u == t || (u in ts && u.id != t.id)
  {
    match Find(ts, t.id)
    case None => ts + [t]
    case Some(i) =>
      var r := ts[i := t];
      assert r[i] == t;
      assert forall u :: u in r ==> u == t || u in ts by {
        forall u | u in r ensures u == t || u in ts {
          var j :| 0 <= j < |r| && r[j] == u;
          if j != i { assert u == ts[j]; }
        }
      }
      assert forall u :: u in ts && u.id != t.id ==> u in r by {
        forall u | u in ts && u.id != t.id ensures u in r {
          var j :| 0 <= j < |ts| && ts[j] == u;
          assert j != i && r[j] == u;
        }
      }
      assert Ids(r) == Ids(ts) + {t.id} by {
        forall k | k in Ids(ts) ensures k in Ids(r) {
          var u :| u in ts && u.id == k;
          if k != t.id { assert u in r; }
        }
      }
      r
  }

  /** `d.pop(key)`: the entry under `key` goes, the others keep their order. */
  function Remove(ts: seq<Task>, key: Option<int>): (r: seq<Task>)
    ensures key !in Ids(ts) ==> r == ts
    ensures key in Ids(ts) ==> |r| == |ts| - 1
    ensures forall u :: u in r ==> u in ts
    ensures DistinctIds(ts) ==> DistinctIds(r)
    ensures DistinctIds(ts) ==> Ids(r) == Ids(ts) - {key}
    ensures DistinctIds(ts) ==> forall u :: u in r <==> u in ts && u.id != key
    ensures key in Ids(ts) ==>
              forall j :: 0 <= j < |r| ==> r[j] == ts[if j < Find(ts, key).value then j else j + 1]
  {
    match Find(ts, key)
    case None => ts
    case Some(i) =>
      var r := ts[..i] + ts[i + 1..];
      assert forall j :: 0 <= j < |r| ==> r[j] == ts[if j < i then j else j + 1];
      assert forall u :: u in ts && u != ts[i] ==> u in r by {
        forall u | u in ts && u != ts[i] ensures u in r {
          var j :| 0 <= j < |ts| && ts[j] == u;
          if j < i { assert r[j] == u; } else { assert r[j - 1] == u; }
        }
      }
      r
  }

  /** Inserting a sequence of records one after another, as `load_tasks` does. */
  function PutAll(ts: seq<Task>, records: seq<Task>): (r: seq<Task>)
    ensures Ids(r) == Ids(ts) + Ids(records)
    ensures forall u :: u in r ==> u in ts || u in records
    ensures DistinctIds(ts) ==> DistinctIds(r)
    decreases |records|
  {
    if |records| == 0 then ts
    else
      assert records == [records[0]] + records[1..];
      PutAll(Put(ts, records[0]), records[1..])
  }

  /** A stored task that no record's id touches survives the inserts. */
  lemma {:induction false} PutAllKeeps(ts: seq<Task>, records: seq<Task>, u: Task)
    requires u in ts
    requires forall x :: x in records ==> x.id != u.id
    ensures u in PutAll(ts, records)
    decreases |records|
  {
    if |records| > 0 {
      var t := records[0];
      assert t in records;
      var put := Put(ts, t);
      var j :| 0 <= j < |ts| && ts[j] == u;
      if t.id in Ids(ts) {
        assert put[j] == u;
      }
      assert u in put;
      forall x | x in records[1..] ensures x.id != u.id {
        assert x in records;
      }
      PutAllKeeps(put, records[1..], u);
    }
  }

  /** Inserting records one by one, the last record carrying an id is the one
      kept under it: a later record with the same id replaces an earlier one. */
  lemma {:induction false} PutAllLastWins(ts: seq<Task>, records: seq<Task>, i: nat)
    requires i < |records|
    requires forall j :: i < j < |records| ==> records[j].id != records[i].id
    ensures records[i] in PutAll(ts, records)
    decreases |records|
  {
    var put := Put(ts, records[0]);
    if i == 0 {
      forall x | x in records[1..] ensures x.id != records[0].id {
        var k :| 0 <= k < |records[1..]| && records[1..][k] == x;
        assert records[k + 1] == x;
      }
      PutAllKeeps(put, records[1..], records[0]);
    } else {
      PutAllLastWins(put, records[1..], i - 1);
    }
  }

  /** Records whose ids are all new are simply appended, in order. */
  lemma {:induction false} PutAllFresh(ts: seq<Task>, records: seq<Task>)
    requires DistinctIds(ts + records)
    ensures PutAll(ts, records) == ts + records
    decreases |records|
  {
    if |records| > 0 {
      var t := records[0];
      assert t == (ts + records)[|ts|];
      assert t.id !in Ids(ts) by {
        forall u | u in ts ensures u.id != t.id {
          var j :| 0 <= j < |ts| && ts[j] == u;
          assert (ts + records)[j] == u;
        }
      }
      assert ts + records == (ts + [t]) + records[1..];
      PutAllFresh(ts + [t], records[1..]);
    }
  }

  /** `load_tasks`: every record is stored under its own id and the counter is set
      from the number of records read, repeated ids included. */
  function Load(records: seq<Task>): (s: Store)
    ensures Valid(s)
    ensures s.nextId == |records| + 1
    ensures s.file == records
    ensures Ids(s.tasks) == Ids(records)
    ensures forall t :: t in s.tasks ==> t in records
    ensures DistinctIds(records) ==> s.tasks == records
    ensures forall i :: 0 <= i < |records| && (forall j :: i < j < |records| ==> records[j].id != records[i].id) ==>
              records[i] in s.tasks
  {
    forall i | 0 <= i < |records| && (forall j :: i < j < |records| ==> records[j].id != records[i].id)
      ensures records[i] in PutAll([], records)
    {
      PutAllLastWins([], records, i);
    }
    assert DistinctIds(records) ==> PutAll([], records) == records by {
      if DistinctIds(records) { PutAllFresh([], records); }
    }
    Store(PutAll([], records), |records| + 1, records)
  }

  /** A file that repeats an id: the later record replaces the earlier one, yet
      the counter counts both records. */
  lemma LoadRepeatedIdKeepsLater(a: Task, b: Task)
    requires a.id == b.id
    ensures Load([a, b]) == Store([b], 3, [a, b])
  {
    assert Put([], a) == [a];
    assert Find([a], b.id) == Some(0);
    assert Put([a], b) == [b];
    calc {
      PutAll([], [a, b]);
      { assert [a, b][1..] == [b]; }
      PutAll([a], [b]);
      { assert [b][1..] == []; }
      PutAll([b], []);
    }
  }

  /** The constructor: base checks, then the JSON settings and their path; a
      missing file is created holding an empty list; then the file is loaded.
      `existing` is the file's content, `None` when it does not exist. */
  function Open(settings: Option<Settings>, preferences: Option<Preferences>,
                existing: Option<seq<Task>>): (r: Result<Store, Error>)
    ensures CheckConfig(settings, preferences).Err? ==> r == Err(CheckConfig(settings, preferences).error)
    ensures CheckConfig(settings, preferences).Ok? && settings.value.jsonSettings.None? ==>
              r == Err(MissingJsonSettings)
    ensures (CheckConfig(settings, preferences).Ok? && settings.value.jsonSettings.Some?
             && settings.value.jsonSettings.value.tasksPath.None?) ==> r == Err(MissingTasksPath)
    ensures r.Ok? <==> (CheckConfig(settings, preferences).Ok? && settings.value.jsonSettings.Some?
                        && settings.value.jsonSettings.value.tasksPath.Some?)
    ensures r.Ok? ==> Valid(r.value)
    ensures r.Ok? && existing.None? ==> r.value == Store([], 1, [])
    ensures r.Ok? && existing.Some? ==>
              r.value.file == existing.value && r.value.nextId == |existing.value| + 1
    ensures r.Ok? && existing.Some? && DistinctIds(existing.value) ==> r.value.tasks == existing.value
  {
    var config :- CheckConfig(settings, preferences);
    if config.settings.jsonSettings.None? then Err(MissingJsonSettings)
    else if config.settings.jsonSettings.value.tasksPath.None? then Err(MissingTasksPath)
    else Ok(Load(if existing.Some? then existing.value else []))
  }

  /** `_save_tasks`: an empty dict writes an empty list and leaves the counter
      alone; a dict at or above the ceiling raises before anything is written; any
      other dict is written and the counter becomes its size plus one. Memory is
      never touched. */
  function Save(s: Store): (r: Step<Store, ()>)
    ensures r.state.tasks == s.tasks
    ensures r.result.Ok? <==> |s.tasks| < MaxTasksPerFile
    ensures r.result.Ok? ==> r.state.file == s.tasks
    ensures r.result.Err? ==> r.state == s && r.result.error == CapacityExceeded
    ensures |s.tasks| == 0 ==> r.state.nextId == s.nextId
    ensures 0 < |s.tasks| < MaxTasksPerFile ==> Synced(r.state)
  {
    if |s.tasks| == 0 then Step(s.(file := []), Ok(()))
    else if |s.tasks| >= MaxTasksPerFile then Step(s, Err(CapacityExceeded))
    else Step(s.(file := s.tasks, nextId := |s.tasks| + 1), Ok(()))
  }

  /** `create_task`: the task gets `next_id` as its id and is stored under it, which
      replaces a task already stored there; then the dict is saved. */
  function Create(s: Store, t: Task): (r: Step<Store, Task>)
    ensures Valid(s) ==> Valid(r.state)
    ensures Get(r.state.tasks, Some(s.nextId)) == Some(t.(id := Some(s.nextId)))
    ensures Some(s.nextId) !in Ids(s.tasks) ==> r.state.tasks == s.tasks + [t.(id := Some(s.nextId))]
    ensures Some(s.nextId) in Ids(s.tasks) ==> |r.state.tasks| == |s.tasks|
    ensures Some(s.nextId) in Ids(s.tasks) ==>
              forall j :: 0 <= j < |s.tasks| && s.tasks[j].id != Some(s.nextId) ==> r.state.tasks[j] == s.tasks[j]
    ensures r.result.Ok? <==> |r.state.tasks| < MaxTasksPerFile
    ensures r.result.Ok? ==> r.result.value.id == Some(s.nextId)
    ensures r.result.Ok? ==>
              r.result.value.title == t.title && r.result.value.description == t.description
              && r.result.value.completed == t.completed
    ensures r.result.Ok? ==> Synced(r.state)
    ensures r.result.Err? ==>
              r.result.error == CapacityExceeded && r.state.file == s.file && r.state.nextId == s.nextId
  {
    var created := t.(id := Some(s.nextId));
    var saved := Save(s.(tasks := Put(s.tasks, created)));
    Step(saved.state, if saved.result.Ok? then Ok(created) else Err(saved.result.error))
  }

  /** `read_task`. */
  function Read(s: Store, id: int): (r: Result<Task, Error>)
    ensures r.Ok? <==> Some(id) in Ids(s.tasks)
    ensures r.Ok? ==> r.value in s.tasks && r.value.id == Some(id)
    ensures r.Err? ==> r.error == NotFound(id)
    ensures Valid(s) ==> forall t :: t in s.tasks && t.id == Some(id) ==> r == Ok(t)
  {
    match Get(s.tasks, Some(id))
    case None => Err(NotFound(id))
    case Some(t) => Ok(t)
  }

  /** `update_task`: an absent id raises and changes nothing; otherwise the
      supplied fields are overwritten in place, at the task's position, and the
      dict is saved. */
  function Update(s: Store, id: int, p: Patch): (r: Step<Store, Task>)
    ensures Valid(s) ==> Valid(r.state)
    ensures Some(id) !in Ids(s.tasks) ==> r == Step(s, Err(NotFound(id)))
    ensures Some(id) in Ids(s.tasks) ==>
              var i := Find(s.tasks, Some(id)).value;
              && r.state.tasks == s.tasks[i := ApplyPatch(s.tasks[i], p)]
              && (r.result.Ok? ==> r.result.value == ApplyPatch(s.tasks[i], p))
    ensures Some(id) in Ids(s.tasks) ==> (r.result.Ok? <==> |s.tasks| < MaxTasksPerFile)
    ensures Some(id) in Ids(s.tasks) && r.result.Ok? ==> Synced(r.state)
    ensures Some(id) in Ids(s.tasks) && r.result.Err? ==>
              r.result.error == CapacityExceeded && r.state.file == s.file && r.state.nextId == s.nextId
  {
    match Find(s.tasks, Some(id))
    case None => Step(s, Err(NotFound(id)))
    case Some(i) =>
      var updated := ApplyPatch(s.tasks[i], p);
      var saved := Save(s.(tasks := Put(s.tasks, updated)));
      Step(saved.state, if saved.result.Ok? then Ok(updated) else Err(saved.result.error))
  }

  /** `delete_task`: an absent id raises and changes nothing; otherwise that one
      key is removed and the dict is saved. Removing the last task writes an empty
      list and leaves the counter where it was. */
  function Delete(s: Store, id: int): (r: Step<Store, ()>)
    ensures Valid(s) ==> Valid(r.state)
    ensures Some(id) !in Ids(s.tasks) ==> r == Step(s, Err(NotFound(id)))
    ensures Some(id) in Ids(s.tasks) ==> |r.state.tasks| == |s.tasks| - 1
    ensures Some(id) in Ids(s.tasks) ==>
              var i := Find(s.tasks, Some(id)).value;
              forall j :: 0 <= j < |r.state.tasks| ==> r.state.tasks[j] == s.tasks[if j < i then j else j + 1]
    ensures Some(id) in Ids(s.tasks) && Valid(s) ==>
              forall u :: u in r.state.tasks <==> u in s.tasks && u.id != Some(id)
    ensures Some(id) in Ids(s.tasks) ==> (r.result.Ok? <==> |s.tasks| <= MaxTasksPerFile)
    ensures Some(id) in Ids(s.tasks) && |s.tasks| == 1 ==>
              r.state.file == [] && r.state.nextId == s.nextId
    ensures Some(id) in Ids(s.tasks) && 1 < |s.tasks| && r.result.Ok? ==> Synced(r.state)
    ensures Some(id) in Ids(s.tasks) && r.result.Err? ==>
              r.result.error == CapacityExceeded && r.state.file == s.file && r.state.nextId == s.nextId
  {
    if Some(id) !in Ids(s.tasks) then Step(s, Err(NotFound(id)))
    else Save(s.(tasks := Remove(s.tasks, Some(id))))
  }

  /** `list_tasks`: the stored tasks in insertion order. Every listed task is
      the one a read of its id returns. */
  function List(s: Store): (r: seq<Task>)
    ensures |r| == |s.tasks| && Ids(r) == Ids(s.tasks)
    ensures Valid(s) ==> DistinctIds(r)
    ensures Valid(s) ==> forall t :: t in r && t.id.Some? ==> Read(s, t.id.value) == Ok(t)
  {
    s.tasks
  }

  /** `filter_tasks`: the argument is compared with the enumeration members, so
      only `Member(Active)` and `Member(Completed)` restrict; anything else,
      including the text "active", returns every task. */
  function Filter(s: Store, arg: FilterArg): (r: seq<Task>)
    ensures arg == Member(Active) ==> forall t :: t in r <==> t in s.tasks && !t.completed
    ensures arg == Member(Completed) ==> forall t :: t in r <==> t in s.tasks && t.completed
    ensures arg != Member(Active) && arg != Member(Completed) ==> r == s.tasks
    ensures arg.Member? ==> r == Select(s.tasks, arg.filter)
  {
    if arg == Member(Active) then Select(s.tasks, Active)
    else if arg == Member(Completed) then Select(s.tasks, Completed)
    else
      SelectAllIsIdentity(s.tasks);
      s.tasks
  }

  /** Restarting against the file a successful non-empty save wrote gives back
      the same store: the same tasks in the same order and the same counter. */
  lemma ReloadRoundTrip(s: Store)
    requires Valid(s) && Synced(s)
    ensures Load(s.file) == s
  {
  }

  /** Emptying the store writes an empty list but keeps the counter, so memory
      and a restart disagree on the next id whenever the counter was not 1. */
  lemma ReloadAfterEmptying(s: Store, id: int)
    requires Valid(s) && |s.tasks| == 1 && s.tasks[0].id == Some(id)
    ensures Delete(s, id).result.Ok?
    ensures Delete(s, id).state.tasks == [] && Delete(s, id).state.nextId == s.nextId
    ensures Load(Delete(s, id).state.file) == Store([], 1, [])
  {
    assert s.tasks[0] in s.tasks;
  }

  /** While the keys are exactly 1..n and the counter is n + 1, as after creating
      n tasks into an empty store, a create gets a fresh key and appends. */
  lemma CreateAppendsWhenDense(s: Store, t: Task)
    requires Valid(s) && s.nextId == |s.tasks| + 1
    requires forall u :: u in s.tasks ==> u.id.Some? && 1 <= u.id.value <= |s.tasks|
    ensures Create(s, t).state.tasks == s.tasks + [t.(id := Some(s.nextId))]
  {
    assert Some(s.nextId) !in Ids(s.tasks);
  }

  /** When the counter hits a stored key, a create replaces that task in place:
      the store does not grow and the replaced task is gone. */
  lemma CreateOverwritesExisting(s: Store, t: Task, replaced: Task)
    requires Valid(s) && replaced in s.tasks && replaced.id == Some(s.nextId)
    requires replaced != t.(id := Some(s.nextId))
    ensures |Create(s, t).state.tasks| == |s.tasks|
    ensures replaced !in Create(s, t).state.tasks
    ensures Create(s, t).state.tasks[Find(s.tasks, replaced.id).value] == t.(id := Some(s.nextId))
    ensures forall u :: u in s.tasks && u != replaced ==> u in Create(s, t).state.tasks
  {
    var created := t.(id := Some(s.nextId));
    assert Create(s, t).state.tasks == Put(s.tasks, created);
  }

  /** A concrete run of the overwrite: with ids 1, 2, 3 on disk, deleting task 1
      sets the counter to 3, and the next create silently replaces task 3. */
  lemma DeleteThenCreateOverwrites(t1: Task, t2: Task, t3: Task, t: Task)
    requires t1.id == Some(1) && t2.id == Some(2) && t3.id == Some(3)
    requires t.title != t3.title
    ensures var deleted := Delete(Load([t1, t2, t3]), 1);
            var created := Create(deleted.state, t);
            && deleted.result.Ok? && deleted.state.nextId == 3
            && created.result == Ok(t.(id := Some(3)))
            && List(created.state) == [t2, t.(id := Some(3))]
            && t3 !in List(created.state)
  {
    DeleteFirstOfThree(t1, t2, t3);
    CreateOverSecondOfTwo(t2, t3, t);
  }

  lemma DeleteFirstOfThree(t1: Task, t2: Task, t3: Task)
    requires t1.id == Some(1) && t2.id == Some(2) && t3.id == Some(3)
    ensures Delete(Load([t1, t2, t3]), 1) == Step(Store([t2, t3], 3, [t2, t3]), Ok(()))
  {
    assert DistinctIds([t1, t2, t3]);
    var s := Load([t1, t2, t3]);
    assert s.tasks == [t1, t2, t3];
    assert Find(s.tasks, Some(1)) == Some(0);
    assert Remove(s.tasks, Some(1)) == [t2, t3];
  }

  lemma CreateOverSecondOfTwo(t2: Task, t3: Task, t: Task)
    requires t2.id == Some(2) && t3.id == Some(3) && t.title != t3.title
    ensures var u := t.(id := Some(3));
            Create(Store([t2, t3], 3, [t2, t3]), t) == Step(Store([t2, u], 3, [t2, u]), Ok(u))
  {
    assert Find([t2, t3], Some(3)) == Some(1);
    assert Put([t2, t3], t.(id := Some(3))) == [t2, t.(id := Some(3))];
  }

  /** A store at the ceiling refuses every create and leaves the file as it was. */
  lemma FullStoreRefusesCreate(s: Store, t: Task)
    requires Valid(s) && |s.tasks| >= MaxTasksPerFile - 1
    requires Some(s.nextId) !in Ids(s.tasks) || |s.tasks| >= MaxTasksPerFile
    ensures Create(s, t).result == Err(CapacityExceeded)
    ensures Create(s, t).state.file == s.file
  {
  }

  /** ACTIVE and COMPLETED split the listed tasks, in order, and ALL lists them all. */
  lemma FilterPartition(s: Store)
    ensures Filter(s, Member(All)) == List(s)
    ensures multiset(Filter(s, Member(Active))) + multiset(Filter(s, Member(Completed))) == multiset(List(s))
    ensures |Filter(s, Member(Active))| + |Filter(s, Member(Completed))| == |List(s)|
  {
    SelectPartition(s.tasks);
  }
}

# daily_tasks core, modelled in Dafny

This project models the persistence core of the `daily_tasks` personal task tracker and proves properties of it:

- the `Task` record and the three-valued `TaskFilter` (`models.dfy`, module `Models`);
- the store contract's constructor checks (`task_repository.dfy`, module `TaskRepository`);
- the flat-file JSON store (`json_store.dfy`, module `JsonStore`);
- the SQLite store (`sqlite_store.dfy`, module `SqliteStore`);
- the contract's six operations, dispatched over both stores (`repository.dfy`, module `Repository`);
- the `TaskManager` orchestrator with its cached list of visible tasks (`task_manager.dfy`, module `TaskManager`).

`wrappers.dfy` holds `Option` and `Result`. A Python exception becomes an `Err` of the `Models.Error` datatype. A store call returns a `Step`: the state after the call, plus the value or the error. The state is kept even on error, because the JSON store changes its memory before a save can raise.

How each part is represented:

- **JSON store.** The insertion-ordered `dict` is a sequence of tasks with pairwise distinct ids. Each task is stored under its own `id`. Beside it sit the `next_id` counter and the content of the tasks file. Loading takes the already-parsed records.
- **SQLite table.** A sequence of rows in ascending rowid order. A new row gets the rowid of a table declared without AUTOINCREMENT: 1 when the table is empty, otherwise one more than the largest rowid in use.
- **Store contract.** The abstract base class `TaskRepository` becomes the closed sum `Repository.Store = Json(..) | Sqlite(..)`, with one function per operation. The orchestrator holds only this sum.
- **Filter argument.** Either an enumeration member (what the GTK front-end passes) or typed text (what the command-line front-end passes). The JSON store compares the argument with members; the SQLite store compares it with the members' string values.

Places where the code does something other than what one might assume. The model follows the code:

- JSON ids are count-based: `next_id = len(tasks) + 1`. A create after a delete can silently replace a stored task (`JsonStore.DeleteThenCreateOverwrites`).
- A JSON save at or above 2000 tasks raises after the in-memory change. Memory keeps the change; the file and the counter do not.
- Emptying the JSON store writes `[]` but keeps the counter, so a restart disagrees with memory about the next id.
- SQLite rowids are reused once the largest row is deleted. There is no AUTOINCREMENT (`SqliteStore.DeleteLargestThenCreateReusesId`).
- SQLite `delete_task` never checks that the id exists.
- Both stores ignore the id of the task passed to `create_task` and assign their own.
- No store checks that a title is non-empty.

## Model

| member | source | states |
|---|---|---|
| Models.NewTask | daily_tasks/models.py:39-52 | a task built without id and completed has `id = None` and `completed = false`; title and description are kept |
| Models.FilterFromValue | daily_tasks/models.py:30-36 | exactly the three strings "all", "completed", "active" name a member, and each names the member whose value it is |
| Models.FilterValuesRoundTrip | daily_tasks/models.py:30-36 | the three members have three distinct values, and looking a value up gives its member back |
| Models.Select | daily_tasks/repository/json_task_repository.py:151-156 | a filter result holds exactly the tasks of the input that match the category, and is no longer than the input |
| Models.SelectAppend | daily_tasks/repository/json_task_repository.py:151-154 | filtering distributes over concatenation, so the selected tasks keep their relative order |
| Models.SelectAllIsIdentity | daily_tasks/repository/json_task_repository.py:155-156 | the ALL category keeps every task, in order |
| Models.SelectPartition | daily_tasks/repository/json_task_repository.py:151-154 | ACTIVE and COMPLETED split any population: disjoint results whose multisets add up to the input, and whose lengths sum to its length |
| Models.PrefixTo | daily_tasks/models.py:61 | Python's `s[:stop]`: a prefix of `s` of length `min(stop, |s|)`, or `max(0, |s| + stop)` for a negative stop |
| Models.DescriptionDisplayText | daily_tasks/models.py:54-61 | the display text is a prefix of the description of length `min(|description|, limit)`, followed by "..." even when nothing was cut; a short description is shown whole; the default limit is 50 |
| Models.ApplyPatch | daily_tasks/repository/json_task_repository.py:109-110 | each supplied field takes the supplied value; every other field, and the id, keeps its old value |
| Models.ApplyPatchIdempotent | daily_tasks/repository/json_task_repository.py:109 | applying a patch twice equals applying it once; the empty patch changes nothing |
| TaskRepository.CheckConfig | daily_tasks/task_repository.py:13-21 | construction fails with the missing-settings error when settings are absent, with the missing-preferences error when only preferences are absent, and succeeds exactly when both are given |
| JsonStore.Find | daily_tasks/repository/json_task_repository.py:87 | the lookup yields the first position holding the key, or nothing exactly when the key is not stored |
| JsonStore.Get | daily_tasks/repository/json_task_repository.py:87-88 | `dict.get` yields a stored task with that key, or nothing exactly when the key is absent; with distinct keys it yields the one task stored under the key |
| JsonStore.Put | daily_tasks/repository/json_task_repository.py:73 | assigning under a key adds the key; a present key keeps its position and only that entry changes; an absent key is appended; keys stay distinct |
| JsonStore.Remove | daily_tasks/repository/json_task_repository.py:127 | popping a key removes exactly that entry, keeps the others in order, and shrinks a dict holding the key by one |
| JsonStore.PutAll | daily_tasks/repository/json_task_repository.py:44-46 | inserting records one by one stores every record's key and nothing else, and keeps keys distinct |
| JsonStore.PutAllKeeps | daily_tasks/repository/json_task_repository.py:44-46 | a stored task whose id no inserted record carries survives the inserts |
| JsonStore.PutAllLastWins | daily_tasks/repository/json_task_repository.py:44-46 | the last record carrying an id is the one kept under it: a later record with the same id replaces an earlier one |
| JsonStore.PutAllFresh | daily_tasks/repository/json_task_repository.py:44-46 | records with all-new distinct ids are appended unchanged and in order |
| JsonStore.Load | daily_tasks/repository/json_task_repository.py:39-47 | loading n records stores each under its own id, sets `next_id = n + 1` (repeats included), keeps the last record of every id, and returns records with distinct ids unchanged |
| JsonStore.LoadRepeatedIdKeepsLater | daily_tasks/repository/json_task_repository.py:44-47 | a file holding two records with the same id loads as the later record alone, with the counter at 3 |
| JsonStore.Open | daily_tasks/repository/json_task_repository.py:16-37 | base checks first, then missing JSON settings, then a missing tasks path; construction succeeds exactly when all of these are present; a missing file starts an empty store with counter 1; an existing file is loaded, keeping its records when their ids are distinct |
| JsonStore.Save | daily_tasks/repository/json_task_repository.py:49-60 | a save never touches memory; an empty dict writes `[]` and keeps the counter; 2000 tasks or more raises and leaves file and counter unchanged; otherwise the file equals memory and `next_id = size + 1` |
| JsonStore.Create | daily_tasks/repository/json_task_repository.py:62-75 | the task is stored under `next_id` with that id; a fresh key appends; an existing key is replaced in place, every other task keeping its position; success exactly below the ceiling, then file and counter are synced; on failure file and counter are unchanged |
| JsonStore.Read | daily_tasks/repository/json_task_repository.py:77-90 | reading succeeds exactly when the id is stored and returns the task stored under it; otherwise it is a not-found error for that id |
| JsonStore.Update | daily_tasks/repository/json_task_repository.py:92-112 | an absent id raises not-found and changes nothing; otherwise the task at its position is replaced by the patched task and the patched task is returned; success exactly below the ceiling |
| JsonStore.Delete | daily_tasks/repository/json_task_repository.py:114-130 | an absent id raises not-found and changes nothing; otherwise exactly the tasks with other ids remain, in their insertion order; removing the last task writes `[]` and keeps the counter |
| JsonStore.List | daily_tasks/repository/json_task_repository.py:132-139 | every stored task is listed: the listing has the store's size and ids; in a valid store the ids are distinct and each listed task is exactly what a read of its id returns |
| JsonStore.Filter | daily_tasks/repository/json_task_repository.py:141-156 | the ACTIVE member keeps the tasks that are not completed, the COMPLETED member keeps the completed ones, in order; any other argument, text included, returns every task |
| JsonStore.ReloadRoundTrip | daily_tasks/repository/json_task_repository.py:39-60 | restarting on the file a non-empty save wrote gives back the same tasks in the same order and the same counter |
| JsonStore.ReloadAfterEmptying | daily_tasks/repository/json_task_repository.py:51-54 | after deleting the only task, memory keeps its counter while a reload of the written `[]` starts at counter 1 |
| JsonStore.CreateAppendsWhenDense | daily_tasks/repository/json_task_repository.py:72-74 | while the ids are within 1..n and the counter is n + 1, a create appends the new task at the end |
| JsonStore.CreateOverwritesExisting | daily_tasks/repository/json_task_repository.py:72-73 | when the counter equals a stored id, a create leaves the size unchanged, drops the task stored there, puts the new task at its position, and keeps every other task |
| JsonStore.DeleteThenCreateOverwrites | daily_tasks/repository/json_task_repository.py:60-73 | with ids 1, 2, 3 loaded, deleting 1 sets the counter to 3, and the next create replaces task 3 |
| JsonStore.FullStoreRefusesCreate | daily_tasks/repository/json_task_repository.py:55-56 | a store holding 1999 tasks whose counter is a fresh key, or 2000 or more tasks, refuses every create and leaves the file as it was |
| JsonStore.FilterPartition | daily_tasks/repository/json_task_repository.py:141-156 | the ALL member lists everything, and the ACTIVE and COMPLETED members split the listing with no overlap and no omission |
| SqliteStore.Initialize | daily_tasks/repository/sqlite_task_repository.py:17-29 | creating the table if absent keeps an existing table's rows and starts a missing one empty |
| SqliteStore.Open | daily_tasks/repository/sqlite_task_repository.py:12-15 | base checks first, then missing SQLite settings fail; otherwise the table is initialised |
| SqliteStore.MaxId | daily_tasks/repository/sqlite_task_repository.py:23 | the largest rowid is a rowid in use, and no row has a larger one |
| SqliteStore.NextRowid | daily_tasks/repository/sqlite_task_repository.py:23 | the new rowid is 1 in an empty table and otherwise one more than the largest in use; it is larger than every rowid in use |
| SqliteStore.Create | daily_tasks/repository/sqlite_task_repository.py:31-40 | the insert always succeeds; the returned task has the given fields and the rowid of a table without AUTOINCREMENT (1 when empty, otherwise one more than the largest), which was not in use before; every old row stays; the listing gains the new task at its end |
| SqliteStore.ToTask | daily_tasks/repository/sqlite_task_repository.py:51 | a selected row becomes a task whose id is the row's rowid and whose title, description and completed flag are the row's columns |
| SqliteStore.FindRow | daily_tasks/repository/sqlite_task_repository.py:45-49 | the select by rowid finds the first row holding it, or nothing exactly when no row holds it |
| SqliteStore.Read | daily_tasks/repository/sqlite_task_repository.py:42-53 | the select succeeds exactly when the rowid is present and returns that row as a task; otherwise it is a not-found error for the id |
| SqliteStore.SetColumns | daily_tasks/repository/sqlite_task_repository.py:58-68 | setting the supplied columns on a row is the partial-patch update of the task it stands for |
| SqliteStore.UpdateRows | daily_tasks/repository/sqlite_task_repository.py:64-68 | the update patches every row with the addressed rowid, leaves every other row alone, and keeps every rowid |
| SqliteStore.Update | daily_tasks/repository/sqlite_task_repository.py:55-70 | an empty patch is a rejected statement that changes nothing; an absent id changes nothing and the re-read raises not-found; otherwise the returned task is what a re-read of the updated table gives, the stored one with the patch applied; other rows read as before |
| SqliteStore.UpdateRowsKeepsOthers | daily_tasks/repository/sqlite_task_repository.py:64-68 | after the update, every other rowid reads back as before |
| SqliteStore.UpdateRowsPatches | daily_tasks/repository/sqlite_task_repository.py:55-70 | the re-read after the update returns the addressed task with the patch applied |
| SqliteStore.Delete | daily_tasks/repository/sqlite_task_repository.py:72-76 | delete never fails; exactly the rows with other rowids remain; an absent id leaves the table unchanged; a present one removes one row |
| SqliteStore.DeleteRows | daily_tasks/repository/sqlite_task_repository.py:75 | the delete keeps exactly the rows with other rowids; an absent rowid leaves the rows unchanged |
| SqliteStore.DeleteRowsAscending | daily_tasks/repository/sqlite_task_repository.py:75 | the delete keeps the surviving rows in rowid order |
| SqliteStore.DeleteRowsCount | daily_tasks/repository/sqlite_task_repository.py:75 | with unique rowids, deleting a present rowid removes exactly one row |
| SqliteStore.List | daily_tasks/repository/sqlite_task_repository.py:78-83 | every row is listed, as a task, in rowid order |
| SqliteStore.Filter | daily_tasks/repository/sqlite_task_repository.py:85-101 | "all" lists every row; "completed" keeps the completed tasks and "active" the others, in rowid order |
| SqliteStore.DeleteLargestThenCreateReusesId | daily_tasks/repository/sqlite_task_repository.py:23 | after the row with the largest rowid m is deleted, the next insert gets a rowid of at most m, and exactly m when m - 1 is left below it |
| Repository.Open | daily_tasks/task_manager.py:40 | the chosen store is built exactly as its own constructor builds it, and succeeds exactly when that constructor does; base check failures propagate; a built store is valid; its listing is the tasks file's records when their ids are distinct, or the existing table's rows, and empty when neither file nor table exists |
| Repository.List | daily_tasks/task_repository.py:68-74 | every stored task is listed: a JSON listing has the store's size and ids, a SQLite listing one task per row; in every valid store the listed ids are pairwise distinct, and SQLite tasks always carry one |
| Repository.Create | daily_tasks/task_repository.py:23-32 | a created task keeps its fields, gets an id, is listed, and reads back equal in all fields; in the SQLite store the id is the table's next rowid; only the JSON store can fail, at its ceiling |
| Repository.Read | daily_tasks/task_repository.py:34-43 | reading succeeds exactly when the id is listed and returns the listed task with that id; otherwise it is not-found |
| Repository.Update | daily_tasks/task_repository.py:45-55 | a successful update returns the old task with exactly the supplied fields replaced, reads back so, keeps the listing's size and every other task; an absent id fails and changes nothing |
| Repository.Delete | daily_tasks/task_repository.py:57-66 | after a delete the id is never listed; a present id takes exactly its own task, shrinking the listing by one; only the JSON store refuses an absent id |
| Repository.Criterion | daily_tasks/repository/json_task_repository.py:151-156 | the category a store applies: the JSON store applies a member as itself and any text as ALL; the SQLite store applies the category whose value is the text |
| Repository.ArgumentFor | daily_tasks/repository/sqlite_task_repository.py:88-99 | for each category there is an argument the store accepts and applies as exactly that category: its value as text for the SQLite store, the member itself for the JSON store |
| Repository.Filter | daily_tasks/task_repository.py:76-85 | the filter result is the listing restricted to the category the store applies, in listing order |
| Repository.FilterPartition | daily_tasks/task_repository.py:68-85 | for either store, given the argument it applies as each category, ALL returns the listing, and ACTIVE and COMPLETED split it with no overlap and no omission |
| Repository.JsonIgnoresFilterText | daily_tasks/repository/json_task_repository.py:151-156 | typed text, even "active", makes the JSON store return every task |
| TaskManager.New | daily_tasks/task_manager.py:15-48 | settings, preferences, front-end class and store class are checked in that order; construction succeeds exactly when all four are present and the chosen store can be built, and holds that store; a built manager shows the full listing of its store: the tasks file's records when their ids are distinct, the existing table's rows, or nothing on a first start |
| TaskManager.ViewTaskByIndex | daily_tasks/task_manager.py:66-73 | the lookup reads the cached list with Python indexing: a negative index counts from the end, and anything outside the list is an index error |
| TaskManager.ViewByIndexIgnoresStore | daily_tasks/task_manager.py:73 | the lookup by position depends on the cached list alone, not on the store |
| TaskManager.ViewTaskById | daily_tasks/task_manager.py:75-82 | the lookup by id is the store's read: it succeeds exactly when the id is listed |
| TaskManager.FilterTasks | daily_tasks/task_manager.py:84-92 | the visible list becomes the store's filter result and is returned; the store is unchanged |
| TaskManager.Refresh | daily_tasks/task_manager.py:101-103 | after a store call that returned, the visible list is the full listing and is returned; after one that raised, the visible list is unchanged |
| TaskManager.CreateTask | daily_tasks/task_manager.py:94-103 | one create call, and the handler succeeds exactly when it does; on success the full listing is shown and contains the created task; on failure the visible list is kept |
| TaskManager.EditTask | daily_tasks/task_manager.py:105-115 | one update call, and the handler succeeds exactly when it does and fails with its error; on success the full listing is shown, with the patched task and every other task; an absent id changes nothing |
| TaskManager.DeleteTask | daily_tasks/task_manager.py:117-126 | one delete call, and the handler succeeds exactly when it does and fails with its error; on success the full listing is shown without the id, one shorter when the id was present |
| TaskManager.CompleteTask | daily_tasks/task_manager.py:128-137 | completing is editing with `completed = true`; on success the shown task with that id is completed |
| TaskManager.MutationDropsFilter | daily_tasks/task_manager.py:91-103 | a create after a filter shows the full listing again |
| TaskManager.BuyMilkScenario | daily_tasks/task_manager.py:94-137 | a run of the create, complete and delete handlers on either empty store: two creates get ids 1 and 2; completing the first makes it the only completed task; deleting it leaves exactly the second, unchanged |

## Left out

- File, JSON and SQL mechanics: paths, `os.makedirs`, encodings, JSON text, connections, commits and SQL text. The tasks file is the list of tasks it holds; the database is the table's rows.
- Failures of the medium itself (unreadable file, full disk, locked database): they would surface as Python exceptions outside the modelled errors.
- Progress messages printed by the JSON store and by `TaskManager.run`, which only wires callbacks into a front-end.
- Object aliasing: the JSON store returns and mutates the very objects it stores, and `create_task` writes the id into the caller's task. The orchestrator's visible list therefore holds the JSON store's own objects, so an update that raises at the capacity ceiling still changes the tasks on screen, although the list itself is kept. Here values are immutable, the returned task is a copy, and "the visible list is kept" means the list and its tasks are unchanged.
- Patch keys other than `title`, `description` and `completed`, including `id`. The patch has one optional slot per field.
- Repository.Filter: requires the argument to be accepted by the store. For the SQLite store that is one of the three enumeration values as text, because another argument runs no query and the result then depends on the driver.
- SqliteStore.Filter: requires one of the three enumeration values as text, for the same reason.
- TaskManager.FilterTasks: inherits that requirement from the store's filter.
- Repository.FilterPartition: holds for the argument each store applies as a category. The front-ends do not choose by store: the graphical one passes enumeration members to whichever store is built, and a member given to the SQLite store matches none of its three branches and reaches no query.
- SqliteStore.NextRowid: integers are unbounded, so the case where the largest rowid is 2^63 - 1 is not modelled. There SQLite picks an unused rowid at random.
- SQLite's storage of `completed` as an integer 0/1 is modelled as a boolean.
- The front-end built in `TaskManager.__init__`, and the front-ends, configuration loading and argument parsing: they are UI and startup wiring, not part of this core.
- Pydantic validation of settings and tasks: absent settings are modelled as `None` values, which the code checks explicitly.

/** The record types of `daily_tasks/models.py`: the task itself, the three-valued
    filter, the settings and preferences the stores are built from, and the partial
    update payload; plus the one pure function on a task, its display text. */
module Models {
  import opened Wrappers

  /** A to-do item. `id` is `None` until a store assigns one. */
  datatype Task = Task(id: Option<int>, title: string, description: string, completed: bool)

  /** Building a task the way the pydantic model does: no id, and `completed`
      false unless it is given. */
  function NewTask(title: string, description: string, completed: bool := false): (t: Task)
    ensures t.id == None
    ensures t.title == title && t.description == description
    ensures t.completed == completed
  {
    Task(None, title, description, completed)
  }

  /** The ids a sequence of tasks carries. */
  function Ids(ts: seq<Task>): set<Option<int>>
  {
    set t | t in ts :: t.id
  }

  /** No two tasks of the sequence share an id. */
  predicate DistinctIds(ts: seq<Task>)
  {
    forall i, j :: 0 <= i < j < |ts| ==> ts[i].id != ts[j].id
  }

  /** The enumeration `TaskFilter`. */
  datatype TaskFilter = All | Completed | Active

  /** The string value each enumeration member carries. */
  function FilterValue(f: TaskFilter): (s: string)
    ensures |s| > 0
  {
    match f
    case All => "all"
    case Completed => "completed"
    case Active => "active"
  }

  /** Looking a member up by its value (`TaskFilter(s)` in Python). */
  function FilterFromValue(s: string): (r: Option<TaskFilter>)
    ensures r.Some? <==> s in {"all", "completed", "active"}
    ensures r.Some? ==> FilterValue(r.value) == s
  {
    if s == "all" then Some(All)
    else if s == "completed" then Some(Completed)
    else if s == "active" then Some(Active)
    else None
  }

  /** The enumeration has three members with three distinct values, and each value
      names its member back. */
  lemma FilterValuesRoundTrip(f: TaskFilter, g: TaskFilter)
    ensures FilterFromValue(FilterValue(f)) == Some(f)
    ensures FilterValue(f) == FilterValue(g) ==> f == g
  {
  }

  /** The argument a filter call receives. The graphical front-end passes
      enumeration members; the command-line one passes the text the user typed.
      The two stores compare against different ones of these. */
  datatype FilterArg = Member(filter: TaskFilter) | Text(text: string)

  /** Whether a task belongs to the set a filter selects. */
  predicate Matches(f: TaskFilter, t: Task)
  {
    match f
    case All => true
    case Completed => t.completed
    case Active => !t.completed
  }

  /** The tasks of `ts` a filter keeps, in their original order. */
  function Select(ts: seq<Task>, f: TaskFilter): (r: seq<Task>)
    ensures |r| <= |ts|
    ensures forall t :: t in r <==> t in ts && Matches(f, t)
  {
    if |ts| == 0 then []
    else if Matches(f, ts[0]) then [ts[0]] + Select(ts[1..], f)
    else Select(ts[1..], f)
  }

  /** Filtering distributes over concatenation, so a filter keeps the relative
      order of the tasks it selects. */
  lemma {:induction false} SelectAppend(a: seq<Task>, b: seq<Task>, f: TaskFilter)
    ensures Select(a + b, f) == Select(a, f) + Select(b, f)
  {
    if |a| == 0 {
      assert a + b == b;
    } else {
      assert (a + b)[1..] == a[1..] + b;
      SelectAppend(a[1..], b, f);
    }
  }

  /** ALL keeps everything. */
  lemma {:induction false} SelectAllIsIdentity(ts: seq<Task>)
    ensures Select(ts, All) == ts
  {
    if |ts| > 0 {
      SelectAllIsIdentity(ts[1..]);
    }
  }

  /** ACTIVE and COMPLETED split any population into two disjoint parts that
      together hold every task exactly once. */
  lemma {:induction false} SelectPartition(ts: seq<Task>)
    ensures multiset(Select(ts, Active)) + multiset(Select(ts, Completed)) == multiset(ts)
    ensures |Select(ts, Active)| + |Select(ts, Completed)| == |ts|
    ensures forall t :: t in Select(ts, Active) ==> t !in Select(ts, Completed)
  {
    if |ts| > 0 {
      SelectPartition(ts[1..]);
      assert ts == [ts[0]] + ts[1..];
    }
  }

  /** Python's `s[:stop]`: a negative stop counts from the end, and either way the
      cut is clamped to the string. */
  function PrefixTo(s: string, stop: int): (r: string)
    ensures r <= s
    ensures stop >= 0 ==> |r| == if stop < |s| then stop else |s|
    ensures stop < 0 ==> |r| == if |s| + stop > 0 then |s| + stop else 0
  {
    if stop >= 0 then
      (if stop < |s| then s[..stop] else s)
    else
      (if |s| + stop > 0 then s[..|s| + stop] else [])
  }

  const Ellipsis: string := "..."
  const DefaultDisplayLimit: int := 50

  /** `Task.description_display_text`: the description cut at `limit` and always
      followed by an ellipsis, even when nothing was cut. */
  function DescriptionDisplayText(t: Task, limit: int := DefaultDisplayLimit): (r: string)
    ensures |r| >= 3 && r[|r| - 3..] == "..."
    ensures r[..|r| - 3] <= t.description
    ensures limit >= 0 ==> |r| == (if limit < |t.description| then limit else |t.description|) + 3
    ensures |t.description| <= limit ==> r == t.description + "..."
  {
    PrefixTo(t.description, limit) + Ellipsis
  }

  /** The partial update a caller passes to `update_task`: one optional slot per
      field a caller may change; an empty slot leaves the field alone. */
  datatype Patch = Patch(title: Option<string>, description: Option<string>, completed: Option<bool>)

  const NoChange: Patch := Patch(None, None, None)

  /** The payload `handle_complete_task` sends: `{'completed': True}`. */
  const MarkCompleted: Patch := Patch(None, None, Some(true))

  predicate IsEmptyPatch(p: Patch)
  {
    p.title.None? && p.description.None? && p.completed.None?
  }

  /** Applying a patch: every supplied field is overwritten, every other field,
      and the id, keep their values. */
  function ApplyPatch(t: Task, p: Patch): (r: Task)
    ensures r.id == t.id
    ensures p.title.None? ==> r.title == t.title
    ensures p.title.Some? ==> r.title == p.title.value
    ensures p.description.None? ==> r.description == t.description
    ensures p.description.Some? ==> r.description == p.description.value
    ensures p.completed.None? ==> r.completed == t.completed
    ensures p.completed.Some? ==> r.completed == p.completed.value
  {
    Task(t.id,
         if p.title.Some? then p.title.value else t.title,
         if p.description.Some? then p.description.value else t.description,
         if p.completed.Some? then p.completed.value else t.completed)
  }

  /** A patch applied twice has the effect of applying it once, and the empty
      patch changes nothing. */
  lemma ApplyPatchIdempotent(t: Task, p: Patch)
    ensures ApplyPatch(ApplyPatch(t, p), p) == ApplyPatch(t, p)
    ensures IsEmptyPatch(p) ==> ApplyPatch(t, p) == t
    ensures ApplyPatch(t, NoChange) == t
  {
  }

  datatype JsonSettings = JsonSettings(tasksPath: Option<string>)
  datatype SqliteSettings = SqliteSettings(dbPath: string)

  /** The resolved settings. The JSON part is optional here because the JSON store
      checks for its absence explicitly. */
  datatype Settings = Settings(jsonSettings: Option<JsonSettings>, sqliteSettings: Option<SqliteSettings>)

  datatype GtkUiPreferences = GtkUiPreferences(
    defaultWindowWidth: int, defaultWindowHeight: int, maxWindowWidth: int, maxWindowHeight: int)

  datatype Preferences = Preferences(gtkUi: GtkUiPreferences)

  /** Every failure the core raises. In the source the missing-argument checks,
      `NotFound` and `CapacityExceeded` are a `ValueError`; `MissingSqliteSettings`
      is an attribute lookup on a missing value, `MalformedUpdate` is the SQLite
      driver rejecting an `UPDATE` with an empty `SET`, and `IndexOutOfRange` is a
      list index error. The kinds are kept apart here so that contracts can say
      which one is raised. */
  datatype Error =
    | MissingSettings
    | MissingPreferences
    | MissingJsonSettings
    | MissingTasksPath
    | MissingSqliteSettings
    | MissingGuiClass
    | MissingRepositoryClass
    | NotFound(id: int)
    | CapacityExceeded
    | MalformedUpdate
    | IndexOutOfRange(index: int)
}

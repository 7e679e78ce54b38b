/** What `daily_tasks/task_repository.py` fixes for every store: the settings and
    preferences a store is built from must both be present, and each store call
    either returns a value or raises, possibly after changing the store's state. */
module TaskRepository {
  import opened Wrappers
  import opened Models

  /** The validated construction arguments of a store. */
  datatype Config = Config(settings: Settings, preferences: Preferences)

  /** The base constructor: settings are checked before preferences. */
  function CheckConfig(settings: Option<Settings>, preferences: Option<Preferences>): (r: Result<Config, Error>)
    ensures settings.None? <==> r == Err(MissingSettings)
    ensures settings.Some? && preferences.None? <==> r == Err(MissingPreferences)
    ensures r.Ok? <==> settings.Some? && preferences.Some?
    ensures r.Ok? ==> r.value == Config(settings.value, preferences.value)
  {
    if settings.None? then Err(MissingSettings)
    else if preferences.None? then Err(MissingPreferences)
    else Ok(Config(settings.value, preferences.value))
  }

  /** The effect of one store call on a store of state type `S`: the state
      afterwards, and the value returned or the error raised. The state is part
      of the outcome even on error, because a store may have changed its memory
      before it raised. */
  datatype Step<S, T> = Step(state: S, result: Result<T, Error>)
}

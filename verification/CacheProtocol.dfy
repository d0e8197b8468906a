/**
 The JWKS cache under concurrency: any number of calls, one provider lifecycle and
 an environment that changes the published document, interleaved step by step.

 A step is one atomic section of the source, so a run is any interleaving the two
 mutexes and the atomic pointer allow. The scheduled refresh does not take the
 `refreshing` mutex: its steps never look at `holder`.
 */
module CacheProtocol {
  import opened Wrappers
  import opened KeySet

  type CallId = nat

  /** Nanoseconds: the scheduled interval and the client timeout of one fetch. */
  datatype Timing = Timing(refresh: nat, timeout: nat)

  /** Where one Authenticate call stands. `at` is the generation its first lookup missed in. */
  datatype Phase =
    | NotReady
    | Called(kid: string, alg: string)
    | Queued(kid: string, alg: string, at: nat)
    | Deciding(kid: string, alg: string, at: nat)
    | Marking(kid: string, alg: string, at: nat, now: int)
    | Fetching(kid: string, alg: string, at: nat, begun: int, answer: Option<Response>)
    | LookingAgain(kid: string, alg: string, at: nat)
    | Answered(kid: string, alg: string, key: Option<Key>, fetchFailed: bool, locked: bool)
  {
    /** The call is inside the `refreshing` mutex. */
    predicate Locked() {
      Deciding? || Marking? || Fetching? || LookingAgain? || (Answered? && locked)
    }
  }

  datatype Scheduler =
    | Discovering
    | Loading(loadBegun: int, loaded: Option<Response>)
    | Sleeping(since: int)
    | Refreshing(since: int, begun: int, answer: Option<Response>)
    | Stopped

  datatype State = State(
    time: int,
    published: seq<Entry>,
    cache: Option<Cache>,
    holder: Option<CallId>,
    calls: map<CallId, Phase>,
    scheduler: Scheduler)

  datatype Step =
    // the environment
    | Publish(entries: seq<Entry>)
    | Tick(to: int)
    // the provider lifecycle
    | LoadBegin
    | LoadAnswer(response: Response)
    | LoadFinish
    | Wake
    | ScheduledAnswer(response: Response)
    | ScheduledFinish
    | Stop
    // one call
    | Authenticate(id: CallId, kid: string, alg: string)
    | FirstLookup(id: CallId)
    | Acquire(id: CallId)
    | Decide(id: CallId, now: int)
    | Mark(id: CallId)
    | FetchAnswer(id: CallId, response: Response)
    | FetchFinish(id: CallId)
    | SecondLookup(id: CallId)
    | Return(id: CallId)

  /** A response a fetch can get now: any failure, or the document as it is published now. */
  predicate Served(response: Response, published: seq<Entry>) {
    Fetched(response).Some? ==> response.document == Some(published)
  }

  /** A fetch the provider has answered finishes even when the context ends meanwhile. */
  predicate InFlight(scheduler: Scheduler) {
    (scheduler.Loading? && scheduler.loaded.Some?) || (scheduler.Refreshing? && scheduler.answer.Some?)
  }

  ghost predicate Enabled(timing: Timing, s: State, step: Step) {
    match step
    case Publish(_) => true
    case Tick(to) => s.time <= to
    case LoadBegin => s.scheduler.Discovering?
    case LoadAnswer(r) => s.scheduler.Loading? && s.scheduler.loaded.None? && Served(r, s.published)
    case LoadFinish => s.scheduler.Loading? && s.scheduler.loaded.Some?
    case Wake => s.scheduler.Sleeping? && s.scheduler.since + timing.refresh <= s.time
    case ScheduledAnswer(r) => s.scheduler.Refreshing? && s.scheduler.answer.None? && Served(r, s.published)
    case ScheduledFinish => s.scheduler.Refreshing? && s.scheduler.answer.Some? && s.cache.Some?
    case Stop => !InFlight(s.scheduler)
    case Authenticate(id, _, _) => id !in s.calls
    case FirstLookup(id) => id in s.calls && s.calls[id].Called? && s.cache.Some?
    case Acquire(id) => id in s.calls && s.calls[id].Queued? && s.holder.None?
    case Decide(id, _) => id in s.calls && s.calls[id].Deciding? && s.cache.Some?
    case Mark(id) => id in s.calls && s.calls[id].Marking? && s.cache.Some?
    case FetchAnswer(id, r) =>
      id in s.calls && s.calls[id].Fetching? && s.calls[id].answer.None? && Served(r, s.published)
    case FetchFinish(id) =>
      id in s.calls && s.calls[id].Fetching? && s.calls[id].answer.Some? && s.cache.Some?
    case SecondLookup(id) => id in s.calls && s.calls[id].LookingAgain? && s.cache.Some?
    case Return(id) => id in s.calls && (s.calls[id].Answered? || s.calls[id].NotReady?)
  }

  /** `authenticator.Authenticate` reads the key set pointer once; nil is not ready. */
  function Entered(s: State, kid: string, alg: string): Phase {
    if s.cache.None? then NotReady else Called(kid, alg)
  }

  function AfterFirstLookup(cache: Cache, kid: string, alg: string): Phase {
    match FindKey(cache.keys, kid, alg)
    case Some(key) => Answered(kid, alg, Some(key), false, false)
    case None => Queued(kid, alg, cache.generation)
  }

  function AfterDecision(cache: Cache, p: Phase, now: int): Phase
    requires p.Deciding?
  {
    if Stale(cache, p.at, now) then Marking(p.kid, p.alg, p.at, now) else LookingAgain(p.kid, p.alg, p.at)
  }

  function AfterFetch(p: Phase): Phase
    requires p.Fetching? && p.answer.Some?
  {
    if Fetched(p.answer.value).Some? then LookingAgain(p.kid, p.alg, p.at)
    else Answered(p.kid, p.alg, None, true, true)
  }

  ghost function Apply(timing: Timing, s: State, step: Step): State
    requires Enabled(timing, s, step)
  {
    match step
    case Publish(entries) => s.(published := entries)
    case Tick(to) => s.(time := to)
    case LoadBegin => s.(scheduler := Loading(s.time, None))
    case LoadAnswer(r) => s.(scheduler := Loading(s.scheduler.loadBegun, Some(r)))
    case LoadFinish =>
      // A key set is private to the loader until it is handed over, loaded; a failed
      // attempt is dropped and discovery starts over.
      if Fetched(s.scheduler.loaded.value).None? then s.(scheduler := Discovering)
      else s.(cache := Some(Refreshed(EMPTY_CACHE, s.scheduler.loaded.value)), scheduler := Sleeping(s.time))
    case Wake => s.(scheduler := Refreshing(s.scheduler.since, s.time, None))
    case ScheduledAnswer(r) => s.(scheduler := Refreshing(s.scheduler.since, s.scheduler.begun, Some(r)))
    case ScheduledFinish =>
      s.(cache := Some(Refreshed(s.cache.value, s.scheduler.answer.value)), scheduler := Sleeping(s.time))
    case Stop => s.(scheduler := Stopped)
    case Authenticate(id, kid, alg) => s.(calls := s.calls[id := Entered(s, kid, alg)])
    case FirstLookup(id) =>
      s.(calls := s.calls[id := AfterFirstLookup(s.cache.value, s.calls[id].kid, s.calls[id].alg)])
    case Acquire(id) =>
      var p := s.calls[id];
      s.(holder := Some(id), calls := s.calls[id := Deciding(p.kid, p.alg, p.at)])
    case Decide(id, now) => s.(calls := s.calls[id := AfterDecision(s.cache.value, s.calls[id], now)])
    case Mark(id) =>
      var p := s.calls[id];
      s.(cache := Some(s.cache.value.(missFetched := p.now)),
         calls := s.calls[id := Fetching(p.kid, p.alg, p.at, s.time, None)])
    case FetchAnswer(id, r) => s.(calls := s.calls[id := s.calls[id].(answer := Some(r))])
    case FetchFinish(id) =>
      s.(cache := Some(Refreshed(s.cache.value, s.calls[id].answer.value)),
         calls := s.calls[id := AfterFetch(s.calls[id])])
    case SecondLookup(id) =>
      var p := s.calls[id];
      s.(calls := s.calls[id := Answered(p.kid, p.alg, FindKey(s.cache.value.keys, p.kid, p.alg), false, true)])
    case Return(id) =>
      s.(calls := s.calls - {id}, holder := if s.calls[id].Locked() then None else s.holder)
  }

  ghost predicate Initial(s: State) {
    s.cache.None? && s.holder.None? && s.calls == map[] && s.scheduler.Discovering?
  }

  /** A finite run: every state but the first is its predecessor with the step applied. */
  datatype Run = Run(timing: Timing, states: seq<State>, steps: seq<Step>)

  ghost predicate Valid(r: Run) {
    && |r.states| == |r.steps| + 1
    && Initial(r.states[0])
    && forall i :: 0 <= i < |r.steps| ==> Moves(r, i)
  }

  ghost predicate Moves(r: Run, i: int)
    requires 0 <= i < |r.steps| < |r.states|
  {
    Enabled(r.timing, r.states[i], r.steps[i])
    && r.states[i + 1] == Apply(r.timing, r.states[i], r.steps[i])
  }

  // ---------------------------------------------------------------- invariant

  /** The mutex is exactly where `holder` says. */
  ghost predicate Exclusive(s: State) {
    && (s.holder.Some? ==> s.holder.value in s.calls && s.calls[s.holder.value].Locked())
    && forall id :: id in s.calls && s.calls[id].Locked() ==> s.holder == Some(id)
  }

  /** Handed over means loaded, and stays so; before that every call is turned away. */
  ghost predicate Loaded(s: State) {
    && (s.scheduler.Discovering? || s.scheduler.Loading? ==> s.cache.None?)
    && (s.scheduler.Sleeping? || s.scheduler.Refreshing? ==> s.cache.Some?)
    && (s.cache.None? ==> forall id :: id in s.calls ==> s.calls[id].NotReady?)
    && (s.cache.Some? ==> Trustworthy(s.cache.value.keys))
  }

  /** What a call still knows about the cache it missed in. */
  ghost predicate Informed(cache: Cache, p: Phase) {
    && (p.Queued? || p.Deciding? || p.Marking? || p.Fetching? ==>
          p.at <= cache.generation
          && (p.at == cache.generation ==> FindKey(cache.keys, p.kid, p.alg).None?))
    && (p.Marking? ==> p.now - cache.missFetched >= MIN_REFRESH_INTERVAL)
  }

  ghost predicate Known(s: State) {
    s.cache.Some? ==> forall id :: id in s.calls ==> Informed(s.cache.value, s.calls[id])
  }

  ghost predicate Inv(s: State) {
    Exclusive(s) && Loaded(s) && Known(s)
  }

  lemma ExclusiveKept(timing: Timing, s: State, step: Step)
    requires Exclusive(s) && Enabled(timing, s, step)
    ensures Exclusive(Apply(timing, s, step))
  {
  }

  lemma LoadedKept(timing: Timing, s: State, step: Step)
    requires Loaded(s) && Enabled(timing, s, step)
    ensures Loaded(Apply(timing, s, step))
  {
    match step {
      case LoadFinish =>
        if Fetched(s.scheduler.loaded.value).Some? {
          FetchedTrustworthy(s.scheduler.loaded.value);
        }
      case ScheduledFinish =>
        if Fetched(s.scheduler.answer.value).Some? {
          FetchedTrustworthy(s.scheduler.answer.value);
        }
      case FetchFinish(id) =>
        if Fetched(s.calls[id].answer.value).Some? {
          FetchedTrustworthy(s.calls[id].answer.value);
        }
      case _ =>
    }
  }

  lemma KnownKept(timing: Timing, s: State, step: Step)
    requires Inv(s) && Enabled(timing, s, step)
    ensures Known(Apply(timing, s, step))
  {
  }

  lemma {:induction false} InvHolds(r: Run, i: nat)
    requires Valid(r) && i < |r.states|
    ensures Inv(r.states[i])
  {
    if i > 0 {
      InvHolds(r, i - 1);
      assert Moves(r, i - 1);
      ExclusiveKept(r.timing, r.states[i - 1], r.steps[i - 1]);
      LoadedKept(r.timing, r.states[i - 1], r.steps[i - 1]);
      KnownKept(r.timing, r.states[i - 1], r.steps[i - 1]);
    }
  }
}

/** What every interleaving of the cache protocol guarantees. */
module CacheTheorems {
  import opened Wrappers
  import opened KeySet
  import opened CacheProtocol

  // ------------------------------------------------------------ generations

  /** Once handed over, a cache is never taken back, and its generation only grows. */
  lemma {:induction false} GenerationsGrow(r: Run, i: nat, j: nat)
    requires Valid(r) && i <= j < |r.states| && r.states[i].cache.Some?
    ensures r.states[j].cache.Some?
    ensures r.states[i].cache.value.generation <= r.states[j].cache.value.generation
    ensures r.states[i].cache.value.generation == r.states[j].cache.value.generation ==>
              r.states[i].cache.value.keys == r.states[j].cache.value.keys
    decreases j
  {
    if i < j {
      GenerationsGrow(r, i, j - 1);
      assert Moves(r, j - 1);
      InvHolds(r, j - 1);
    }
  }

  /** Equal generations mean equal caches, in every interleaving. */
  lemma EqualGenerationsEqualCaches(r: Run, i: nat, j: nat)
    requires Valid(r) && i < |r.states| && j < |r.states|
    requires r.states[i].cache.Some? && r.states[j].cache.Some?
    requires r.states[i].cache.value.generation == r.states[j].cache.value.generation
    ensures r.states[i].cache.value.keys == r.states[j].cache.value.keys
  {
    if i <= j {
      GenerationsGrow(r, i, j);
    } else {
      GenerationsGrow(r, j, i);
    }
  }

  // ---------------------------------------------------------------- answers

  /** The call is under way, without a break, from state i to state j. */
  ghost predicate DuringCall(r: Run, id: CallId, i: nat, j: nat) {
    i <= j < |r.states| && forall m :: i <= m <= j ==> id in r.states[m].calls
  }

  /** In state m the cache holds, or does not hold, a key for the header. */
  ghost predicate Holds(r: Run, m: nat, kid: string, alg: string, key: Option<Key>)
    requires m < |r.states|
  {
    r.states[m].cache.Some? && FindKey(r.states[m].cache.value.keys, kid, alg) == key
  }

  /**
   A key a call verifies with was in the cache when one of the call's lookups took it,
   under that non-empty kid and with an alg the header is compatible with.
   */
  lemma {:induction false} UsedKeyWasCached(r: Run, j: nat, id: CallId) returns (i: nat)
    requires Valid(r) && j < |r.states| && id in r.states[j].calls
    requires r.states[j].calls[id].Answered? && r.states[j].calls[id].key.Some?
    ensures DuringCall(r, id, i, j) && i < j && (r.steps[i] == FirstLookup(id) || r.steps[i] == SecondLookup(id))
    ensures var p := r.states[j].calls[id];
            && Holds(r, i, p.kid, p.alg, p.key)
            && p.kid != "" && p.key.value in r.states[i].cache.value.keys && p.key.value.kid == p.kid
            && (p.key.value.alg == "" || p.key.value.alg == p.alg)
            && p.key.value.isPublic && p.key.value.use != "enc"
  {
    assert j > 0;
    assert Moves(r, j - 1);
    InvHolds(r, j - 1);
    var before := r.states[j - 1];
    if id in before.calls && before.calls[id] == r.states[j].calls[id] {
      i := UsedKeyWasCached(r, j - 1, id);
    } else {
      i := j - 1;
    }
  }

  /** A call past its first lookup looked, inside the call, in a cache without its key. */
  lemma {:induction false} MissedAtFirst(r: Run, j: nat, id: CallId) returns (i: nat)
    requires Valid(r) && j < |r.states| && id in r.states[j].calls
    requires var p := r.states[j].calls[id];
             p.Queued? || p.Deciding? || p.Marking? || p.Fetching? || p.LookingAgain?
    ensures DuringCall(r, id, i, j) && i < j && r.steps[i] == FirstLookup(id)
    ensures var p := r.states[j].calls[id];
            Holds(r, i, p.kid, p.alg, None) && r.states[i].cache.value.generation == p.at
  {
    assert j > 0;
    assert Moves(r, j - 1);
    var before := r.states[j - 1];
    if before.calls[id].Called? {
      i := j - 1;
    } else {
      i := MissedAtFirst(r, j - 1, id);
    }
  }

  /** The step at i ends the call's own fetch, without keys. */
  ghost predicate OwnFetchFailed(r: Run, i: nat, id: CallId)
    requires Valid(r) && i < |r.states|
  {
    i < |r.steps| && r.steps[i] == FetchFinish(id)
    && (assert Moves(r, i); Fetched(r.states[i].calls[id].answer.value).None?)
  }

  /** No key of that kid the header could use is cached in state m. */
  ghost predicate Lacks(r: Run, m: nat, kid: string, alg: string)
    requires m < |r.states|
  {
    && r.states[m].cache.Some?
    && (kid == "" || forall key :: key in r.states[m].cache.value.keys ==>
                                     key.kid != kid || (key.alg != "" && key.alg != alg))
  }

  /** The step that refuses a call: its second lookup without the key, or the end of its fetch without keys. */
  lemma RefusingStep(r: Run, j: nat, id: CallId)
    requires Valid(r) && j < |r.states| && id in r.states[j].calls && r.states[j].calls[id].Answered?
    requires r.states[j].calls[id].key.None?
    ensures j > 0 && id in r.states[j - 1].calls
    ensures var before, p := r.states[j - 1].calls[id], r.states[j].calls[id];
            || before == p
            || (&& (before.Fetching? || before.LookingAgain?) && before.kid == p.kid && before.alg == p.alg
                && if p.fetchFailed then OwnFetchFailed(r, j - 1, id)
                   else r.steps[j - 1] == SecondLookup(id) && Holds(r, j - 1, p.kid, p.alg, None))
  {
    assert j > 0;
    assert Moves(r, j - 1);
    InvHolds(r, j - 1);
  }

  /**
   `errUnknownKey`: the key was absent at the first lookup, and later in the same call
   it was absent again or the call's own fetch failed.
   */
  lemma {:induction false} UnknownKeyMeansAbsent(r: Run, j: nat, id: CallId) returns (first: nat, second: nat)
    requires Valid(r) && j < |r.states| && id in r.states[j].calls
    requires r.states[j].calls[id].Answered? && r.states[j].calls[id].key.None?
    ensures DuringCall(r, id, first, j) && first < second < j && r.steps[first] == FirstLookup(id)
    ensures var p := r.states[j].calls[id];
            && Holds(r, first, p.kid, p.alg, None) && Lacks(r, first, p.kid, p.alg)
            && if p.fetchFailed then OwnFetchFailed(r, second, id)
               else && r.steps[second] == SecondLookup(id)
                    && Holds(r, second, p.kid, p.alg, None) && Lacks(r, second, p.kid, p.alg)
  {
    RefusingStep(r, j, id);
    if r.states[j - 1].calls[id] == r.states[j].calls[id] {
      first, second := UnknownKeyMeansAbsent(r, j - 1, id);
    } else {
      second := j - 1;
      first := MissedAtFirst(r, j - 1, id);
    }
  }

  /** A call looking again has fetched, or decided not to. */
  lemma {:induction false} WhyLookingAgain(r: Run, j: nat, id: CallId) returns (d: nat)
    requires Valid(r) && j < |r.states| && id in r.states[j].calls && r.states[j].calls[id].LookingAgain?
    ensures d < j && id in r.states[d].calls
    ensures || (r.steps[d] == FetchFinish(id) && r.states[d].calls[id].Fetching?)
            || (r.steps[d].Decide? && r.steps[d].id == id && r.states[d].calls[id].Deciding? && r.states[d].cache.Some?
                && !Stale(r.states[d].cache.value, r.states[d].calls[id].at, r.steps[d].now))
    ensures DuringCall(r, id, d, j)
  {
    assert j > 0;
    assert Moves(r, j - 1);
    var before := r.states[j - 1];
    if before.calls[id].LookingAgain? {
      d := WhyLookingAgain(r, j - 1, id);
    } else {
      d := j - 1;
    }
  }

  /**
   The step of a refused call that settles whether it fetches: the end of a fetch of its own,
   or a decision not to.
   */
  lemma {:induction false} WhyRefused(r: Run, j: nat, id: CallId) returns (d: nat)
    requires Valid(r) && j < |r.states| && id in r.states[j].calls
    requires r.states[j].calls[id].Answered? && r.states[j].calls[id].key.None?
    ensures d < j && id in r.states[d].calls
    ensures || (r.steps[d] == FetchFinish(id) && r.states[d].calls[id].Fetching?)
            || (r.steps[d].Decide? && r.steps[d].id == id && r.states[d].calls[id].Deciding? && r.states[d].cache.Some?
                && !Stale(r.states[d].cache.value, r.states[d].calls[id].at, r.steps[d].now))
    ensures DuringCall(r, id, d, j)
  {
    assert j > 0;
    assert Moves(r, j - 1);
    InvHolds(r, j - 1);
    var before := r.states[j - 1];
    if id in before.calls && before.calls[id] == r.states[j].calls[id] {
      d := WhyRefused(r, j - 1, id);
    } else if before.calls[id].LookingAgain? {
      d := WhyLookingAgain(r, j - 1, id);
    } else {
      d := j - 1;
    }
  }

  /**
   A call is refused after a fetch of its own; or the cache changed between its first lookup
   and its decision; or its reading of the clock was within the interval of the last
   miss-driven fetch.
   */
  lemma RefusedAfterFetchUnless(r: Run, j: nat, id: CallId) returns (first: nat, d: nat)
    requires Valid(r) && j < |r.states| && id in r.states[j].calls
    requires r.states[j].calls[id].Answered? && r.states[j].calls[id].key.None?
    ensures DuringCall(r, id, first, j) && first < d < j && r.steps[first] == FirstLookup(id)
    ensures r.states[first].cache.Some? && r.states[d].cache.Some?
    ensures || r.steps[d] == FetchFinish(id)
            || (&& r.steps[d].Decide? && r.steps[d].id == id
                && (|| r.states[first].cache.value.generation < r.states[d].cache.value.generation
                    || r.steps[d].now - r.states[d].cache.value.missFetched < 10_000_000_000))
  {
    d := WhyRefused(r, j, id);
    first := MissedAtFirst(r, d, id);
    GenerationsGrow(r, first, d);
  }

  // -------------------------------------------------------- uninterrupted call

  /** The steps of a call's own fetch, from the decision to make it. */
  function FetchSteps(id: CallId, response: Response): seq<Step> {
    [Mark(id)] + ([FetchAnswer(id, response)]
                  + ([FetchFinish(id)] + if Fetched(response).Some? then [SecondLookup(id)] else []))
  }

  /** The steps of a call that has missed. */
  function MissSteps(cache: Cache, id: CallId, now: int, response: Response): seq<Step> {
    [Acquire(id)] + ([Decide(id, now)]
                     + if Stale(cache, cache.generation, now) then FetchSteps(id, response) else [SecondLookup(id)])
  }

  /** The steps one call takes, given what it finds on the way. */
  function CallSteps(cache: Cache, id: CallId, kid: string, alg: string, now: int, response: Response): seq<Step> {
    [FirstLookup(id)]
    + if FindKey(cache.keys, kid, alg).Some? then [] else MissSteps(cache, id, now, response)
  }

  /** The steps are enabled one after another from s, and lead to t. */
  ghost predicate Leads(timing: Timing, s: State, steps: seq<Step>, t: State)
    decreases |steps|
  {
    if steps == [] then s == t
    else Enabled(timing, s, steps[0]) && Leads(timing, Apply(timing, s, steps[0]), steps[1..], t)
  }

  lemma LeadsOn(timing: Timing, s: State, step: Step, rest: seq<Step>, t: State)
    requires Enabled(timing, s, step) && Leads(timing, Apply(timing, s, step), rest, t)
    ensures Leads(timing, s, [step] + rest, t)
  {
    assert ([step] + rest)[1..] == rest;
  }

  lemma LeadsLast(timing: Timing, s: State, step: Step)
    requires Enabled(timing, s, step)
    ensures Leads(timing, s, [step], Apply(timing, s, step))
  {
    assert [step][1..] == [];
  }

  lemma FetchingCall(timing: Timing, s: State, id: CallId, response: Response) returns (t: State)
    requires s.cache.Some? && id in s.calls && s.calls[id].Marking? && Served(response, s.published)
    ensures Leads(timing, s, FetchSteps(id, response), t)
    ensures var p, cache := s.calls[id], Refreshed(s.cache.value.(missFetched := s.calls[id].now), response);
            && t.cache == Some(cache) && id in t.calls && t.calls[id].Answered?
            && t.calls[id].key == if Fetched(response).None? then None else FindKey(cache.keys, p.kid, p.alg)
  {
    var s1 := Apply(timing, s, Mark(id));
    var s2 := Apply(timing, s1, FetchAnswer(id, response));
    var s3 := Apply(timing, s2, FetchFinish(id));
    var last: seq<Step> := if Fetched(response).Some? then [SecondLookup(id)] else [];
    if Fetched(response).Some? {
      t := Apply(timing, s3, SecondLookup(id));
      LeadsLast(timing, s3, SecondLookup(id));
    } else {
      t := s3;
    }
    LeadsOn(timing, s2, FetchFinish(id), last, t);
    LeadsOn(timing, s1, FetchAnswer(id, response), [FetchFinish(id)] + last, t);
    LeadsOn(timing, s, Mark(id), [FetchAnswer(id, response)] + ([FetchFinish(id)] + last), t);
  }

  /** What the call does from the point where it has missed. */
  lemma MissedCall(timing: Timing, s: State, id: CallId, kid: string, alg: string, now: int, response: Response)
    returns (t: State)
    requires s.cache.Some? && s.holder.None? && id in s.calls && Served(response, s.published)
    requires s.calls[id] == Queued(kid, alg, s.cache.value.generation)
    ensures Leads(timing, s, MissSteps(s.cache.value, id, now, response), t)
    ensures t.cache == Some(AfterMiss(s.cache.value, s.cache.value.generation, now, response))
    ensures id in t.calls && t.calls[id].Answered?
            && t.calls[id].key == KeyAfterMiss(s.cache.value, kid, alg, s.cache.value.generation, now, response)
  {
    var s1 := Apply(timing, s, Acquire(id));
    var s2 := Apply(timing, s1, Decide(id, now));
    var steps: seq<Step>;
    if Stale(s.cache.value, s.cache.value.generation, now) {
      t := FetchingCall(timing, s2, id, response);
      steps := FetchSteps(id, response);
    } else {
      t := Apply(timing, s2, SecondLookup(id));
      steps := [SecondLookup(id)];
      LeadsLast(timing, s2, SecondLookup(id));
    }
    LeadsOn(timing, s1, Decide(id, now), steps, t);
    LeadsOn(timing, s, Acquire(id), [Decide(id, now)] + steps, t);
  }

  /**
   Without interleaving the steps of a call do to the cache, and answer, exactly what the
   cache object's own methods do: the object and the protocol are one design.
   */
  lemma UninterruptedCall(timing: Timing, s: State, id: CallId, kid: string, alg: string, now: int, response: Response)
    returns (t: State)
    requires s.cache.Some? && s.holder.None? && id in s.calls && s.calls[id] == Called(kid, alg)
    requires Served(response, s.published)
    ensures Leads(timing, s, CallSteps(s.cache.value, id, kid, alg, now, response), t)
    ensures id in t.calls && t.calls[id].Answered?
    ensures var cache, found := s.cache.value, FindKey(s.cache.value.keys, kid, alg);
            if found.Some? then t.cache == Some(cache) && t.calls[id].key == found
            else t.cache == Some(AfterMiss(cache, cache.generation, now, response))
                 && t.calls[id].key == KeyAfterMiss(cache, kid, alg, cache.generation, now, response)
  {
    var s1 := Apply(timing, s, FirstLookup(id));
    if FindKey(s.cache.value.keys, kid, alg).Some? {
      t := s1;
      LeadsOn(timing, s, FirstLookup(id), [], t);
    } else {
      t := MissedCall(timing, s1, id, kid, alg, now, response);
      LeadsOn(timing, s, FirstLookup(id), MissSteps(s.cache.value, id, now, response), t);
    }
  }

  // ---------------------------------------------------------- miss-driven fetches

  /** Each decision to fetch is taken while the cache lacks the wanted key. */
  lemma FetchDecidedOnMiss(r: Run, i: nat, id: CallId, now: int)
    requires Valid(r) && i < |r.steps| && r.steps[i] == Decide(id, now) && Moves(r, i)
    requires r.states[i + 1].calls[id].Marking?
    ensures Holds(r, i, r.states[i].calls[id].kid, r.states[i].calls[id].alg, None)
  {
    InvHolds(r, i);
  }

  /** At most one miss-driven fetch is in flight: two are one. */
  lemma OneMissFetchAtATime(r: Run, i: nat, a: CallId, b: CallId)
    requires Valid(r) && i < |r.states| && a in r.states[i].calls && b in r.states[i].calls
    requires r.states[i].calls[a].Fetching? && r.states[i].calls[b].Fetching?
    ensures a == b
  {
    InvHolds(r, i);
  }

  lemma {:induction false} MissFetchedGrows(r: Run, i: nat, j: nat)
    requires Valid(r) && i <= j < |r.states| && r.states[i].cache.Some?
    ensures r.states[j].cache.Some?
    ensures r.states[i].cache.value.missFetched <= r.states[j].cache.value.missFetched
    decreases j
  {
    if i < j {
      MissFetchedGrows(r, i, j - 1);
      InvHolds(r, j - 1);
      assert Moves(r, j - 1);
    }
  }

  /** The clock reading with which a miss-driven fetch begins. */
  ghost function Reading(r: Run, i: nat): int
    requires Valid(r) && i < |r.steps| && r.steps[i].Mark?
  {
    assert Moves(r, i);
    r.states[i].calls[r.steps[i].id].now
  }

  /**
   Whatever the clock does, the readings at which two miss-driven fetches begin are at
   least the interval apart, and in the order of the fetches.
   */
  lemma MissFetchesAreSpaced(r: Run, i: nat, j: nat)
    requires Valid(r) && i < j < |r.steps| && r.steps[i].Mark? && r.steps[j].Mark?
    ensures Reading(r, j) - Reading(r, i) >= 10_000_000_000
  {
    assert Moves(r, i);
    assert Moves(r, j);
    InvHolds(r, j);
    MissFetchedGrows(r, i + 1, j);
  }

  /** After a successful miss-driven fetch every pending one missed in a later generation. */
  lemma {:induction false} LaterMissesAreNewer(r: Run, i: nat, j: nat, id: CallId)
    requires Valid(r) && i < j < |r.states| && r.steps[i] == FetchFinish(id)
    requires Moves(r, i) && Fetched(r.states[i].calls[id].answer.value).Some?
    ensures r.states[j].cache.Some? && r.states[j].cache.value.generation > r.states[i].calls[id].at
    ensures forall other :: other in r.states[j].calls
                            && (r.states[j].calls[other].Marking? || r.states[j].calls[other].Fetching?) ==>
                              r.states[j].calls[other].at > r.states[i].calls[id].at
    decreases j
  {
    InvHolds(r, j - 1);
    InvHolds(r, j);
    if i + 1 < j {
      LaterMissesAreNewer(r, i, j - 1, id);
      assert Moves(r, j - 1);
    }
  }

  /** Each generation has at most one successful miss-driven fetch. */
  lemma OneSuccessPerGeneration(r: Run, i: nat, j: nat, a: CallId, b: CallId)
    requires Valid(r) && i < j < |r.steps| && r.steps[i] == FetchFinish(a) && r.steps[j] == FetchFinish(b)
    requires Moves(r, i) && Moves(r, j)
    requires Fetched(r.states[i].calls[a].answer.value).Some?
    ensures r.states[i].calls[a].at < r.states[j].calls[b].at
  {
    LaterMissesAreNewer(r, i, j, a);
  }

  // -------------------------------------------------------------- readiness

  /** Once ready: a non-empty cache of public signing keys, and no call is turned away. */
  lemma ReadyForGood(r: Run, i: nat, j: nat)
    requires Valid(r) && i <= j < |r.states| && r.states[i].cache.Some?
    ensures r.states[j].cache.Some? && Trustworthy(r.states[j].cache.value.keys)
    ensures j < |r.steps| && r.steps[j].Authenticate? ==>
              Moves(r, j) && r.states[j + 1].calls[r.steps[j].id].Called?
  {
    GenerationsGrow(r, i, j);
    InvHolds(r, j);
    if j < |r.steps| {
      assert Moves(r, j);
    }
  }

  /** A failed fetch, scheduled or miss-driven, changes neither keys nor generation. */
  lemma FailedFetchKeepsCache(r: Run, i: nat)
    requires Valid(r) && i < |r.steps| && Moves(r, i)
    requires match r.steps[i]
             case ScheduledFinish => Fetched(r.states[i].scheduler.answer.value).None?
             case FetchFinish(id) => Fetched(r.states[i].calls[id].answer.value).None?
             case _ => false
    ensures r.states[i + 1].cache == r.states[i].cache
  {
  }

  // ------------------------------------------------------------- revocation

  /**
   Time passes only as far as the client timeout lets a fetch run and the timer lets the
   scheduler sleep: what follows a finished fetch or an expired timer takes no time.
   */
  ghost predicate MayPass(timing: Timing, s: State, to: int) {
    && (s.scheduler.Sleeping? ==> to <= s.scheduler.since + timing.refresh)
    && (s.scheduler.Refreshing? ==> to <= s.scheduler.begun + timing.timeout)
    && (s.scheduler.Loading? ==> to <= s.scheduler.loadBegun + timing.timeout)
    && forall id :: id in s.calls && s.calls[id].Fetching? ==> to <= s.calls[id].begun + timing.timeout
  }

  ghost predicate Punctual(r: Run)
    requires Valid(r)
  {
    forall i :: 0 <= i < |r.steps| && r.steps[i].Tick? ==> MayPass(r.timing, r.states[i], r.steps[i].to)
  }

  /** The process keeps running and no scheduled refresh fails. */
  ghost predicate RefreshesSucceed(r: Run)
    requires Valid(r)
  {
    forall i :: 0 <= i < |r.steps| ==> RefreshSucceeds(r.states[i], r.steps[i])
  }

  ghost predicate RefreshSucceeds(s: State, step: Step) {
    && !step.Stop?
    && (step.ScheduledFinish? && s.scheduler.Refreshing? && s.scheduler.answer.Some? ==>
          Fetched(s.scheduler.answer.value).Some?)
  }

  /** The provider removes the key at `removed` and never publishes it again. */
  ghost predicate RemovedAt(r: Run, key: Key, removed: int) {
    forall i :: 0 <= i < |r.states| && Some(key) in r.states[i].published ==> r.states[i].time <= removed
  }

  ghost predicate Carries(response: Response, key: Key) {
    Fetched(response).Some? && key in Fetched(response).value
  }

  /** Deadlines that hold whether or not a key has been removed. */
  ghost predicate OnTime(timing: Timing, s: State) {
    && (s.scheduler.Sleeping? ==> s.scheduler.since <= s.time <= s.scheduler.since + timing.refresh)
    && (s.scheduler.Refreshing? ==>
          s.scheduler.since <= s.scheduler.begun <= s.time <= s.scheduler.begun + timing.timeout
          && s.scheduler.begun <= s.scheduler.since + timing.refresh)
    && (s.scheduler.Loading? ==> s.scheduler.loadBegun <= s.time <= s.scheduler.loadBegun + timing.timeout)
    && forall id :: id in s.calls && s.calls[id].Fetching? ==>
                      s.calls[id].begun <= s.time <= s.calls[id].begun + timing.timeout
  }

  /**
   Every answer under way that carries the key belongs to a fetch begun by the removal;
   while the key is cached, the scheduler's current cycle began at most one timeout later.
   */
  ghost predicate Draining(timing: Timing, s: State, key: Key, removed: int) {
    && !s.scheduler.Stopped?
    && (s.scheduler.Refreshing? && s.scheduler.answer.Some? && Carries(s.scheduler.answer.value, key) ==>
          s.scheduler.begun <= removed)
    && (s.scheduler.Loading? && s.scheduler.loaded.Some? && Carries(s.scheduler.loaded.value, key) ==>
          s.scheduler.loadBegun <= removed)
    && (forall id | id in s.calls && s.calls[id].Fetching? && s.calls[id].answer.Some?
                    && Carries(s.calls[id].answer.value, key) :: s.calls[id].begun <= removed)
    && (s.cache.Some? && key in s.cache.value.keys ==>
          (s.scheduler.Sleeping? || s.scheduler.Refreshing?) && s.scheduler.since <= removed + timing.timeout)
  }

  lemma OnTimeKept(timing: Timing, s: State, step: Step)
    requires Enabled(timing, s, step) && OnTime(timing, s)
    requires step.Tick? ==> MayPass(timing, s, step.to)
    ensures OnTime(timing, Apply(timing, s, step))
  {
  }

  lemma ServedCarries(response: Response, published: seq<Entry>, key: Key)
    requires Served(response, published) && Carries(response, key)
    ensures Some(key) in published
  {
    SigningKeysExact(published, key);
  }

  /** An answer with the key was given by the removal, so its fetch had begun by then. */
  lemma DrainingAnswered(timing: Timing, s: State, step: Step, key: Key, removed: int)
    requires step.ScheduledAnswer? || step.FetchAnswer? || step.LoadAnswer?
    requires Enabled(timing, s, step) && OnTime(timing, s) && Draining(timing, s, key, removed)
    requires Some(key) in s.published ==> s.time <= removed
    ensures Draining(timing, Apply(timing, s, step), key, removed)
  {
    if Carries(step.response, key) {
      ServedCarries(step.response, s.published, key);
    }
  }

  /** An installed answer with the key keeps it for the cycle it ends or falls in. */
  lemma DrainingInstalled(timing: Timing, s: State, step: Step, key: Key, removed: int)
    requires step.LoadFinish? || step.ScheduledFinish? || step.FetchFinish?
    requires Enabled(timing, s, step) && Loaded(s) && OnTime(timing, s) && Draining(timing, s, key, removed)
    requires RefreshSucceeds(s, step)
    ensures Draining(timing, Apply(timing, s, step), key, removed)
  {
  }

  lemma DrainingScheduled(timing: Timing, s: State, step: Step, key: Key, removed: int)
    requires step.Publish? || step.Tick? || step.LoadBegin? || step.Wake?
    requires Enabled(timing, s, step) && Loaded(s) && Draining(timing, s, key, removed)
    ensures Draining(timing, Apply(timing, s, step), key, removed)
  {
  }

  lemma DrainingCalled(timing: Timing, s: State, step: Step, key: Key, removed: int)
    requires step.Authenticate? || step.FirstLookup? || step.Acquire? || step.Decide? || step.Mark?
             || step.SecondLookup? || step.Return?
    requires Enabled(timing, s, step) && Draining(timing, s, key, removed)
    ensures Draining(timing, Apply(timing, s, step), key, removed)
  {
  }

  lemma DrainingKept(timing: Timing, s: State, step: Step, key: Key, removed: int)
    requires Enabled(timing, s, step) && Loaded(s) && OnTime(timing, s) && Draining(timing, s, key, removed)
    requires RefreshSucceeds(s, step)
    requires Some(key) in s.published ==> s.time <= removed
    ensures Draining(timing, Apply(timing, s, step), key, removed)
  {
    if step.ScheduledAnswer? || step.FetchAnswer? || step.LoadAnswer? {
      DrainingAnswered(timing, s, step, key, removed);
    } else if step.LoadFinish? || step.ScheduledFinish? || step.FetchFinish? {
      DrainingInstalled(timing, s, step, key, removed);
    } else if step.Publish? || step.Tick? || step.LoadBegin? || step.Wake? {
      DrainingScheduled(timing, s, step, key, removed);
    } else {
      DrainingCalled(timing, s, step, key, removed);
    }
  }

  lemma {:induction false} DrainingHolds(r: Run, i: nat, key: Key, removed: int)
    requires Valid(r) && Punctual(r) && RefreshesSucceed(r) && RemovedAt(r, key, removed) && i < |r.states|
    ensures OnTime(r.timing, r.states[i]) && Draining(r.timing, r.states[i], key, removed)
  {
    if i > 0 {
      DrainingHolds(r, i - 1, key, removed);
      InvHolds(r, i - 1);
      assert Moves(r, i - 1) && RefreshSucceeds(r.states[i - 1], r.steps[i - 1]);
      OnTimeKept(r.timing, r.states[i - 1], r.steps[i - 1]);
      DrainingKept(r.timing, r.states[i - 1], r.steps[i - 1], key, removed);
    }
  }

  /**
   Whatever miss-driven fetches race with the scheduler, a removed key is absent from the
   cache at every instant later than the removal plus one interval plus two timeouts.
   */
  lemma RevokedInTime(r: Run, i: nat, key: Key, removed: int)
    requires Revocation(r, key, removed) && i < |r.states|
    requires r.states[i].time > removed + r.timing.refresh + 2 * r.timing.timeout
    requires r.states[i].cache.Some?
    ensures key !in r.states[i].cache.value.keys
  {
    DrainingHolds(r, i, key, removed);
  }

  /** The hypotheses under which the source promises an end to a removed key's trust. */
  ghost predicate Revocation(r: Run, key: Key, removed: int) {
    Valid(r) && Punctual(r) && RefreshesSucceed(r) && RemovedAt(r, key, removed)
  }

  ghost function Last(r: Run): State
    requires |r.states| > 0
  {
    r.states[|r.states| - 1]
  }

  /** One more step keeps a run within the hypotheses. */
  lemma Extended(r: Run, step: Step, key: Key, removed: int) returns (longer: Run)
    requires Revocation(r, key, removed) && Enabled(r.timing, Last(r), step)
    requires step.Tick? ==> MayPass(r.timing, Last(r), step.to)
    requires RefreshSucceeds(Last(r), step)
    requires var s := Apply(r.timing, Last(r), step); Some(key) in s.published ==> s.time <= removed
    ensures Revocation(longer, key, removed) && longer.timing == r.timing
    ensures longer.states == r.states + [Apply(r.timing, Last(r), step)] && longer.steps == r.steps + [step]
    ensures Last(longer) == Apply(r.timing, Last(r), step)
  {
    longer := Run(r.timing, r.states + [Apply(r.timing, Last(r), step)], r.steps + [step]);
    forall i | 0 <= i < |longer.steps| ensures Moves(longer, i) {
      if i < |r.steps| {
        assert Moves(r, i);
      }
    }
    forall i | 0 <= i < |longer.steps| ensures RefreshSucceeds(longer.states[i], longer.steps[i]) {
      if i < |r.steps| {
        assert RefreshSucceeds(r.states[i], r.steps[i]);
      }
    }
  }

  function JWKS(key: Key): Response {
    Answer(STATUS_OK, 1, Some([Some(key)]))
  }

  lemma JWKSCarries(key: Key)
    requires Usable(key)
    ensures Fetched(JWKS(key)) == Some([key])
  {
    var entries: seq<Entry> := [Some(key)];
    assert entries[..0] == [] && entries[0] == Some(key);
    assert SigningKeys(entries) == [] + [key] == [key];
    assert JWKS(key).document == Some(entries);
  }

  /** No call in the run begins a fetch, and whenever call 0 is under way the key is published. */
  ghost predicate Waits(r: Run, next: Key) {
    && (forall i :: 0 <= i < |r.steps| ==> !r.steps[i].Mark?)
    && (forall i :: 0 <= i < |r.states| && 0 in r.states[i].calls ==> Some(next) in r.states[i].published)
  }

  lemma Loads(timing: Timing, key: Key, removed: int) returns (r: Run)
    requires Usable(key) && removed >= 0
    ensures Revocation(r, key, removed) && r.timing == timing
    ensures Last(r) == State(0, [Some(key)], Some(Cache([key], 1, 0)), None, map[], Sleeping(0))
    ensures forall next :: Waits(r, next)
  {
    JWKSCarries(key);
    r := Run(timing, [State(0, [Some(key)], None, None, map[], Discovering)], []);
    r := Extended(r, LoadBegin, key, removed);
    r := Extended(r, LoadAnswer(JWKS(key)), key, removed);
    r := Extended(r, LoadFinish, key, removed);
  }

  /** The first half of the slowest drain: a scheduled fetch is answered just before the removal. */
  lemma AnsweredBeforeRemoval(timing: Timing, key: Key, next: Key) returns (r: Run)
    requires Usable(key) && key != next
    ensures Revocation(r, key, timing.refresh) && r.timing == timing
    ensures Last(r) == State(timing.refresh + timing.timeout, [Some(next)], Some(Cache([key], 2, 0)), None, map[],
                             Sleeping(timing.refresh + timing.timeout))
  {
    var n, t := timing.refresh, timing.timeout;
    JWKSCarries(key);
    r := Loads(timing, key, n);
    r := Extended(r, Tick(n), key, n);
    r := Extended(r, Wake, key, n);
    r := Extended(r, ScheduledAnswer(JWKS(key)), key, n);
    r := Extended(r, Publish([Some(next)]), key, n);
    r := Extended(r, Tick(n + t), key, n);
    r := Extended(r, ScheduledFinish, key, n);
  }

  /** The bound of RevokedInTime is attained: at that very instant the key is still trusted. */
  lemma BoundAttained(timing: Timing) returns (r: Run, i: nat, key: Key, removed: int)
    ensures r.timing == timing && Revocation(r, key, removed)
    ensures i < |r.states| && r.states[i].cache.Some? && key in r.states[i].cache.value.keys
    ensures r.states[i].time == removed + timing.refresh + 2 * timing.timeout
  {
    var n, t := timing.refresh, timing.timeout;
    var next: Key;
    key, next, removed := Key("a", "", "sig", true, 0), Key("b", "", "sig", true, 1), n;
    r := AnsweredBeforeRemoval(timing, key, next);
    JWKSCarries(next);
    r := Extended(r, Tick(2 * n + t), key, n);
    r := Extended(r, Wake, key, n);
    r := Extended(r, ScheduledAnswer(JWKS(next)), key, n);
    r := Extended(r, Tick(2 * n + 2 * t), key, n);
    i := |r.states| - 1;
  }

  /**
   The documentation promises that a removed key stops being trusted within the interval.
   With scheduled refreshes succeeding, that promise holds for exactly the timings whose
   fetches take no time at all. A timeout of zero here is that instant fetch, the limit of
   ever shorter ones; Go's HTTP client reads a zero timeout as none.
   */
  lemma DocumentedBoundNeedsInstantFetches(timing: Timing)
    ensures timing.timeout == 0 <==>
            forall r: Run, i: nat, key: Key, removed: int ::
              (r.timing == timing && Revocation(r, key, removed) && i < |r.states| && r.states[i].cache.Some?
               && r.states[i].time > removed + timing.refresh) ==> key !in r.states[i].cache.value.keys
  {
    if timing.timeout == 0 {
      forall r: Run, i: nat, key: Key, removed: int |
        r.timing == timing && Revocation(r, key, removed) && i < |r.states| && r.states[i].cache.Some?
        && r.states[i].time > removed + timing.refresh
        ensures key !in r.states[i].cache.value.keys
      {
        RevokedInTime(r, i, key, removed);
      }
    } else {
      var r, i, key, removed := BoundAttained(timing);
    }
  }

  lemma Waited(r: Run, step: Step, key: Key, removed: int, next: Key) returns (longer: Run)
    requires Revocation(r, key, removed) && Waits(r, next) && Enabled(r.timing, Last(r), step) && !step.Mark?
    requires step.Tick? ==> MayPass(r.timing, Last(r), step.to)
    requires RefreshSucceeds(Last(r), step)
    requires var s := Apply(r.timing, Last(r), step);
             (Some(key) in s.published ==> s.time <= removed) && (0 in s.calls ==> Some(next) in s.published)
    ensures Revocation(longer, key, removed) && Waits(longer, next) && longer.timing == r.timing
    ensures longer.states == r.states + [Last(longer)] && longer.steps == r.steps + [step]
    ensures Last(longer) == Apply(r.timing, Last(r), step)
  {
    longer := Extended(r, step, key, removed);
  }

  /** A scheduled fetch is answered, and only then a second key published. */
  lemma AnsweredBeforePublication(timing: Timing, key: Key, next: Key) returns (r: Run)
    requires Usable(key)
    ensures Revocation(r, key, timing.refresh) && r.timing == timing && Waits(r, next)
    ensures Last(r) == State(timing.refresh, [Some(key), Some(next)], Some(Cache([key], 1, 0)), None, map[],
                             Refreshing(0, timing.refresh, Some(JWKS(key))))
  {
    var n := timing.refresh;
    JWKSCarries(key);
    r := Loads(timing, key, n);
    r := Waited(r, Tick(n), key, n, next);
    r := Waited(r, Wake, key, n, next);
    r := Waited(r, ScheduledAnswer(JWKS(key)), key, n, next);
    r := Waited(r, Publish([Some(key), Some(next)]), key, n, next);
  }

  /** The call misses, and the answer without its key is installed. */
  lemma MissedBeforeInstallation(timing: Timing, key: Key, next: Key) returns (r: Run)
    requires Usable(key) && key.kid != next.kid
    ensures Revocation(r, key, timing.refresh) && r.timing == timing && Waits(r, next)
    ensures Last(r) == State(timing.refresh, [Some(key), Some(next)], Some(Cache([key], 2, 0)), None,
                             map[0 := Queued(next.kid, "RS256", 1)], Sleeping(timing.refresh))
  {
    var n := timing.refresh;
    JWKSCarries(key);
    r := AnsweredBeforePublication(timing, key, next);
    r := Waited(r, Authenticate(0, next.kid, "RS256"), key, n, next);
    r := Waited(r, FirstLookup(0), key, n, next);
    r := Waited(r, ScheduledFinish, key, n, next);
  }

  /**
   The documentation promises that a token whose kid is not cached makes the collector fetch
   before refusing it. Here no call ever fetches, the clock is past the interval, the key is
   published before the call begins, and the call is refused: a scheduled refresh answered
   before the publication changes the cache between its lookup and its decision.
   */
  lemma RefusedWithoutFetch(timing: Timing, next: Key, now: int) returns (r: Run, d: nat)
    requires now >= MIN_REFRESH_INTERVAL && next.kid != ""
    ensures Valid(r) && r.timing == timing && Waits(r, next) && d < |r.steps|
    ensures r.steps[d] == Decide(0, now) && r.states[d].cache.Some?
    ensures now - r.states[d].cache.value.missFetched >= MIN_REFRESH_INTERVAL
    ensures Last(r).calls == map[0 := Answered(next.kid, "RS256", None, false, true)]
  {
    var key := Key(next.kid + "a", "", "sig", true, 0);
    var n := timing.refresh;
    assert |key.kid| > |next.kid|;
    r := MissedBeforeInstallation(timing, key, next);
    r := Waited(r, Acquire(0), key, n, next);
    d := |r.steps|;
    r := Waited(r, Decide(0, now), key, n, next);
    r := Waited(r, SecondLookup(0), key, n, next);
  }
}

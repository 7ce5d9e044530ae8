/** The JWKS cache of the token validator as a protocol of interleaved tasks.
    The code of one call between two suspensions is one step; which task moves,
    how far the clock advances and what a fetch returns are chosen freely. */
module JwksCache {
  import opened Common

  datatype Key = Key(material: string)
  type TaskId = nat

  const DEFAULT_CACHE_SECONDS := 60
  const COOLDOWN := 5.0

  /** What a cache-control header says, as far as the cache reads it. */
  datatype CacheControl = NoStore | MaxAge(seconds: nat) | Unspecified

  datatype Response = Failed | Parsed(keys: map<string, Key>, control: CacheControl)

  function Min(a: int, b: int): int { if a <= b then a else b }

  function CacheSeconds(control: CacheControl, hardMaximum: nat): (seconds: int)
    ensures 0 <= seconds <= hardMaximum
  {
    match control
    case NoStore => 0
    case MaxAge(s) => Min(s, hardMaximum)
    case Unspecified => Min(DEFAULT_CACHE_SECONDS, hardMaximum)
  }

  /** A completed fetch: its keys, the clock reading and the step it completed at. */
  datatype Fetch = Fetch(keys: map<string, Key>, stamp: real, at: nat)

  /** Where a call began: its first clock reading and its step. */
  datatype Start = Start(reading: real, at: nat)

  datatype Reason =
    | FetchFailed
    | Cancelled
    | NotInFetch(fetch: Fetch)
    | CoolingDown(since: real, reading: real)

  /** One call that looks for the key `kid`. */
  datatype Task =
    | Waiting(kid: string, start: Start, unknown: bool)
    | Fetching(kid: string, start: Start, unknown: bool)
    | Returned(kid: string, start: Start, key: Key, fetch: Fetch)
    | Raised(kid: string, start: Start, why: Reason)

  datatype State = State(
    hardMaximum: nat,
    keys: map<string, Key>,
    expiresAt: real,
    lastUnknown: Option<real>,
    holder: Option<TaskId>,
    tasks: map<TaskId, Task>,
    // history
    clock: real,
    step: nat,
    stored: Option<Fetch>,
    fetches: set<Fetch>,
    admitted: seq<real>)

  datatype Step =
    | Begin(id: TaskId, kid: string, reading: real)
    | Enter(id: TaskId, reading: real)
    | Finish(id: TaskId, response: Response, reading: real)
    | Cancel(id: TaskId)

  ghost predicate Initial(s: State)
  {
    s.keys == map[] && s.expiresAt == 0.0 && s.lastUnknown.None? && s.holder.None? && s.tasks == map[] &&
    s.stored.None? && s.fetches == {} && s.admitted == [] && s.step == 0
  }

  ghost predicate Enabled(s: State, e: Step)
  {
    match e
    case Begin(id, _, reading) => id !in s.tasks && reading >= s.clock
    case Enter(id, reading) => id in s.tasks && s.tasks[id].Waiting? && s.holder.None? && reading >= s.clock
    case Finish(id, _, reading) => id in s.tasks && s.tasks[id].Fetching? && reading >= s.clock
    case Cancel(id) => id in s.tasks && (s.tasks[id].Waiting? || s.tasks[id].Fetching?)
  }

  /** The first lookup of a call: a hit returns, a miss goes on to the refresh
      for an unknown key. */
  ghost function Lookup(s: State, id: TaskId, kid: string, start: Start): State
  {
    s.(tasks := s.tasks[id :=
      if kid in s.keys && s.stored.Some? then Returned(kid, start, s.keys[kid], s.stored.value)
      else Waiting(kid, start, true)])
  }

  /** The last lookup of a call: a hit returns, a miss raises. */
  ghost function Settle(s: State, id: TaskId, kid: string, start: Start, why: Reason): State
  {
    s.(tasks := s.tasks[id :=
      if kid in s.keys && s.stored.Some? then Returned(kid, start, s.keys[kid], s.stored.value)
      else Raised(kid, start, why)])
  }

  ghost predicate Cooling(s: State, now: real)
  {
    s.lastUnknown.Some? && now - s.lastUnknown.value < COOLDOWN
  }

  /** A successful fetch replaces keys and expiry together and frees the lock. */
  ghost function Renewed(s: State, response: Response, now: real): (after: State)
    requires response.Parsed?
    ensures after.stored.Some?
  {
    var fetch := Fetch(response.keys, now, s.step);
    s.(holder := None, keys := response.keys, stored := Some(fetch), fetches := s.fetches + {fetch},
       expiresAt := now + CacheSeconds(response.control, s.hardMaximum) as real, clock := now, step := s.step + 1)
  }

  ghost function Apply(s: State, e: Step): State
    requires Enabled(s, e)
  {
    var later := s.(step := s.step + 1, clock := if e.Cancel? then s.clock else e.reading);
    match e
    case Begin(id, kid, now) =>
      var start := Start(now, s.step);
      if now >= s.expiresAt then later.(tasks := s.tasks[id := Waiting(kid, start, false)])
      else Lookup(later, id, kid, start)
    case Enter(id, now) =>
      var t := s.tasks[id];
      var fetching := later.(holder := Some(id), tasks := s.tasks[id := Fetching(t.kid, t.start, t.unknown)]);
      if t.unknown then
        if Cooling(s, now) then Settle(later, id, t.kid, t.start, CoolingDown(s.lastUnknown.value, now))
        else fetching.(lastUnknown := Some(now), admitted := s.admitted + [now])
      else if now < s.expiresAt then Lookup(later, id, t.kid, t.start)
      else fetching
    case Finish(id, response, now) =>
      var t := s.tasks[id];
      if response.Failed? then later.(holder := None, tasks := s.tasks[id := Raised(t.kid, t.start, FetchFailed)])
      else
        var renewed := Renewed(s, response, now);
        if t.unknown then Settle(renewed, id, t.kid, t.start, NotInFetch(renewed.stored.value))
        else Lookup(renewed, id, t.kid, t.start)
    case Cancel(id) =>
      var t := s.tasks[id];
      later.(holder := if t.Fetching? then None else s.holder,
             tasks := s.tasks[id := Raised(t.kid, t.start, Cancelled)])
  }

  // ----- invariants of every run -----

  /** The cache holds the last completed fetch, for at most the allowed time. */
  ghost predicate CacheInv(s: State)
  {
    match s.stored
    case None => s.keys == map[] && s.expiresAt == 0.0
    case Some(f) =>
      && s.keys == f.keys && f in s.fetches && f.at < s.step && f.stamp <= s.clock
      && s.expiresAt <= f.stamp + s.hardMaximum as real
  }

  /** A fetch was stored while the call was running. */
  ghost predicate StoredSince(s: State, start: Start)
  {
    s.stored.Some? && s.stored.value.at >= start.at
  }

  ghost predicate Fresh(hardMaximum: nat, start: Start, fetch: Fetch)
  {
    fetch.at >= start.at || start.reading - fetch.stamp < hardMaximum as real
  }

  ghost predicate TaskInv(s: State, t: Task)
  {
    && t.start.at < s.step && t.start.reading <= s.clock
    && match t
       case Waiting(kid, start, unknown) => PendingInv(s, kid, start, unknown)
       case Fetching(kid, start, unknown) => PendingInv(s, kid, start, unknown)
       case Returned(kid, start, key, fetch) =>
         fetch in s.fetches && fetch.at < s.step && kid in fetch.keys && fetch.keys[kid] == key &&
         Fresh(s.hardMaximum, start, fetch)
       case Raised(kid, start, why) =>
         match why
         case NotInFetch(f) => f in s.fetches && f.at >= start.at && kid !in f.keys
         case CoolingDown(since, reading) => since in s.admitted && since <= reading < since + COOLDOWN &&
                                             start.reading <= reading <= s.clock
         case _ => true
  }

  ghost predicate PendingInv(s: State, kid: string, start: Start, unknown: bool)
  {
    StoredSince(s, start) || if unknown then kid !in s.keys else start.reading >= s.expiresAt
  }

  /** The lock holder is the one task that is fetching. */
  ghost predicate LockInv(s: State)
  {
    && (forall id :: id in s.tasks ==> (s.tasks[id].Fetching? <==> s.holder == Some(id)))
    && (s.holder.Some? ==> s.holder.value in s.tasks)
  }

  /** Admitted refreshes for unknown keys are at least one cooldown apart. */
  predicate Spaced(times: seq<real>)
  {
    forall i :: 0 < i < |times| ==> times[i] - times[i - 1] >= COOLDOWN
  }

  ghost predicate RateInv(s: State)
  {
    && Spaced(s.admitted)
    && s.lastUnknown == (if s.admitted == [] then None else Some(s.admitted[|s.admitted| - 1]))
    && (s.lastUnknown.Some? ==> s.lastUnknown.value <= s.clock)
  }

  ghost predicate Inv(s: State)
  {
    CacheInv(s) && LockInv(s) && RateInv(s) && forall id :: id in s.tasks ==> TaskInv(s, s.tasks[id])
  }

  lemma StepKeepsCache(s: State, e: Step)
    requires CacheInv(s) && Enabled(s, e)
    ensures CacheInv(Apply(s, e))
  {
  }

  lemma StepKeepsLock(s: State, e: Step)
    requires LockInv(s) && Enabled(s, e)
    ensures LockInv(Apply(s, e))
  {
  }

  lemma StepKeepsRate(s: State, e: Step)
    requires RateInv(s) && Enabled(s, e)
    ensures RateInv(Apply(s, e))
  {
  }

  /** A step leaves the cache alone or stores a fetch that ends at this step;
      history only grows. */
  lemma StepEffect(s: State, e: Step)
    requires Enabled(s, e)
    ensures var after := Apply(s, e);
            && after.step == s.step + 1 && after.clock >= s.clock && after.hardMaximum == s.hardMaximum
            && s.fetches <= after.fetches && s.admitted <= after.admitted
            && ((after.keys == s.keys && after.expiresAt == s.expiresAt && after.stored == s.stored)
                || (after.stored.Some? && after.stored.value.at == s.step))
    ensures forall id :: id in s.tasks && id != e.id ==>
              id in Apply(s, e).tasks && Apply(s, e).tasks[id] == s.tasks[id]
    ensures Apply(s, e).tasks.Keys == s.tasks.Keys + {e.id}
  {
  }

  /** A step leaves every other call's guarantee in place. */
  lemma OtherTasksKept(s: State, e: Step, id: TaskId)
    requires Inv(s) && Enabled(s, e) && id in s.tasks && id != e.id
    ensures TaskInv(Apply(s, e), s.tasks[id])
  {
    StepEffect(s, e);
    TaskKept(s, Apply(s, e), s.tasks[id]);
  }

  lemma TaskKept(s: State, after: State, t: Task)
    requires TaskInv(s, t) && after.step == s.step + 1 && after.clock >= s.clock
    requires after.hardMaximum == s.hardMaximum && s.fetches <= after.fetches && s.admitted <= after.admitted
    requires (after.keys == s.keys && after.expiresAt == s.expiresAt && after.stored == s.stored)
             || (after.stored.Some? && after.stored.value.at == s.step)
    ensures TaskInv(after, t)
  {
    assert forall x :: x in s.admitted ==> x in after.admitted;
  }

  lemma BegunTask(s: State, e: Step)
    requires Inv(s) && Enabled(s, e) && e.Begin?
    ensures e.id in Apply(s, e).tasks && TaskInv(Apply(s, e), Apply(s, e).tasks[e.id])
  {
  }

  lemma EnteredTask(s: State, e: Step)
    requires Inv(s) && Enabled(s, e) && e.Enter?
    ensures e.id in Apply(s, e).tasks && TaskInv(Apply(s, e), Apply(s, e).tasks[e.id])
  {
    if Cooling(s, e.reading) {
      assert s.lastUnknown.value in s.admitted;
    }
  }

  lemma FinishedTask(s: State, e: Step)
    requires Inv(s) && Enabled(s, e) && e.Finish?
    ensures e.id in Apply(s, e).tasks && TaskInv(Apply(s, e), Apply(s, e).tasks[e.id])
  {
  }

  lemma MovedTask(s: State, e: Step)
    requires Inv(s) && Enabled(s, e)
    ensures e.id in Apply(s, e).tasks && TaskInv(Apply(s, e), Apply(s, e).tasks[e.id])
  {
    match e
    case Begin(_, _, _) => BegunTask(s, e);
    case Enter(_, _) => EnteredTask(s, e);
    case Finish(_, _, _) => FinishedTask(s, e);
    case Cancel(_) =>
  }

  lemma StepKeepsInv(s: State, e: Step)
    requires Inv(s) && Enabled(s, e)
    ensures Inv(Apply(s, e))
  {
    StepKeepsCache(s, e);
    StepKeepsLock(s, e);
    StepKeepsRate(s, e);
    MovedTask(s, e);
    StepEffect(s, e);
    forall id | id in Apply(s, e).tasks ensures TaskInv(Apply(s, e), Apply(s, e).tasks[id]) {
      if id != e.id {
        OtherTasksKept(s, e, id);
      }
    }
  }

  // ----- whole runs -----

  ghost predicate IsRun(states: seq<State>, steps: seq<Step>)
  {
    && |states| == |steps| + 1 && Initial(states[0])
    && forall i :: 0 <= i < |steps| ==> Enabled(states[i], steps[i]) && states[i + 1] == Apply(states[i], steps[i])
  }

  lemma {:induction false} RunInv(states: seq<State>, steps: seq<Step>, n: nat)
    requires IsRun(states, steps) && n < |states|
    ensures Inv(states[n]) && states[n].step == n && states[n].hardMaximum == states[0].hardMaximum
  {
    if n > 0 {
      RunInv(states, steps, n - 1);
      StepKeepsInv(states[n - 1], steps[n - 1]);
    }
  }

  /** Under every interleaving: a returned key comes from a completed fetch that
      finished during the call, or less than the hard maximum before the call's
      first clock reading. */
  lemma ReturnedKeyIsFresh(states: seq<State>, steps: seq<Step>, n: nat, id: TaskId)
    requires IsRun(states, steps) && n < |states| && id in states[n].tasks && states[n].tasks[id].Returned?
    ensures var t := states[n].tasks[id];
            && t.fetch in states[n].fetches && t.kid in t.fetch.keys && t.key == t.fetch.keys[t.kid]
            && (t.start.at <= t.fetch.at < n
                || t.start.reading - t.fetch.stamp < states[0].hardMaximum as real)
  {
    RunInv(states, steps, n);
  }

  /** The step that ended a call by raising. */
  lemma {:induction false} RaisedBy(states: seq<State>, steps: seq<Step>, n: nat, id: TaskId) returns (k: nat)
    requires IsRun(states, steps) && n < |states| && id in states[n].tasks && states[n].tasks[id].Raised?
    ensures k < n && steps[k].id == id && !(id in states[k].tasks && states[k].tasks[id].Raised?)
    ensures id in states[k + 1].tasks && states[k + 1].tasks[id] == states[n].tasks[id]
  {
    k := n - 1;
    if id in states[k].tasks && states[k].tasks[id].Raised? {
      assert steps[k].id != id;
      StepEffect(states[k], steps[k]);
      k := RaisedBy(states, steps, k, id);
    } else {
      StepEffect(states[k], steps[k]);
    }
  }

  lemma RaisingStep(s: State, e: Step)
    requires Enabled(s, e) && Apply(s, e).tasks[e.id].Raised?
    ensures Apply(s, e).tasks[e.id].why == FetchFailed ==> e.Finish? && e.response == Failed
    ensures Apply(s, e).tasks[e.id].why == Cancelled ==> e.Cancel?
  {
  }

  /** A call raises only when a step of the run while it was going on failed its fetch
      or cancelled it, when a fetch completed during the call lacks the key, or when an
      admitted refresh is less than the cooldown old. */
  lemma RaisedOnlyWithCause(states: seq<State>, steps: seq<Step>, n: nat, id: TaskId)
    requires IsRun(states, steps) && n < |states| && id in states[n].tasks && states[n].tasks[id].Raised?
    ensures var t := states[n].tasks[id];
            match t.why
            case FetchFailed =>
              exists k :: t.start.at <= k < n && steps[k].Finish? && steps[k].id == id && steps[k].response == Failed
            case Cancelled => exists k :: t.start.at <= k < n && steps[k] == Cancel(id)
            case NotInFetch(f) => f in states[n].fetches && f.at >= t.start.at && t.kid !in f.keys
            case CoolingDown(since, reading) =>
              since in states[n].admitted && t.start.reading <= reading && since <= reading < since + COOLDOWN
  {
    RunInv(states, steps, n);
    var k := RaisedBy(states, steps, n, id);
    RunInv(states, steps, k + 1);
    RaisingStep(states[k], steps[k]);
    assert TaskInv(states[k + 1], states[k + 1].tasks[id]);
  }

  /** At most one fetch is in flight. */
  lemma SingleFlight(states: seq<State>, steps: seq<Step>, n: nat, a: TaskId, b: TaskId)
    requires IsRun(states, steps) && n < |states|
    requires a in states[n].tasks && states[n].tasks[a].Fetching?
    requires b in states[n].tasks && states[n].tasks[b].Fetching?
    ensures a == b
  {
    RunInv(states, steps, n);
  }

  // ----- rate limit -----

  /** How many of the times lie in the closed window from `a` to `b`. */
  function InWindow(times: seq<real>, a: real, b: real): nat
  {
    if times == [] then 0
    else InWindow(times[..|times| - 1], a, b) + if a <= times[|times| - 1] <= b then 1 else 0
  }

  function Allowed(length: real): int
  {
    if length < 0.0 then 0 else (length / COOLDOWN).Floor + 1
  }

  lemma {:induction false} SpacedBefore(times: seq<real>, i: nat)
    requires Spaced(times) && i + 1 < |times|
    ensures times[i] <= times[|times| - 1] - COOLDOWN
    decreases |times|
  {
    var shorter := times[..|times| - 1];
    if i + 2 < |times| {
      assert Spaced(shorter);
      SpacedBefore(shorter, i);
    }
  }

  lemma {:induction false} WindowCut(times: seq<real>, a: real, b: real, c: real)
    requires c <= b && forall i :: 0 <= i < |times| ==> times[i] <= c
    ensures InWindow(times, a, b) == InWindow(times, a, c)
  {
    if times != [] {
      WindowCut(times[..|times| - 1], a, b, c);
    }
  }

  lemma {:induction false} WindowEmpty(times: seq<real>, a: real, b: real)
    requires forall i :: 0 <= i < |times| ==> times[i] < a
    ensures InWindow(times, a, b) == 0
  {
    if times != [] {
      WindowEmpty(times[..|times| - 1], a, b);
    }
  }

  lemma {:induction false} SpacedWindow(times: seq<real>, a: real, b: real)
    requires Spaced(times)
    ensures InWindow(times, a, b) <= Allowed(b - a)
    decreases |times|
  {
    if times != [] {
      var shorter, last := times[..|times| - 1], times[|times| - 1];
      assert Spaced(shorter);
      if a <= last <= b {
        forall i | 0 <= i < |shorter| ensures shorter[i] <= last - COOLDOWN {
          SpacedBefore(times, i);
        }
        WindowCut(shorter, a, b, last - COOLDOWN);
        SpacedWindow(shorter, a, last - COOLDOWN);
        OneMore(last - a, b - a);
      } else {
        SpacedWindow(shorter, a, b);
      }
    }
  }

  lemma OneMore(used: real, length: real)
    requires 0.0 <= used <= length
    ensures Allowed(used - COOLDOWN) + 1 <= Allowed(length)
  {
    assert (used - COOLDOWN) / COOLDOWN == used / COOLDOWN - 1.0;
    assert used / COOLDOWN <= length / COOLDOWN;
  }

  /** In every run, whatever the fetches do, a window of length L admits at most
      floor(L / 5) + 1 refreshes for unknown keys. */
  lemma RefreshesAreRateLimited(states: seq<State>, steps: seq<Step>, n: nat, a: real, length: real)
    requires IsRun(states, steps) && n < |states| && length >= 0.0
    ensures InWindow(states[n].admitted, a, a + length) <= (length / COOLDOWN).Floor + 1
    ensures Spaced(states[n].admitted)
  {
    RunInv(states, steps, n);
    SpacedWindow(states[n].admitted, a, a + length);
    assert a + length - a == length;
  }

  // ----- the object -----

  /** The validator's fields, updated by the code between two suspensions. The
      ghost fields are the calls in progress and the history of the run. */
  class Validator {
    const maxCacheSeconds: nat
    var keys: map<string, Key>
    var cacheExpiresAt: real
    var lastUnknownKidRefreshAt: Option<real>
    var lockHolder: Option<TaskId>
    ghost var tasks: map<TaskId, Task>
    ghost var clock: real
    ghost var step: nat
    ghost var stored: Option<Fetch>
    ghost var fetches: set<Fetch>
    ghost var admitted: seq<real>

    ghost function Now(): State
      reads this
    {
      State(maxCacheSeconds, keys, cacheExpiresAt, lastUnknownKidRefreshAt, lockHolder, tasks,
            clock, step, stored, fetches, admitted)
    }

    constructor (maxCacheSeconds: nat)
      ensures Initial(Now()) && this.maxCacheSeconds == maxCacheSeconds
    {
      this.maxCacheSeconds := maxCacheSeconds;
      keys, cacheExpiresAt, lastUnknownKidRefreshAt, lockHolder := map[], 0.0, None, None;
      tasks, clock, step, stored, fetches, admitted := map[], 0.0, 0, None, {}, [];
    }

    ghost method Tick(reading: real)
      modifies `clock, `step
      ensures clock == reading && step == old(step) + 1
    {
      clock, step := reading, step + 1;
    }

    /** A call starts: an expired cache sends it to the lock, else it looks its key up. */
    method Begin(id: TaskId, kid: string, reading: real)
      requires Inv(Now()) && Enabled(Now(), Step.Begin(id, kid, reading))
      modifies this
      ensures Now() == Apply(old(Now()), Step.Begin(id, kid, reading)) && Inv(Now())
    {
      StepKeepsInv(Now(), Step.Begin(id, kid, reading));
      ghost var start := Start(reading, step);
      if reading >= cacheExpiresAt {
        tasks := tasks[id := Waiting(kid, start, false)];
      } else {
        FirstLookup(id, kid, start);
      }
      Tick(reading);
    }

    method FirstLookup(id: TaskId, kid: string, ghost start: Start)
      requires CacheInv(Now())
      modifies `tasks
      ensures Now() == Lookup(old(Now()), id, kid, start)
    {
      if kid in keys {
        tasks := tasks[id := Returned(kid, start, keys[kid], stored.value)];
      } else {
        tasks := tasks[id := Waiting(kid, start, true)];
      }
    }

    method LastLookup(id: TaskId, kid: string, ghost start: Start, ghost why: Reason)
      requires CacheInv(Now())
      modifies `tasks
      ensures Now() == Settle(old(Now()), id, kid, start, why)
    {
      if kid in keys {
        tasks := tasks[id := Returned(kid, start, keys[kid], stored.value)];
      } else {
        tasks := tasks[id := Raised(kid, start, why)];
      }
    }

    /** The lock is taken: the refresh is skipped, or the fetch begins. */
    method Enter(id: TaskId, kid: string, forUnknownKid: bool, reading: real)
      requires Inv(Now()) && Enabled(Now(), Step.Enter(id, reading))
      requires tasks[id].kid == kid && tasks[id].unknown == forUnknownKid
      modifies this
      ensures Now() == Apply(old(Now()), Step.Enter(id, reading)) && Inv(Now())
    {
      StepKeepsInv(Now(), Step.Enter(id, reading));
      ghost var start := tasks[id].start;
      if forUnknownKid {
        if lastUnknownKidRefreshAt.Some? && reading - lastUnknownKidRefreshAt.value < COOLDOWN {
          LastLookup(id, kid, start, CoolingDown(lastUnknownKidRefreshAt.value, reading));
          Tick(reading);
          return;
        }
        lastUnknownKidRefreshAt := Some(reading);
        admitted := admitted + [reading];
      } else if reading < cacheExpiresAt {
        FirstLookup(id, kid, start);
        Tick(reading);
        return;
      }
      lockHolder := Some(id);
      tasks := tasks[id := Fetching(kid, start, forUnknownKid)];
      Tick(reading);
    }

    method RefreshKeys(response: Response, reading: real)
      requires response.Parsed?
      modifies this
      ensures Now() == Renewed(old(Now()), response, reading)
    {
      lockHolder := None;
      keys := response.keys;
      cacheExpiresAt := reading + CacheSeconds(response.control, maxCacheSeconds) as real;
      ghost var fetch := Fetch(response.keys, reading, step);
      stored, fetches := Some(fetch), fetches + {fetch};
      Tick(reading);
    }

    /** The fetch ends: a failure raises, a success replaces keys and expiry together. */
    method Finish(id: TaskId, kid: string, forUnknownKid: bool, response: Response, reading: real)
      requires Inv(Now()) && Enabled(Now(), Step.Finish(id, response, reading))
      requires tasks[id].kid == kid && tasks[id].unknown == forUnknownKid
      modifies this
      ensures Now() == Apply(old(Now()), Step.Finish(id, response, reading)) && Inv(Now())
    {
      StepKeepsInv(Now(), Step.Finish(id, response, reading));
      ghost var start := tasks[id].start;
      if response.Failed? {
        lockHolder := None;
        tasks := tasks[id := Raised(kid, start, FetchFailed)];
        Tick(reading);
        return;
      }
      RefreshKeys(response, reading);
      if forUnknownKid {
        LastLookup(id, kid, start, NotInFetch(stored.value));
      } else {
        FirstLookup(id, kid, start);
      }
    }

    /** A waiting or fetching call is cancelled; the lock is freed if it was held. */
    method Cancel(id: TaskId)
      requires Inv(Now()) && Enabled(Now(), Step.Cancel(id))
      modifies this
      ensures Now() == Apply(old(Now()), Step.Cancel(id)) && Inv(Now())
    {
      StepKeepsInv(Now(), Step.Cancel(id));
      if lockHolder == Some(id) {
        lockHolder := None;
      }
      tasks := tasks[id := Raised(tasks[id].kid, tasks[id].start, Cancelled)];
      Tick(clock);
    }
  }
}

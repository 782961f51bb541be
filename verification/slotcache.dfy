/** The slot-state cache (pocketbase.go): a TTL map whose lookup drops its mutex between the check,
    the fetch and the write-back.

    `SlotStateCache` is the map and its critical sections.  `Run` interleaves the sections of any
    number of lookups with patches, invalidations and the clock.
 */
module SlotCache {
  import opened Wrappers

  datatype Entry = Entry(state: string, ts: int)

  const NO_SLOT := "none"
  const STORE_ERROR := "error"

  /** The check under the mutex: an entry younger than the TTL, measured at the lookup's start. */
  function Hit(cache: map<string, Entry>, ttl: int, user: string, now: int): Option<string> {
    if user in cache && now - cache[user].ts < ttl then Some(cache[user].state) else None
  }

  /** FindSlot by access key: the slot's state, or "none". */
  function Answer(store: map<string, string>, user: string): string {
    if user in store then store[user] else NO_SLOT
  }

  function FetchResult(store: map<string, string>, user: string, ok: bool): string {
    if ok then Answer(store, user) else STORE_ERROR
  }

  /** What a whole lookup returns when nothing interleaves. */
  function LookupResult(cache: map<string, Entry>, ttl: int, user: string, now: int, store: map<string, string>, ok: bool): string {
    var hit := Hit(cache, ttl, user, now);
    if hit.Some? then hit.value else FetchResult(store, user, ok)
  }

  /** What it leaves in the cache: a miss stores the answer, failures included, under its own start. */
  function CacheAfter(cache: map<string, Entry>, ttl: int, user: string, now: int, store: map<string, string>, ok: bool): map<string, Entry> {
    if Hit(cache, ttl, user, now).Some? then cache else cache[user := Entry(LookupResult(cache, ttl, user, now, store, ok), now)]
  }

  class SlotStateCache {
    var stateData: map<string, Entry>
    const stateTTL: int

    constructor (ttl: int)
      ensures stateData == map[] && stateTTL == ttl
    {
      stateData := map[];
      stateTTL := ttl;
    }

    method Check(user: string, now: int) returns (state: Option<string>)
      ensures state == Hit(stateData, stateTTL, user, now)
    {
      state := None;
      if user in stateData {
        var e := stateData[user];
        if now - e.ts < stateTTL {
          state := Some(e.state);
        }
      }
    }

    method WriteBack(user: string, state: string, now: int)
      modifies this
      ensures stateData == old(stateData)[user := Entry(state, now)]
    {
      stateData := stateData[user := Entry(state, now)];
    }

    method InvalidateSlotState(user: string)
      modifies this
      ensures stateData == old(stateData) - {user}
    {
      stateData := stateData - {user};
    }

    /** CachedSlotState when nothing interleaves. */
    method CachedSlotState(user: string, now: int, store: map<string, string>, fetchOk: bool) returns (state: string)
      modifies this
      ensures state == LookupResult(old(stateData), stateTTL, user, now, store, fetchOk)
      ensures stateData == CacheAfter(old(stateData), stateTTL, user, now, store, fetchOk)
    {
      var hit := Check(user, now);
      if hit.Some? {
        return hit.value;
      }
      state := NO_SLOT;
      if !fetchOk {
        state := STORE_ERROR;
      } else if user in store {
        state := store[user];
      }
      WriteBack(user, state, now);
    }
  }

  /** What a miss answered is what every lookup of that user started within the TTL answers, failures
      included and whatever the store says by then; other users' entries are left alone. */
  lemma AnswerHolds(cache: map<string, Entry>, ttl: int, user: string, now: int, store: map<string, string>, ok: bool,
                    later: int, store': map<string, string>, ok': bool)
    requires Hit(cache, ttl, user, now).None? && later - now < ttl
    ensures var cache' := CacheAfter(cache, ttl, user, now, store, ok);
            LookupResult(cache', ttl, user, later, store', ok') ==
            (if !ok then "error" else if user in store then store[user] else "none") &&
            forall other :: other != user ==> (other in cache' <==> other in cache) && (other in cache ==> cache'[other] == cache[other])
  {
  }

  // ---- Interleaved lookups ----

  datatype Lookup =
    | Started(user: string, now: int)
    | Missed(user: string, now: int)
    | Fetched(user: string, now: int, state: string)
    | Done(user: string, now: int, state: string)

  datatype State = State(
    clock: int,
    store: map<string, string>,
    cache: map<string, Entry>,
    lookups: map<int, Lookup>)

  datatype Step =
    | Tick(elapsed: nat)
    | Patch(user: string, state: string)
    | Remove(user: string)
    | Invalidate(user: string)
    | Start(t: int, user: string)
    | CheckMutex(t: int)
    | Fetch(t: int, ok: bool)
    | WriteMutex(t: int)

  /** A step that does not apply leaves the state alone. */
  function Next(ttl: int, s: State, step: Step): State {
    match step
    case Tick(elapsed) => s.(clock := s.clock + elapsed)
    case Patch(user, st) => s.(store := s.store[user := st])
    case Remove(user) => s.(store := s.store - {user})
    case Invalidate(user) => s.(cache := s.cache - {user})
    case Start(t, user) =>
      if t in s.lookups then s else s.(lookups := s.lookups[t := Started(user, s.clock)])
    case CheckMutex(t) =>
      if t in s.lookups && s.lookups[t].Started? then
        var l := s.lookups[t];
        match Hit(s.cache, ttl, l.user, l.now)
        case Some(st) => s.(lookups := s.lookups[t := Done(l.user, l.now, st)])
        case None => s.(lookups := s.lookups[t := Missed(l.user, l.now)])
      else s
    case Fetch(t, ok) =>
      if t in s.lookups && s.lookups[t].Missed? then
        var l := s.lookups[t];
        s.(lookups := s.lookups[t := Fetched(l.user, l.now, FetchResult(s.store, l.user, ok))])
      else s
    case WriteMutex(t) =>
      if t in s.lookups && s.lookups[t].Fetched? then
        var l := s.lookups[t];
        s.(cache := s.cache[l.user := Entry(l.state, l.now)],
           lookups := s.lookups[t := Done(l.user, l.now, l.state)])
      else s
  }

  function Run(ttl: int, s: State, steps: seq<Step>): State {
    if steps == [] then s else Next(ttl, Run(ttl, s, steps[..|steps| - 1]), steps[|steps| - 1])
  }

  lemma RunTwo(ttl: int, s: State, a: Step, b: Step)
    ensures Run(ttl, s, [a, b]) == Next(ttl, Next(ttl, s, a), b)
  {
    RunSnoc(ttl, s, [], a);
    assert [] + [a] == [a];
    RunSnoc(ttl, s, [a], b);
    assert [a] + [b] == [a, b];
  }

  lemma RunFour(ttl: int, s: State, a: Step, b: Step, c: Step, d: Step)
    ensures Run(ttl, s, [a, b, c, d]) == Next(ttl, Next(ttl, Next(ttl, Next(ttl, s, a), b), c), d)
  {
    RunTwo(ttl, s, a, b);
    RunSnoc(ttl, s, [a, b], c);
    assert [a, b] + [c] == [a, b, c];
    RunSnoc(ttl, s, [a, b, c], d);
    assert [a, b, c] + [d] == [a, b, c, d];
  }

  /** The four sections of one lookup, run back to back, are the sequential lookup. */
  lemma AloneIsLookup(ttl: int, s: State, t: int, user: string, ok: bool)
    requires t !in s.lookups
    ensures var s' := Run(ttl, s, [Start(t, user), CheckMutex(t), Fetch(t, ok), WriteMutex(t)]);
            var state := LookupResult(s.cache, ttl, user, s.clock, s.store, ok);
            s'.lookups == s.lookups[t := Done(user, s.clock, state)] &&
            s'.cache == CacheAfter(s.cache, ttl, user, s.clock, s.store, ok)
  {
    RunFour(ttl, s, Start(t, user), CheckMutex(t), Fetch(t, ok), WriteMutex(t));
    var checked := Next(ttl, Next(ttl, s, Start(t, user)), CheckMutex(t));
    if Hit(s.cache, ttl, user, s.clock).Some? {
      assert Next(ttl, Next(ttl, checked, Fetch(t, ok)), WriteMutex(t)) == checked;
    } else {
      assert checked.lookups[t] == Missed(user, s.clock);
    }
  }

  function Init(clock: int, store: map<string, string>): State {
    State(clock, store, map[], map[])
  }

  /** The state before the i-th step. */
  function At(ttl: int, s: State, steps: seq<Step>, i: nat): State
    requires i <= |steps|
  {
    Run(ttl, s, steps[..i])
  }

  /** At the i-th step a fetch for the user failed. */
  predicate FailsAt(ttl: int, s: State, steps: seq<Step>, user: string, i: nat)
    requires i < |steps|
  {
    && steps[i].Fetch? && !steps[i].ok
    && var lookups := At(ttl, s, steps, i).lookups;
       steps[i].t in lookups && lookups[steps[i].t].Missed? && lookups[steps[i].t].user == user
  }

  /** At instant i the store says `state` for the user, or its failure does. */
  predicate SaysAt(ttl: int, s: State, steps: seq<Step>, user: string, state: string, i: nat)
    requires i < |steps|
  {
    state == Answer(At(ttl, s, steps, i).store, user) ||
    (state == STORE_ERROR && FailsAt(ttl, s, steps, user, i))
  }

  /** Some instant at or after `from` says `state`. */
  ghost predicate Witnessed(ttl: int, s: State, steps: seq<Step>, user: string, state: string, from: int) {
    exists i :: 0 <= i < |steps| && At(ttl, s, steps, i).clock >= from && SaysAt(ttl, s, steps, user, state, i)
  }

  ghost predicate Fresh(ttl: int, s: State, steps: seq<Step>, l: Lookup) {
    match l
    case Started(_, now) => now <= Run(ttl, s, steps).clock
    case Missed(_, now) => now <= Run(ttl, s, steps).clock
    case Fetched(user, now, st) => Witnessed(ttl, s, steps, user, st, now)
    case Done(user, now, st) => Witnessed(ttl, s, steps, user, st, now - ttl + 1)
  }

  ghost predicate CacheFresh(ttl: int, s: State, steps: seq<Step>) {
    var cache := Run(ttl, s, steps).cache;
    forall user :: user in cache ==> Witnessed(ttl, s, steps, user, cache[user].state, cache[user].ts)
  }

  ghost predicate LookupsFresh(ttl: int, s: State, steps: seq<Step>) {
    var lookups := Run(ttl, s, steps).lookups;
    forall t :: t in lookups ==> Fresh(ttl, s, steps, lookups[t])
  }

  lemma WitnessedExtends(ttl: int, s: State, steps: seq<Step>, step: Step, user: string, state: string, from: int, from': int)
    requires Witnessed(ttl, s, steps, user, state, from) && from' <= from
    ensures Witnessed(ttl, s, steps + [step], user, state, from')
  {
    var more := steps + [step];
    var i :| 0 <= i < |steps| && At(ttl, s, steps, i).clock >= from && SaysAt(ttl, s, steps, user, state, i);
    assert more[..i] == steps[..i] && more[i] == steps[i];
    assert SaysAt(ttl, s, more, user, state, i);
  }

  lemma RunSnoc(ttl: int, s: State, steps: seq<Step>, step: Step)
    ensures Run(ttl, s, steps + [step]) == Next(ttl, Run(ttl, s, steps), step)
  {
    assert (steps + [step])[..|steps|] == steps;
  }

  lemma FetchWitnessed(ttl: int, s: State, steps: seq<Step>, t: int, ok: bool)
    requires var lookups := Run(ttl, s, steps).lookups; t in lookups && lookups[t].Missed?
    ensures var now := Run(ttl, s, steps);
            Witnessed(ttl, s, steps + [Fetch(t, ok)], now.lookups[t].user, FetchResult(now.store, now.lookups[t].user, ok), now.clock)
  {
    var more := steps + [Fetch(t, ok)];
    var i := |steps|;
    assert more[..i] == steps;
    var now := Run(ttl, s, steps);
    assert At(ttl, s, more, i) == now;
    assert SaysAt(ttl, s, more, now.lookups[t].user, FetchResult(now.store, now.lookups[t].user, ok), i);
  }

  lemma StepCacheFresh(ttl: int, s: State, steps: seq<Step>, step: Step)
    requires CacheFresh(ttl, s, steps) && LookupsFresh(ttl, s, steps)
    ensures CacheFresh(ttl, s, steps + [step])
  {
    var more := steps + [step];
    RunSnoc(ttl, s, steps, step);
    var a, b := Run(ttl, s, steps), Run(ttl, s, more);
    forall user | user in b.cache
      ensures Witnessed(ttl, s, more, user, b.cache[user].state, b.cache[user].ts)
    {
      if user in a.cache && b.cache[user] == a.cache[user] {
        WitnessedExtends(ttl, s, steps, step, user, a.cache[user].state, a.cache[user].ts, a.cache[user].ts);
      } else {
        var l := a.lookups[step.t];
        assert Fresh(ttl, s, steps, l);
        WitnessedExtends(ttl, s, steps, step, user, l.state, l.now, l.now);
      }
    }
  }

  /** A lookup the step does not move stays fresh. */
  lemma IdleFresh(ttl: int, s: State, steps: seq<Step>, step: Step, l: Lookup)
    requires Fresh(ttl, s, steps, l)
    ensures Fresh(ttl, s, steps + [step], l)
  {
    RunSnoc(ttl, s, steps, step);
    if l.Fetched? {
      WitnessedExtends(ttl, s, steps, step, l.user, l.state, l.now, l.now);
    } else if l.Done? {
      WitnessedExtends(ttl, s, steps, step, l.user, l.state, l.now - ttl + 1, l.now - ttl + 1);
    }
  }

  /** So does the one it moves. */
  lemma MovedFresh(ttl: int, s: State, steps: seq<Step>, step: Step, t: int)
    requires ttl > 0 && CacheFresh(ttl, s, steps) && LookupsFresh(ttl, s, steps)
    requires var a := Run(ttl, s, steps);
             t in a.lookups && Next(ttl, a, step).lookups[t] != a.lookups[t]
    ensures Fresh(ttl, s, steps + [step], Next(ttl, Run(ttl, s, steps), step).lookups[t])
  {
    RunSnoc(ttl, s, steps, step);
    var a := Run(ttl, s, steps);
    var l, l' := a.lookups[t], Next(ttl, a, step).lookups[t];
    assert Fresh(ttl, s, steps, l);
    match step {
      case CheckMutex(_) =>
        if l'.Done? {
          var e := a.cache[l.user];
          WitnessedExtends(ttl, s, steps, step, l.user, e.state, e.ts, l.now - ttl + 1);
        }
      case Fetch(_, ok) =>
        FetchFreshens(ttl, s, steps, t, ok);
      case WriteMutex(_) =>
        WitnessedExtends(ttl, s, steps, step, l.user, l.state, l.now, l.now - ttl + 1);
      case _ =>
    }
  }

  lemma FetchFreshens(ttl: int, s: State, steps: seq<Step>, t: int, ok: bool)
    requires var a := Run(ttl, s, steps); t in a.lookups && a.lookups[t].Missed? && a.lookups[t].now <= a.clock
    ensures Fresh(ttl, s, steps + [Fetch(t, ok)], Next(ttl, Run(ttl, s, steps), Fetch(t, ok)).lookups[t])
  {
    var more := steps + [Fetch(t, ok)];
    var a := Run(ttl, s, steps);
    FetchWitnessed(ttl, s, steps, t, ok);
    var l := a.lookups[t];
    var st := FetchResult(a.store, l.user, ok);
    var i :| 0 <= i < |more| && At(ttl, s, more, i).clock >= a.clock && SaysAt(ttl, s, more, l.user, st, i);
    assert Witnessed(ttl, s, more, l.user, st, l.now);
  }

  lemma StepFresh(ttl: int, s: State, steps: seq<Step>, step: Step)
    requires ttl > 0 && CacheFresh(ttl, s, steps) && LookupsFresh(ttl, s, steps)
    ensures CacheFresh(ttl, s, steps + [step]) && LookupsFresh(ttl, s, steps + [step])
  {
    StepCacheFresh(ttl, s, steps, step);
    RunSnoc(ttl, s, steps, step);
    var a, b := Run(ttl, s, steps), Run(ttl, s, steps + [step]);
    forall t | t in b.lookups
      ensures Fresh(ttl, s, steps + [step], b.lookups[t])
    {
      if t in a.lookups {
        assert Fresh(ttl, s, steps, a.lookups[t]);
        if b.lookups[t] == a.lookups[t] {
          IdleFresh(ttl, s, steps, step, a.lookups[t]);
        } else {
          MovedFresh(ttl, s, steps, step, t);
        }
      }
    }
  }

  lemma {:induction false} RunFresh(ttl: int, clock: int, store: map<string, string>, steps: seq<Step>)
    requires ttl > 0
    ensures CacheFresh(ttl, Init(clock, store), steps) && LookupsFresh(ttl, Init(clock, store), steps)
  {
    if steps != [] {
      RunFresh(ttl, clock, store, steps[..|steps| - 1]);
      StepFresh(ttl, Init(clock, store), steps[..|steps| - 1], steps[|steps| - 1]);
      assert steps[..|steps| - 1] + [steps[|steps| - 1]] == steps;
    }
  }

  /** Bounded staleness: whatever interleaves, the state returned to a lookup that started at `now`
      was the store's answer, or the store's failure, at an instant later than now - ttl. */
  lemma BoundedStaleness(ttl: int, clock: int, store: map<string, string>, steps: seq<Step>, t: int)
    requires ttl > 0
    requires var lookups := Run(ttl, Init(clock, store), steps).lookups; t in lookups && lookups[t].Done?
    ensures var s, l := Init(clock, store), Run(ttl, Init(clock, store), steps).lookups[t];
            exists i :: 0 <= i < |steps| && At(ttl, s, steps, i).clock > l.now - ttl &&
                        SaysAt(ttl, s, steps, l.user, l.state, i)
  {
    RunFresh(ttl, clock, store, steps);
    var s := Init(clock, store);
    var l := Run(ttl, s, steps).lookups[t];
    assert Fresh(ttl, s, steps, l);
    var i :| 0 <= i < |steps| && At(ttl, s, steps, i).clock >= l.now - ttl + 1 && SaysAt(ttl, s, steps, l.user, l.state, i);
    assert At(ttl, s, steps, i).clock > l.now - ttl;
  }

  lemma {:induction false} ClockMonotone(ttl: int, s: State, steps: seq<Step>, i: nat, j: nat)
    requires i <= j <= |steps|
    ensures At(ttl, s, steps, i).clock <= At(ttl, s, steps, j).clock
    decreases j
  {
    if i < j {
      ClockMonotone(ttl, s, steps, i, j - 1);
      assert steps[..j][..j - 1] == steps[..j - 1];
    }
  }

  /** The step leaves the user's record alone. */
  predicate Untouched(step: Step, user: string) {
    !(step.Patch? && step.user == user) && !(step.Remove? && step.user == user)
  }

  lemma {:induction false} AnswerStays(ttl: int, s: State, steps: seq<Step>, user: string, p: nat, i: nat)
    requires p < i <= |steps| && steps[p].Patch? && steps[p].user == user
    requires forall k :: p < k < |steps| ==> Untouched(steps[k], user)
    ensures Answer(At(ttl, s, steps, i).store, user) == steps[p].state
    decreases i
  {
    assert steps[..i][..i - 1] == steps[..i - 1];
    if p < i - 1 {
      AnswerStays(ttl, s, steps, user, p, i - 1);
      assert Untouched(steps[i - 1], user);
    }
  }

  /** A patch no later patch overrides is what every lookup starting a full TTL later returns, unless
      a fetch for the user failed after it. */
  lemma PatchSeenAfterTTL(ttl: int, clock: int, store: map<string, string>, steps: seq<Step>, p: nat, t: int)
    requires ttl > 0 && p < |steps| && steps[p].Patch?
    requires forall k :: p < k < |steps| ==> Untouched(steps[k], steps[p].user)
    requires var s := Init(clock, store);
             var lookups := Run(ttl, s, steps).lookups;
             t in lookups && lookups[t].Done? && lookups[t].user == steps[p].user &&
             lookups[t].now >= At(ttl, s, steps, p).clock + ttl
    ensures var s, state := Init(clock, store), Run(ttl, Init(clock, store), steps).lookups[t].state;
            state == steps[p].state ||
            (state == STORE_ERROR && exists i :: p < i < |steps| && FailsAt(ttl, s, steps, steps[p].user, i))
  {
    var s := Init(clock, store);
    BoundedStaleness(ttl, clock, store, steps, t);
    var l := Run(ttl, s, steps).lookups[t];
    var i :| 0 <= i < |steps| && At(ttl, s, steps, i).clock > l.now - ttl && SaysAt(ttl, s, steps, l.user, l.state, i);
    if i <= p {
      ClockMonotone(ttl, s, steps, i, p);
    }
    assert p < i;
    AnswerStays(ttl, s, steps, l.user, p, i);
  }

  // ---- Immediate denial ----

  /** The slot states /validate blocks on. */
  predicate Blocked(state: string) {
    state == "suspended" || state == "expired"
  }

  predicate Stale(ttl: int, clock: int, state: string, ts: int) {
    Blocked(state) || clock - ts >= ttl
  }

  /** Nothing that could still admit the user is cached, or fetched and waiting to be cached. */
  ghost predicate Quiet(ttl: int, s: State, user: string) {
    && (user in s.cache ==> Stale(ttl, s.clock, s.cache[user].state, s.cache[user].ts))
    && (forall t :: t in s.lookups && s.lookups[t].Fetched? && s.lookups[t].user == user ==>
          Stale(ttl, s.clock, s.lookups[t].state, s.lookups[t].now))
  }

  /** No later step patches the user's record or fails a fetch. */
  predicate Undisturbed(steps: seq<Step>, user: string) {
    forall k :: 0 <= k < |steps| ==> Untouched(steps[k], user) && !(steps[k].Fetch? && !steps[k].ok)
  }

  /** Every lookup for the user that starts in the continuation is blocked. */
  ghost predicate AllBlocked(ttl: int, s: State, steps: seq<Step>, user: string) {
    var s' := Run(ttl, s, steps);
    forall t :: t in s'.lookups && t !in s.lookups && s'.lookups[t].Done? && s'.lookups[t].user == user ==>
      Blocked(s'.lookups[t].state)
  }

  ghost predicate QuietSince(ttl: int, s: State, s': State, user: string) {
    && s.clock <= s'.clock
    && s.lookups.Keys <= s'.lookups.Keys
    && Blocked(Answer(s'.store, user))
    && (user in s'.cache ==> Stale(ttl, s.clock, s'.cache[user].state, s'.cache[user].ts))
    && (forall t :: t in s'.lookups && s'.lookups[t].user == user ==> QuietLookup(ttl, s, t, s'.lookups[t]))
  }

  predicate QuietLookup(ttl: int, s: State, t: int, l: Lookup) {
    && (t !in s.lookups ==> l.now >= s.clock)
    && (l.Fetched? ==> Stale(ttl, s.clock, l.state, l.now))
    && (l.Done? && t !in s.lookups ==> Blocked(l.state))
  }

  lemma {:induction false} RunQuiet(ttl: int, s: State, steps: seq<Step>, user: string)
    requires ttl > 0 && Quiet(ttl, s, user) && Blocked(Answer(s.store, user)) && Undisturbed(steps, user)
    ensures QuietSince(ttl, s, Run(ttl, s, steps), user)
  {
    if steps != [] {
      var before, step := steps[..|steps| - 1], steps[|steps| - 1];
      RunQuiet(ttl, s, before, user);
      var a := Run(ttl, s, before);
      var b := Next(ttl, a, step);
      forall t | t in b.lookups && b.lookups[t].user == user
        ensures QuietLookup(ttl, s, t, b.lookups[t])
      {
        assert t in a.lookups ==> QuietLookup(ttl, s, t, a.lookups[t]);
      }
      if step.WriteMutex? && step.t in a.lookups && a.lookups[step.t].user == user {
        assert QuietLookup(ttl, s, step.t, a.lookups[step.t]);
      }
    }
  }

  /** A live unblocked entry, cached or about to be, admits the user once more. */
  lemma LoudAdmits(ttl: int, s: State, user: string, unused: int) returns (steps: seq<Step>)
    requires !Quiet(ttl, s, user) && unused !in s.lookups
    ensures Undisturbed(steps, user) && !AllBlocked(ttl, s, steps, user)
  {
    var start, check := Start(unused, user), CheckMutex(unused);
    if user in s.cache && !Stale(ttl, s.clock, s.cache[user].state, s.cache[user].ts) {
      steps := [start, check];
      assert steps[..1] == [start] && steps[..1][..0] == [];
      assert Run(ttl, s, steps[..1]) == Next(ttl, s, start);
      assert Run(ttl, s, steps).lookups[unused].Done?;
    } else {
      var t :| t in s.lookups && s.lookups[t].Fetched? && s.lookups[t].user == user &&
               !Stale(ttl, s.clock, s.lookups[t].state, s.lookups[t].now);
      var write := WriteMutex(t);
      steps := [write, start, check];
      assert steps[..2][..1] == [write] && steps[..2] == [write, start] && steps[..1][..0] == [];
      assert Run(ttl, s, [write]) == Next(ttl, s, write);
      assert Run(ttl, s, [write, start]) == Next(ttl, Next(ttl, s, write), start);
      assert Run(ttl, s, steps).lookups[unused].Done?;
    }
  }

  /** When is denial immediate?  Once the record is blocked, every later lookup is denied on every
      continuation exactly if nothing live that admits the user is cached or in flight.  Invalidating
      the cache settles the first half only: a stale write-back may follow it. */
  lemma ImmediateDenialExact(ttl: int, s: State, user: string, unused: int)
    requires ttl > 0 && Blocked(Answer(s.store, user)) && unused !in s.lookups
    ensures (forall steps :: Undisturbed(steps, user) ==> AllBlocked(ttl, s, steps, user)) <==> Quiet(ttl, s, user)
  {
    if Quiet(ttl, s, user) {
      forall steps | Undisturbed(steps, user)
        ensures AllBlocked(ttl, s, steps, user)
      {
        RunQuiet(ttl, s, steps, user);
        var s' := Run(ttl, s, steps);
        forall t | t in s'.lookups && t !in s.lookups && s'.lookups[t].Done? && s'.lookups[t].user == user
          ensures Blocked(s'.lookups[t].state)
        {
          assert QuietLookup(ttl, s, t, s'.lookups[t]);
        }
      }
    } else {
      var steps := LoudAdmits(ttl, s, user, unused);
    }
  }

  predicate InFlight(s: State, user: string, t: int) {
    t in s.lookups && s.lookups[t].Fetched? && s.lookups[t].user == user
  }

  /** What an invalidation settles: afterwards denial is immediate exactly if no live admitting answer
      for the user is fetched and waiting to be written back. */
  lemma InvalidateSettlesCache(ttl: int, s: State, user: string, unused: int)
    requires ttl > 0 && Blocked(Answer(s.store, user)) && unused !in s.lookups
    ensures var s' := Next(ttl, s, Invalidate(user));
            (forall steps :: Undisturbed(steps, user) ==> AllBlocked(ttl, s', steps, user)) <==>
            (forall t :: InFlight(s, user, t) ==> Stale(ttl, s.clock, s.lookups[t].state, s.lookups[t].now))
  {
    var s' := Next(ttl, s, Invalidate(user));
    ImmediateDenialExact(ttl, s', user, unused);
    assert forall t :: InFlight(s, user, t) <==> InFlight(s', user, t);
    assert Quiet(ttl, s', user) <==> forall t :: InFlight(s', user, t) ==> Stale(ttl, s'.clock, s'.lookups[t].state, s'.lookups[t].now);
  }

  /** From an empty cache: a lookup fetches "claimed", the slot is suspended, the cache invalidated. */
  function SuspendDuringLookup(user: string): seq<Step> {
    [Start(1, user), CheckMutex(1), Fetch(1, true), Patch(user, "suspended"), Invalidate(user)]
  }

  lemma AfterSuspendDuringLookup(ttl: int, clock: int, user: string)
    ensures Run(ttl, Init(clock, map[user := "claimed"]), SuspendDuringLookup(user)) ==
            State(clock, map[user := "suspended"], map[], map[1 := Fetched(user, clock, "claimed")])
  {
    var s := Init(clock, map[user := "claimed"]);
    RunFour(ttl, s, Start(1, user), CheckMutex(1), Fetch(1, true), Patch(user, "suspended"));
    var four := [Start(1, user), CheckMutex(1), Fetch(1, true), Patch(user, "suspended")];
    assert SuspendDuringLookup(user) == four + [Invalidate(user)];
    RunSnoc(ttl, s, four, Invalidate(user));
  }

  /** The comment's promise fails on a run from the initial state: the record is blocked, the cache is
      empty, no patch follows and no fetch fails, and yet the next lookup is admitted. */
  lemma StaleWriteBackAdmits(ttl: int, clock: int, user: string)
    requires ttl > 0
    ensures var s := Run(ttl, Init(clock, map[user := "claimed"]), SuspendDuringLookup(user));
            var more := [WriteMutex(1), Start(2, user), CheckMutex(2)];
            Blocked(Answer(s.store, user)) && user !in s.cache && !Quiet(ttl, s, user) &&
            Undisturbed(more, user) &&
            Run(ttl, s, more).lookups == map[1 := Done(user, clock, "claimed"), 2 := Done(user, clock, "claimed")]
  {
    AfterSuspendDuringLookup(ttl, clock, user);
    var s := Run(ttl, Init(clock, map[user := "claimed"]), SuspendDuringLookup(user));
    assert s.lookups[1].Fetched? && !Stale(ttl, s.clock, s.lookups[1].state, s.lookups[1].now);
    RunTwo(ttl, s, WriteMutex(1), Start(2, user));
    RunSnoc(ttl, s, [WriteMutex(1), Start(2, user)], CheckMutex(2));
    assert [WriteMutex(1), Start(2, user)] + [CheckMutex(2)] == [WriteMutex(1), Start(2, user), CheckMutex(2)];
  }
}

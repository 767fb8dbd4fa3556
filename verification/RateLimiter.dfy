/**
 The in-memory sliding-window rate limiter: a bounded queue of timestamps per key, with a background
 sweep that forgets idle keys.

 The reference is the full log of accepted requests: a request is accepted exactly when fewer than the
 limit of accepted requests lie in the last `duration` seconds.
 */
module RateLimiter {
  import opened Wrappers

  /** Entries of `log` less than `duration` seconds before `now`. */
  function Recent(log: seq<int>, now: int, duration: int): nat {
    if log == [] then 0
    else Recent(log[..|log| - 1], now, duration) + if now - log[|log| - 1] < duration then 1 else 0
  }

  /** Entries of `log` in the half-open window from `from` of length `duration`. */
  function InWindow(log: seq<int>, from: int, duration: int): nat {
    if log == [] then 0
    else InWindow(log[..|log| - 1], from, duration) + if from <= log[|log| - 1] < from + duration then 1 else 0
  }

  /** A limit of zero admits as many requests as a limit of one: a new key is always admitted. */
  function Effective(max: nat): nat { if max == 0 then 1 else max }

  /** Non-decreasing, and nothing later than `clock`. */
  ghost predicate Ascends(s: seq<int>, clock: int) {
    s == [] || (s[|s| - 1] <= clock && Ascends(s[..|s| - 1], s[|s| - 1]))
  }

  lemma {:induction false} AscendsAt(s: seq<int>, clock: int, i: nat)
    requires Ascends(s, clock) && i < |s|
    ensures s[i] <= s[|s| - 1] <= clock
  {
    if i < |s| - 1 { AscendsAt(s[..|s| - 1], s[|s| - 1], i); }
  }

  /** Every entry was admitted by the reference rule. */
  ghost predicate Admitted(log: seq<int>, limit: nat, duration: int) {
    log == [] ||
    (Admitted(log[..|log| - 1], limit, duration) && Recent(log[..|log| - 1], log[|log| - 1], duration) < limit)
  }

  /** In a sorted log, the recent entries are fewer than `limit` exactly when the `limit`-th last is old. */
  lemma {:induction false} RecentByLast(log: seq<int>, clock: int, now: int, duration: int, limit: nat)
    requires Ascends(log, clock) && limit >= 1
    ensures Recent(log, now, duration) < limit <==> |log| < limit || now - log[|log| - limit] >= duration
  {
    if log != [] {
      var front, last := log[..|log| - 1], log[|log| - 1];
      if now - last >= duration {
        NoneRecent(log, clock, now, duration);
        if |log| >= limit { AscendsAt(log, clock, |log| - limit); }
      } else if limit >= 2 {
        RecentByLast(front, last, now, duration, limit - 1);
      }
    }
  }

  lemma {:induction false} NoneRecent(log: seq<int>, clock: int, now: int, duration: int)
    requires Ascends(log, clock) && (log == [] || now - log[|log| - 1] >= duration)
    ensures Recent(log, now, duration) == 0
  {
    if log != [] {
      var front := log[..|log| - 1];
      NoneRecent(front, log[|log| - 1], now, duration);
    }
  }

  lemma {:induction false} WindowWithinRecent(log: seq<int>, from: int, duration: int, now: int)
    requires now < from + duration
    ensures InWindow(log, from, duration) <= Recent(log, now, duration)
  {
    if log != [] { WindowWithinRecent(log[..|log| - 1], from, duration, now); }
  }

  /** No window of the limiter's length ever holds more admitted requests than the limit. */
  lemma {:induction false} WindowBound(log: seq<int>, limit: nat, duration: int, from: int)
    requires Admitted(log, limit, duration)
    ensures InWindow(log, from, duration) <= limit
  {
    if log != [] {
      var front, last := log[..|log| - 1], log[|log| - 1];
      WindowBound(front, limit, duration, from);
      if from <= last < from + duration {
        WindowWithinRecent(front, from, duration, last);
      }
    }
  }

  /** What the queue of a key must remember of its log: its last entries, as many as the limit unless the
      newest forgotten one is already too old to matter. */
  ghost predicate Remembers(queue: seq<int>, log: seq<int>, limit: nat, duration: int, clock: int) {
    && |queue| <= limit && |queue| <= |log| && queue == log[|log| - |queue|..]
    && (|queue| == limit || |queue| == |log| || clock - log[|log| - |queue| - 1] >= duration)
  }

  /** With a short queue the request is admitted; with a full one its oldest entry decides. */
  lemma Decision(queue: seq<int>, log: seq<int>, limit: nat, duration: int, clock: int, now: int)
    requires Ascends(log, clock) && Remembers(queue, log, limit, duration, clock) && clock <= now && limit >= 1
    ensures |queue| < limit ==> Recent(log, now, duration) < limit
    ensures |queue| == limit ==> (Recent(log, now, duration) < limit <==> now - queue[0] >= duration)
  {
    RecentByLast(log, clock, now, duration, limit);
    if |queue| < limit <= |log| {
      AscendsTo(log, clock, |log| - |queue|);
      AscendsAt(log[..|log| - |queue|], log[|log| - |queue| - 1], |log| - limit);
    }
  }

  lemma {:induction false} AscendsTo(s: seq<int>, clock: int, n: nat)
    requires Ascends(s, clock) && 0 < n <= |s|
    ensures Ascends(s[..n], s[n - 1])
  {
    if n < |s| {
      AscendsTo(s[..|s| - 1], s[|s| - 1], n);
      assert s[..|s| - 1][..n] == s[..n];
    } else {
      assert s[..n] == s;
    }
  }

  lemma AscendsAppend(log: seq<int>, clock: int, now: int)
    requires Ascends(log, clock) && clock <= now
    ensures Ascends(log + [now], now)
  {
    assert (log + [now])[..|log|] == log;
    AscendsLater(log, clock, now);
  }

  lemma AscendsLater(log: seq<int>, clock: int, now: int)
    requires Ascends(log, clock) && clock <= now
    ensures Ascends(log, now)
  {
  }

  /** Appending to both, and shifting a full queue, keeps what must be remembered. */
  lemma RemembersAppend(queue: seq<int>, log: seq<int>, limit: nat, duration: int, clock: int, now: int)
    requires Remembers(queue, log, limit, duration, clock) && clock <= now && limit >= 1
    ensures Remembers(if |queue| < limit then queue + [now] else queue[1..] + [now], log + [now], limit, duration, now)
  {
  }

  /** The policy of a key, fixed while the limiter runs. */
  datatype Policy = Policy(max: nat, duration: int)

  ghost predicate KeyOK(p: Policy, queue: seq<int>, log: seq<int>, clock: int) {
    && Ascends(log, clock)
    && Admitted(log, Effective(p.max), p.duration)
    && Remembers(queue, log, Effective(p.max), p.duration, clock)
  }

  lemma KeyOKLater(p: Policy, queue: seq<int>, log: seq<int>, clock: int, now: int)
    requires KeyOK(p, queue, log, clock) && clock <= now
    ensures KeyOK(p, queue, log, now)
  {
  }

  lemma AdmittedAppend(log: seq<int>, limit: nat, duration: int, now: int)
    requires Admitted(log, limit, duration) && Recent(log, now, duration) < limit
    ensures Admitted(log + [now], limit, duration)
  {
    assert (log + [now])[..|log|] == log;
  }

  /** The queue after a request, or nothing if it is refused. */
  function Admit(queue: seq<int>, max: nat, duration: int, now: int): Option<seq<int>> {
    if queue == [] || |queue| < max then Some(queue + [now])
    else if now - queue[0] >= duration then Some(queue[1..] + [now])
    else None
  }

  /** The bounded queue decides as the full log does, and goes on remembering what matters. */
  lemma AdmitDecides(p: Policy, queue: seq<int>, log: seq<int>, clock: int, now: int)
    requires KeyOK(p, queue, log, clock) && clock <= now
    ensures Admit(queue, p.max, p.duration, now).Some? <==> Recent(log, now, p.duration) < Effective(p.max)
    ensures Admit(queue, p.max, p.duration, now).Some? ==>
              KeyOK(p, Admit(queue, p.max, p.duration, now).value, log + [now], now)
  {
    var limit := Effective(p.max);
    Decision(queue, log, limit, p.duration, clock, now);
    if Recent(log, now, p.duration) < limit {
      AdmittedAppend(log, limit, p.duration, now);
      RemembersAppend(queue, log, limit, p.duration, clock, now);
      AscendsAppend(log, clock, now);
    }
  }

  /** A queue whose newest entry is older than the window may be forgotten. */
  lemma KeyOKForget(p: Policy, queue: seq<int>, log: seq<int>, clock: int, expiration: nat)
    requires KeyOK(p, queue, log, clock) && queue != [] && p.duration <= expiration + 1
    requires clock - queue[|queue| - 1] > expiration
    ensures KeyOK(p, [], log, clock)
  {
    assert queue[|queue| - 1] == log[|log| - 1];
  }

  function At(m: map<string, seq<int>>, key: string): seq<int> { if key in m then m[key] else [] }

  function Extend(m: map<string, seq<int>>, key: string, now: int): map<string, seq<int>> {
    m[key := At(m, key) + [now]]
  }

  // ---- the store and its two operations

  type Store = map<string, seq<int>>

  datatype Answer = Answer(ok: bool, store: Store)

  function Ask(store: Store, key: string, max: nat, duration: int, now: int): Answer {
    var admitted := Admit(At(store, key), max, duration, now);
    if admitted.Some? then Answer(true, store[key := admitted.value]) else Answer(false, store)
  }

  predicate Expired(queue: seq<int>, now: int, expiration: int) {
    |queue| == 0 || now - queue[|queue| - 1] > expiration
  }

  /** The store once the sweep has looked at every key outside `pending`. */
  function Swept(store: Store, pending: set<string>, now: int, expiration: int): Store {
    map key | key in store && (key in pending || !Expired(store[key], now, expiration)) :: store[key]
  }

  lemma SweptStep(store: Store, pending: set<string>, now: int, expiration: int, key: string)
    requires key in pending && key in store
    ensures key in Swept(store, pending, now, expiration) && Swept(store, pending, now, expiration)[key] == store[key]
    ensures Swept(store, pending - {key}, now, expiration)
         == if Expired(store[key], now, expiration) then Swept(store, pending, now, expiration) - {key}
            else Swept(store, pending, now, expiration)
  {
  }

  ghost predicate NoEmptyQueue(store: Store) { forall key :: key in store ==> store[key] != [] }

  class InMemoryRateLimiter {
    var store: Store
    const expiration: int   // seconds

    constructor (expiration: int)
      ensures store == map[] && this.expiration == expiration
    {
      this.store := map[];
      this.expiration := expiration;
    }

    method Request(key: string, max: nat, duration: int, now: int) returns (ok: bool)
      requires NoEmptyQueue(store)
      modifies this
      ensures Answer(ok, store) == Ask(old(store), key, max, duration, now)
      ensures NoEmptyQueue(store)
    {
      if key in store {
        var queue := store[key];
        if |queue| < max {
          store := store[key := queue + [now]];
          return true;
        } else if now - queue[0] >= duration {
          store := store[key := queue[1..] + [now]];
          return true;
        } else {
          return false;
        }
      } else {
        store := store[key := [] + [now]];
      }
      return true;
    }

    /** One pass of the background sweep. */
    method ClearExpiredItems(now: int)
      modifies this
      ensures store == Swept(old(store), {}, now, expiration)
      ensures NoEmptyQueue(store)
    {
      var keys := store.Keys;
      assert store == Swept(old(store), keys, now, expiration);
      while keys != {}
        invariant keys <= old(store).Keys && store == Swept(old(store), keys, now, expiration)
        decreases |keys|
      {
        ghost var some := SomeMember(keys);
        var key :| key in keys;
        SweptStep(old(store), keys, now, expiration, key);
        keys := keys - {key};
        if Expired(store[key], now, expiration) {
          store := store - {key};
        }
      }
    }
  }

  // ---- every run answers like the full log

  type Policies = string -> Policy

  datatype Event = Asked(key: string, now: int) | Sweep(now: int)

  /** The store, the answers, and what was admitted, which no step reads. */
  datatype State = State(store: Store, log: map<string, seq<int>>, answers: seq<bool>)

  const FRESH := State(map[], map[], [])

  /** A limiter set up with a positive expiry has a sweeper; its expiry in whole seconds may be 0.  One set up without
      an expiry has none, and nothing is ever swept. */
  type Sweeper = Option<nat>

  function StepLimiter(policies: Policies, sweeper: Sweeper, s: State, e: Event): State {
    match e
    case Asked(key, now) =>
      var a := Ask(s.store, key, policies(key).max, policies(key).duration, now);
      State(a.store, if a.ok then Extend(s.log, key, now) else s.log, s.answers + [a.ok])
    case Sweep(now) => if sweeper.None? then s else s.(store := Swept(s.store, {}, now, sweeper.value))
  }

  function Run(policies: Policies, sweeper: Sweeper, events: seq<Event>): State {
    if events == [] then FRESH
    else StepLimiter(policies, sweeper, Run(policies, sweeper, events[..|events| - 1]), events[|events| - 1])
  }

  /** The reference: nothing is ever forgotten, and nothing is bounded. */
  datatype Reference = Reference(log: map<string, seq<int>>, answers: seq<bool>)

  function StepReference(policies: Policies, r: Reference, e: Event): Reference {
    match e
    case Asked(key, now) =>
      var ok := Recent(At(r.log, key), now, policies(key).duration) < Effective(policies(key).max);
      Reference(if ok then Extend(r.log, key, now) else r.log, r.answers + [ok])
    case Sweep(_) => r
  }

  function RunReference(policies: Policies, events: seq<Event>): Reference {
    if events == [] then Reference(map[], [])
    else StepReference(policies, RunReference(policies, events[..|events| - 1]), events[|events| - 1])
  }

  /** The clock does not run backwards. */
  predicate InOrder(events: seq<Event>) {
    |events| < 2
    || (events[|events| - 2].now <= events[|events| - 1].now && InOrder(events[..|events| - 1]))
  }

  predicate Before(events: seq<Event>, now: int) { events == [] || events[|events| - 1].now <= now }

  lemma RunNext(policies: Policies, sweeper: Sweeper, events: seq<Event>, e: Event)
    ensures Run(policies, sweeper, events + [e]) == StepLimiter(policies, sweeper, Run(policies, sweeper, events), e)
    ensures RunReference(policies, events + [e]) == StepReference(policies, RunReference(policies, events), e)
  {
    assert (events + [e])[..|events|] == events;
  }

  lemma InOrderNext(events: seq<Event>, e: Event)
    ensures InOrder(events + [e]) <==> InOrder(events) && Before(events, e.now)
  {
    assert (events + [e])[..|events|] == events;
  }

  lemma SplitLast(events: seq<Event>) returns (front: seq<Event>, e: Event)
    requires events != []
    ensures events == front + [e] && |front| < |events|
  {
    front, e := events[..|events| - 1], events[|events| - 1];
  }

  /** The window of the key is not longer than the age at which a sweep forgets it. */
  predicate Short(p: Policy, sweeper: Sweeper) { sweeper.None? || p.duration <= sweeper.value + 1 }

  lemma AskOK(p: Policy, s: State, key: string, now: int)
    requires KeyOK(p, At(s.store, key), At(s.log, key), now)
    ensures var a := Ask(s.store, key, p.max, p.duration, now);
      && (a.ok <==> Recent(At(s.log, key), now, p.duration) < Effective(p.max))
      && KeyOK(p, At(a.store, key), if a.ok then At(s.log, key) + [now] else At(s.log, key), now)
  {
    AdmitDecides(p, At(s.store, key), At(s.log, key), now, now);
  }

  lemma SweepOK(p: Policy, store: Store, log: seq<int>, key: string, now: int, expiration: nat)
    requires KeyOK(p, At(store, key), log, now) && p.duration <= expiration + 1
    ensures KeyOK(p, At(Swept(store, {}, now, expiration), key), log, now)
  {
    if key in store && store[key] != [] && Expired(store[key], now, expiration) {
      KeyOKForget(p, store[key], log, now, expiration);
    }
  }

  lemma StepOK(policies: Policies, sweeper: Sweeper, s: State, e: Event, key: string)
    requires KeyOK(policies(key), At(s.store, key), At(s.log, key), e.now) && Short(policies(key), sweeper)
    ensures var t := StepLimiter(policies, sweeper, s, e); KeyOK(policies(key), At(t.store, key), At(t.log, key), e.now)
  {
    match e
    case Asked(k, now) => if k == key { AskOK(policies(key), s, key, now); }
    case Sweep(now) =>
      if sweeper.Some? { SweepOK(policies(key), s.store, At(s.log, key), key, now, sweeper.value); }
  }

  /** Over every run, the queue of a key remembers what matters of the requests admitted for it, and each of those was
      admitted by the rule of the full log; other keys do not matter. */
  lemma {:induction false} RunOK(policies: Policies, sweeper: Sweeper, events: seq<Event>, key: string, clock: int)
    requires InOrder(events) && Before(events, clock) && Short(policies(key), sweeper)
    ensures var s := Run(policies, sweeper, events); KeyOK(policies(key), At(s.store, key), At(s.log, key), clock)
    decreases |events|
  {
    if events != [] {
      var front, e := SplitLast(events);
      InOrderNext(front, e);
      RunOK(policies, sweeper, front, key, e.now);
      RunNext(policies, sweeper, front, e);
      StepOK(policies, sweeper, Run(policies, sweeper, front), e, key);
      var s := Run(policies, sweeper, events);
      KeyOKLater(policies(key), At(s.store, key), At(s.log, key), e.now, clock);
    }
  }

  ghost predicate AllShort(policies: Policies, sweeper: Sweeper) { forall key :: Short(policies(key), sweeper) }

  ghost predicate Agrees(policies: Policies, sweeper: Sweeper, events: seq<Event>) {
    var s, r := Run(policies, sweeper, events), RunReference(policies, events);
    s.answers == r.answers && s.log == r.log
  }

  lemma StepAgrees(policies: Policies, sweeper: Sweeper, s: State, r: Reference, e: Event)
    requires s.answers == r.answers && s.log == r.log
    requires e.Asked? ==> KeyOK(policies(e.key), At(s.store, e.key), At(s.log, e.key), e.now)
    ensures var t, q := StepLimiter(policies, sweeper, s, e), StepReference(policies, r, e);
      t.answers == q.answers && t.log == q.log
  {
    if e.Asked? { AskOK(policies(e.key), s, e.key, e.now); }
  }

  /** With windows that the sweep cannot disturb, the bounded queues and the sweep answer every request as the full log
      does, and admit the same requests. */
  lemma {:induction false} LimiterRefinesLog(policies: Policies, sweeper: Sweeper, events: seq<Event>)
    requires InOrder(events) && AllShort(policies, sweeper)
    ensures Agrees(policies, sweeper, events)
    decreases |events|
  {
    if events != [] {
      var front, e := SplitLast(events);
      InOrderNext(front, e);
      LimiterRefinesLog(policies, sweeper, front);
      RunNext(policies, sweeper, front, e);
      if e.Asked? { RunOK(policies, sweeper, front, e.key, e.now); }
      StepAgrees(policies, sweeper, Run(policies, sweeper, front), RunReference(policies, front), e);
    }
  }

  // ---- longer windows

  function Zeros(n: nat): (s: seq<int>)
    ensures |s| == n && (n > 0 ==> s[n - 1] == 0)
  {
    if n == 0 then [] else Zeros(n - 1) + [0]
  }

  lemma {:induction false} ZerosRecent(n: nat, now: int, duration: int)
    requires 0 <= now < duration
    ensures Recent(Zeros(n), now, duration) == n && InWindow(Zeros(n), 0, duration) == n
  {
    if n > 0 {
      ZerosRecent(n - 1, now, duration);
      assert Zeros(n)[..n - 1] == Zeros(n - 1);
    }
  }

  /** `n` requests at the same moment. */
  function Burst(key: string, n: nat): seq<Event> { if n == 0 then [] else Burst(key, n - 1) + [Asked(key, 0)] }

  function Trues(n: nat): seq<bool> { if n == 0 then [] else Trues(n - 1) + [true] }

  /** `n` requests of one key at moment 0, and nothing else. */
  function Full(key: string, n: nat): map<string, seq<int>> { if n == 0 then map[] else map[key := Zeros(n)] }

  lemma FullNext(key: string, n: nat)
    ensures At(Full(key, n), key) == Zeros(n) && Extend(Full(key, n), key, 0) == Full(key, n + 1)
  {
    assert Zeros(n + 1) == Zeros(n) + [0];
  }

  /** Both the limiter and the log take one more request of the burst. */
  lemma OneMore(policies: Policies, sweeper: Sweeper, key: string, n: nat)
    requires policies(key).duration > 0 && n < Effective(policies(key).max)
    ensures StepLimiter(policies, sweeper, State(Full(key, n), Full(key, n), Trues(n)), Asked(key, 0))
            == State(Full(key, n + 1), Full(key, n + 1), Trues(n + 1))
    ensures StepReference(policies, Reference(Full(key, n), Trues(n)), Asked(key, 0))
            == Reference(Full(key, n + 1), Trues(n + 1))
  {
    ZerosRecent(n, 0, policies(key).duration);
    FullNext(key, n);
  }

  /** After `n` requests of the burst both hold them all. */
  ghost predicate Filled(policies: Policies, sweeper: Sweeper, key: string, n: nat, events: seq<Event>) {
    && InOrder(events) && Before(events, 0)
    && Run(policies, sweeper, events) == State(Full(key, n), Full(key, n), Trues(n))
    && RunReference(policies, events) == Reference(Full(key, n), Trues(n))
  }

  lemma FillOneMore(policies: Policies, sweeper: Sweeper, key: string, n: nat, events: seq<Event>)
    requires policies(key).duration > 0 && n < Effective(policies(key).max)
    requires Filled(policies, sweeper, key, n, events)
    ensures Filled(policies, sweeper, key, n + 1, events + [Asked(key, 0)])
  {
    InOrderNext(events, Asked(key, 0));
    RunNext(policies, sweeper, events, Asked(key, 0));
    OneMore(policies, sweeper, key, n);
  }

  lemma NothingFilled(policies: Policies, sweeper: Sweeper, key: string)
    ensures Filled(policies, sweeper, key, 0, [])
  {
  }

  lemma {:induction false} BurstFills(policies: Policies, sweeper: Sweeper, key: string, n: nat)
    requires policies(key).duration > 0 && n <= Effective(policies(key).max)
    ensures Filled(policies, sweeper, key, n, Burst(key, n))
  {
    NothingFilled(policies, sweeper, key);
    for m := 0 to n
      invariant Filled(policies, sweeper, key, m, Burst(key, m))
    {
      FillOneMore(policies, sweeper, key, m, Burst(key, m));
    }
  }

  lemma SweepForgets(key: string, n: nat, expiration: nat)
    requires n > 0
    ensures Swept(Full(key, n), {}, expiration + 1, expiration) == map[]
  {
  }

  /** The limiter has forgotten a full burst and admits, the log refuses. */
  lemma ForgottenBurst(policies: Policies, expiration: nat, key: string, n: nat, now: nat)
    requires n == Effective(policies(key).max) && now == expiration + 1 < policies(key).duration
    ensures StepLimiter(policies, Some(expiration), State(Full(key, n), Full(key, n), Trues(n)), Sweep(now))
            == State(map[], Full(key, n), Trues(n))
    ensures StepLimiter(policies, Some(expiration), State(map[], Full(key, n), Trues(n)), Asked(key, now))
            == State(map[key := [now]], map[key := Zeros(n) + [now]], Trues(n) + [true])
    ensures StepReference(policies, Reference(Full(key, n), Trues(n)), Asked(key, now)).answers == Trues(n) + [false]
  {
    SweepForgets(key, n, expiration);
    ZerosRecent(n, now, policies(key).duration);
    FullNext(key, n);
    assert [] + [now] == [now];
    assert Extend(Full(key, n), key, now) == map[key := Zeros(n) + [now]];
  }

  /** A burst that fills the window, a sweep as soon as it forgets the key, and one more request. */
  function Overfull(key: string, n: nat, now: nat): seq<Event> { Burst(key, n) + [Sweep(now)] + [Asked(key, now)] }

  lemma OverfullRun(policies: Policies, expiration: nat, key: string, n: nat, now: nat)
    requires n == Effective(policies(key).max) && now == expiration + 1 < policies(key).duration
    ensures InOrder(Overfull(key, n, now))
    ensures Run(policies, Some(expiration), Overfull(key, n, now))
            == State(map[key := [now]], map[key := Zeros(n) + [now]], Trues(n) + [true])
    ensures RunReference(policies, Overfull(key, n, now)).answers == Trues(n) + [false]
  {
    var burst := Burst(key, n);
    BurstFills(policies, Some(expiration), key, n);
    InOrderNext(burst, Sweep(now));
    InOrderNext(burst + [Sweep(now)], Asked(key, now));
    RunNext(policies, Some(expiration), burst, Sweep(now));
    RunNext(policies, Some(expiration), burst + [Sweep(now)], Asked(key, now));
    ForgottenBurst(policies, expiration, key, n, now);
  }

  lemma OverfullWindow(n: nat, now: nat, duration: int)
    requires now < duration
    ensures InWindow(Zeros(n) + [now], 0, duration) == n + 1
  {
    ZerosRecent(n, now, duration);
    assert (Zeros(n) + [now])[..n] == Zeros(n);
  }

  /** With a longer window, such a run tells the limiter from the log, and overfills a window. */
  lemma LongWindowDisagrees(policies: Policies, expiration: nat, key: string) returns (events: seq<Event>)
    requires policies(key).duration > expiration + 1
    ensures InOrder(events) && !Agrees(policies, Some(expiration), events)
    ensures InWindow(At(Run(policies, Some(expiration), events).log, key), 0, policies(key).duration)
            > Effective(policies(key).max)
  {
    var n, now := Effective(policies(key).max), expiration + 1;
    events := Overfull(key, n, now);
    OverfullRun(policies, expiration, key, n, now);
    OverfullWindow(n, now, policies(key).duration);
    assert (Trues(n) + [true])[|Trues(n)|] != (Trues(n) + [false])[|Trues(n)|];
  }

  /** The limiter answers every run as the full log does if and only if it has no sweeper or no window exceeds the age
      at which a sweep forgets a key: the expiry plus one second. */
  lemma RefinesExactly(policies: Policies, sweeper: Sweeper)
    ensures (forall events :: InOrder(events) ==> Agrees(policies, sweeper, events)) <==> AllShort(policies, sweeper)
  {
    if AllShort(policies, sweeper) {
      forall events | InOrder(events) ensures Agrees(policies, sweeper, events) {
        LimiterRefinesLog(policies, sweeper, events);
      }
    } else {
      var key :| !Short(policies(key), sweeper);
      var events := LongWindowDisagrees(policies, sweeper.value, key);
    }
  }

  // ---- how many requests a window holds

  ghost predicate HoldsAt(policies: Policies, sweeper: Sweeper, key: string, events: seq<Event>, from: int) {
    InOrder(events) ==>
      InWindow(At(Run(policies, sweeper, events).log, key), from, policies(key).duration) <= policies(key).max
  }

  /** No window of the key's duration ever holds more admitted requests than its limit. */
  ghost predicate Holds(policies: Policies, sweeper: Sweeper, key: string) {
    forall events, from :: HoldsAt(policies, sweeper, key, events, from)
  }

  lemma ShortHolds(policies: Policies, sweeper: Sweeper, key: string, events: seq<Event>, from: int)
    requires Short(policies(key), sweeper) && policies(key).max >= 1
    ensures HoldsAt(policies, sweeper, key, events, from)
  {
    if InOrder(events) {
      var p, log := policies(key), At(Run(policies, sweeper, events).log, key);
      RunOK(policies, sweeper, events, key, if events == [] then 0 else events[|events| - 1].now);
      WindowBound(log, Effective(p.max), p.duration, from);
    }
  }

  lemma {:induction false} NoWindow(log: seq<int>, from: int, duration: int)
    requires duration <= 0
    ensures InWindow(log, from, duration) == 0
  {
    if log != [] { NoWindow(log[..|log| - 1], from, duration); }
  }

  /** A limit of zero admits one request all the same. */
  lemma ZeroAdmitsOne(policies: Policies, sweeper: Sweeper, key: string)
    requires policies(key).max == 0 && policies(key).duration > 0
    ensures !HoldsAt(policies, sweeper, key, Burst(key, 1), 0)
  {
    BurstFills(policies, sweeper, key, 1);
    ZerosRecent(1, 0, policies(key).duration);
    FullNext(key, 1);
  }

  /** Every window of every run holds at most as many admitted requests as the limit if and only if the limit is at
      least 1 and the window is not longer than a sweep leaves alone, or there is no window at all. */
  lemma BoundExactly(policies: Policies, sweeper: Sweeper, key: string)
    ensures Holds(policies, sweeper, key) <==>
            policies(key).duration <= 0 || (policies(key).max >= 1 && Short(policies(key), sweeper))
  {
    var p := policies(key);
    if p.duration <= 0 {
      forall events, from ensures HoldsAt(policies, sweeper, key, events, from) {
        NoWindow(At(Run(policies, sweeper, events).log, key), from, p.duration);
      }
    } else if p.max == 0 {
      ZeroAdmitsOne(policies, sweeper, key);
    } else if Short(p, sweeper) {
      forall events, from ensures HoldsAt(policies, sweeper, key, events, from) {
        ShortHolds(policies, sweeper, key, events, from);
      }
    } else {
      var events := LongWindowDisagrees(policies, sweeper.value, key);
      assert !HoldsAt(policies, sweeper, key, events, 0);
    }
  }
}

/**
 One-time verification codes, in-memory branch: a code is registered for a purpose and a key, verified
 at most once, and expired pairs are evicted whenever the map has grown beyond its size.

 The reference remembers, for each purpose and key, the registration that is still unused; it never
 evicts and never looks at sizes.  Digests of codes are a parameter.
 */
module OneTimeCodes {
  import opened Wrappers
  import opened Sequences

  type Digest = string -> string

  const MAX_SIZE := 10
  const SECOND := 1_000_000_000   // times are in nanoseconds

  datatype Value = Value(digest: string, time: int)

  function EffectiveMinutes(setting: int): int {
    if setting <= 0 then 10 else if setting > 15 then 15 else setting
  }

  /** Whole seconds since `time`, compared with the validity window. */
  predicate Expired(time: int, now: int, minutes: int) { (now - time) / SECOND >= minutes * 60 }

  /** A registration is good for less than the minutes set, with 10 for none and at most 15. */
  lemma WindowExactly(time: int, now: int, setting: int)
    ensures Expired(time, now, EffectiveMinutes(setting)) <==>
            now - time >= 60_000_000_000 * (if setting <= 0 then 10 else if setting > 15 then 15 else setting)
  {
    ExpiredExactly(time, now, EffectiveMinutes(setting));
  }

  lemma ExpiredExactly(time: int, now: int, minutes: int)
    ensures Expired(time, now, minutes) <==> now - time >= minutes * 60_000_000_000
  {
  }

  lemma ExpiredStays(time: int, now: int, later: int, minutes: int)
    requires Expired(time, now, minutes) && now <= later
    ensures Expired(time, later, minutes)
  {
    DivMonotone(now - time, later - time);
  }

  lemma DivMonotone(a: int, b: int)
    requires a <= b
    ensures a / SECOND <= b / SECOND
  {
  }

  // ---- the map

  type Store = map<string, Value>

  function Evicted(store: Store, pending: set<string>, now: int, minutes: int): Store {
    map k | k in store && (k in pending || !Expired(store[k].time, now, minutes)) :: store[k]
  }

  function Register(h: Digest, store: Store, purpose: string, key: string, code: string, now: int,
                    minutes: int): Store {
    var added := store[purpose + key := Value(h(code), now)];
    if |added| > MAX_SIZE then Evicted(added, {}, now, minutes) else added
  }

  predicate Matches(h: Digest, store: Store, purpose: string, key: string, code: string, now: int, minutes: int) {
    purpose + key in store && !Expired(store[purpose + key].time, now, minutes)
      && store[purpose + key].digest == h(code)
  }

  /** A wrong code leaves a valid registration in place; a right one, or an expired registration, removes it. */
  function AfterVerify(h: Digest, store: Store, purpose: string, key: string, code: string, now: int,
                       minutes: int): Store {
    if purpose + key in store && !Expired(store[purpose + key].time, now, minutes)
      && store[purpose + key].digest != h(code)
    then store else store - {purpose + key}
  }

  class VerificationCodes {
    const digest: Digest
    var store: Store

    constructor (digest: Digest)
      ensures this.digest == digest && store == map[]
    {
      this.digest := digest;
      store := map[];
    }

    method RegisterVerificationCodeWithKey(key: string, code: string, purpose: string, now: int, setting: int)
      modifies this
      ensures store == Register(digest, old(store), purpose, key, code, now, EffectiveMinutes(setting))
    {
      store := store[purpose + key := Value(digest(code), now)];
      if |store| > MAX_SIZE {
        RemoveExpiredPairs(now, setting);
      }
    }

    method VerifyCodeWithKey(key: string, code: string, purpose: string, now: int, setting: int) returns (ok: bool)
      modifies this
      ensures ok == Matches(digest, old(store), purpose, key, code, now, EffectiveMinutes(setting))
      ensures store == AfterVerify(digest, old(store), purpose, key, code, now, EffectiveMinutes(setting))
      ensures ok <==> purpose + key in old(store) && old(store)[purpose + key].digest == digest(code)
                      && now - old(store)[purpose + key].time
                         < 60_000_000_000 * (if setting <= 0 then 10 else if setting > 15 then 15 else setting)
    {
      if purpose + key in store { WindowExactly(store[purpose + key].time, now, setting); }
      var mapKey := purpose + key;
      if mapKey !in store || Expired(store[mapKey].time, now, EffectiveMinutes(setting)) {
        store := store - {mapKey};
        return false;
      }
      if store[mapKey].digest != digest(code) {
        return false;
      }
      store := store - {mapKey};
      return true;
    }

    method DeleteKey(key: string, purpose: string)
      modifies this
      ensures store == old(store) - {purpose + key}
    {
      store := store - {purpose + key};
    }

    method RemoveExpiredPairs(now: int, setting: int)
      modifies this
      ensures store == Evicted(old(store), {}, now, EffectiveMinutes(setting))
    {
      var keys, minutes := store.Keys, EffectiveMinutes(setting);
      assert store == Evicted(old(store), keys, now, minutes);
      while keys != {}
        invariant keys <= old(store).Keys && store == Evicted(old(store), keys, now, minutes)
        decreases |keys|
      {
        ghost var some := SomeMember(keys);
        var key :| key in keys;
        EvictedStep(old(store), keys, now, minutes, key);
        keys := keys - {key};
        if Expired(store[key].time, now, minutes) {
          store := store - {key};
        }
      }
    }
  }

  lemma EvictedStep(store: Store, pending: set<string>, now: int, minutes: int, key: string)
    requires key in pending && key in store
    ensures key in Evicted(store, pending, now, minutes) && Evicted(store, pending, now, minutes)[key] == store[key]
    ensures Evicted(store, pending - {key}, now, minutes)
         == if Expired(store[key].time, now, minutes) then Evicted(store, pending, now, minutes) - {key}
            else Evicted(store, pending, now, minutes)
  {
  }

  // ---- runs

  datatype Event =
    | Registered(purpose: string, key: string, code: string, now: int)
    | Verified(purpose: string, key: string, code: string, now: int)
    | Deleted(purpose: string, key: string, now: int)

  datatype State = State(store: Store, answers: seq<bool>)

  function Next(h: Digest, minutes: int, s: State, e: Event): State {
    match e
    case Registered(p, k, code, now) => State(Register(h, s.store, p, k, code, now, minutes), s.answers)
    case Verified(p, k, code, now) =>
      State(AfterVerify(h, s.store, p, k, code, now, minutes),
        s.answers + [Matches(h, s.store, p, k, code, now, minutes)])
    case Deleted(p, k, now) => State(s.store - {p + k}, s.answers)
  }

  function Run(h: Digest, minutes: int, events: seq<Event>): State {
    if events == [] then State(map[], [])
    else Next(h, minutes, Run(h, minutes, events[..|events| - 1]), events[|events| - 1])
  }

  /** `unused` maps a purpose and key to the event that registered its unused code; `consumed` lists the
      registrations that a verification used, in order. */
  datatype Reference = Reference(unused: map<(string, string), nat>, consumed: seq<nat>, answers: seq<bool>)

  predicate Usable(h: Digest, minutes: int, events: seq<Event>, unused: map<(string, string), nat>, e: Event)
    requires e.Verified?
  {
    && (e.purpose, e.key) in unused
    && var i := unused[(e.purpose, e.key)];
    && i < |events| && events[i].Registered?
    && !Expired(events[i].now, e.now, minutes) && h(events[i].code) == h(e.code)
  }

  function NextReference(h: Digest, minutes: int, before: seq<Event>, r: Reference, e: Event): Reference {
    match e
    case Registered(p, k, _, _) => r.(unused := r.unused[(p, k) := |before|])
    case Verified(p, k, _, _) =>
      if Usable(h, minutes, before, r.unused, e) then
        Reference(r.unused - {(p, k)}, r.consumed + [r.unused[(p, k)]], r.answers + [true])
      else r.(answers := r.answers + [false])
    case Deleted(p, k, _) => r.(unused := r.unused - {(p, k)})
  }

  function RunReference(h: Digest, minutes: int, events: seq<Event>): Reference {
    if events == [] then Reference(map[], [], [])
    else
      var before := events[..|events| - 1];
      NextReference(h, minutes, before, RunReference(h, minutes, before), events[|events| - 1])
  }

  /** One-letter purposes, and a clock that does not run backwards. */
  ghost predicate Proper(events: seq<Event>) {
    events == [] ||
    var before, e := events[..|events| - 1], events[|events| - 1];
    Proper(before) && |e.purpose| == 1 && (before != [] ==> ClockOf(before) <= e.now)
  }

  ghost function ClockOf(events: seq<Event>): int { if events == [] then 0 else events[|events| - 1].now }

  /** One-letter purposes keep the concatenated keys of different purposes and keys apart. */
  lemma KeysDoNotClash(p: string, k: string, p': string, k': string)
    requires |p| == |p'| && p + k == p' + k'
    ensures p == p' && k == k'
  {
    assert p == (p + k)[..|p|] && p' == (p' + k')[..|p'|];
    assert k == (p + k)[|p|..] && k' == (p' + k')[|p'|..];
  }

  /** Map and reference agree on one purpose and key: the map holds the unused registration, or has
      forgotten one that has expired. */
  ghost predicate EntryOK(h: Digest, minutes: int, events: seq<Event>, store: Store, unused: map<(string, string), nat>,
                          clock: int, p: string, k: string)
  {
    if (p, k) in unused then
      var i := unused[(p, k)];
      && i < |events| && events[i].Registered? && events[i].purpose == p && events[i].key == k
      && (if p + k in store then store[p + k] == Value(h(events[i].code), events[i].now)
          else Expired(events[i].now, clock, minutes))
    else
      p + k !in store
  }

  ghost predicate Agrees(h: Digest, minutes: int, events: seq<Event>, store: Store, unused: map<(string, string), nat>,
                         clock: int) {
    forall p: string, k: string :: |p| == 1 ==> EntryOK(h, minutes, events, store, unused, clock, p, k)
  }

  /** More events and a later clock change nothing that was agreed. */
  lemma AgreesLater(h: Digest, minutes: int, events: seq<Event>, e: Event, store: Store,
                    unused: map<(string, string), nat>,
                    clock: int, now: int)
    requires Agrees(h, minutes, events, store, unused, clock) && clock <= now
    ensures Agrees(h, minutes, events + [e], store, unused, now)
  {
    forall p: string, k: string | |p| == 1 ensures EntryOK(h, minutes, events + [e], store, unused, now, p, k) {
      assert EntryOK(h, minutes, events, store, unused, clock, p, k);
      if (p, k) in unused && p + k !in store {
        ExpiredStays(events[unused[(p, k)]].now, clock, now, minutes);
      }
    }
  }

  /** Eviction forgets only expired registrations. */
  lemma EvictionAgrees(h: Digest, minutes: int, events: seq<Event>, store: Store, unused: map<(string, string), nat>,
                       now: int)
    requires Agrees(h, minutes, events, store, unused, now)
    ensures Agrees(h, minutes, events, Evicted(store, {}, now, minutes), unused, now)
  {
    forall p: string, k: string | |p| == 1
      ensures EntryOK(h, minutes, events, Evicted(store, {}, now, minutes), unused, now, p, k)
    {
      assert EntryOK(h, minutes, events, store, unused, now, p, k);
    }
  }

  lemma AdditionAgrees(h: Digest, minutes: int, events: seq<Event>, store: Store, unused: map<(string, string), nat>,
                       now: int, i: nat)
    requires Agrees(h, minutes, events, store, unused, now)
    requires i < |events| && events[i].Registered? && |events[i].purpose| == 1
    ensures var e := events[i];
      Agrees(h, minutes, events, store[e.purpose + e.key := Value(h(e.code), e.now)], unused[(e.purpose, e.key) := i],
        now)
  {
    var e := events[i];
    var store', unused' := store[e.purpose + e.key := Value(h(e.code), e.now)], unused[(e.purpose, e.key) := i];
    forall p: string, k: string | |p| == 1 ensures EntryOK(h, minutes, events, store', unused', now, p, k) {
      assert EntryOK(h, minutes, events, store, unused, now, p, k);
      if p + k == e.purpose + e.key { KeysDoNotClash(p, k, e.purpose, e.key); }
    }
  }

  lemma RemovalAgrees(h: Digest, minutes: int, events: seq<Event>, store: Store, unused: map<(string, string), nat>,
                      now: int, purpose: string, key: string)
    requires Agrees(h, minutes, events, store, unused, now) && |purpose| == 1
    ensures Agrees(h, minutes, events, store - {purpose + key}, unused - {(purpose, key)}, now)
  {
    forall p: string, k: string | |p| == 1
      ensures EntryOK(h, minutes, events, store - {purpose + key}, unused - {(purpose, key)}, now, p, k)
    {
      assert EntryOK(h, minutes, events, store, unused, now, p, k);
      if p + k == purpose + key { KeysDoNotClash(p, k, purpose, key); }
    }
  }

  /** A verification that finds nothing or something expired only tidies up. */
  lemma TidyAgrees(h: Digest, minutes: int, events: seq<Event>, store: Store, unused: map<(string, string), nat>,
                   now: int, purpose: string, key: string)
    requires Agrees(h, minutes, events, store, unused, now) && |purpose| == 1
    requires purpose + key !in store || Expired(store[purpose + key].time, now, minutes)
    ensures Agrees(h, minutes, events, store - {purpose + key}, unused, now)
  {
    forall p: string, k: string | |p| == 1
      ensures EntryOK(h, minutes, events, store - {purpose + key}, unused, now, p, k)
    {
      assert EntryOK(h, minutes, events, store, unused, now, p, k);
      if p + k == purpose + key { KeysDoNotClash(p, k, purpose, key); }
    }
  }

  lemma VerifyAgrees(h: Digest, minutes: int, events: seq<Event>, store: Store, unused: map<(string, string), nat>,
                     e: Event)
    requires e.Verified? && |e.purpose| == 1 && Agrees(h, minutes, events, store, unused, e.now)
    ensures var ok := Matches(h, store, e.purpose, e.key, e.code, e.now, minutes);
      && (ok <==> Usable(h, minutes, events, unused, e))
      && Agrees(h, minutes, events, AfterVerify(h, store, e.purpose, e.key, e.code, e.now, minutes),
                if ok then unused - {(e.purpose, e.key)} else unused, e.now)
  {
    assert EntryOK(h, minutes, events, store, unused, e.now, e.purpose, e.key);
    if Matches(h, store, e.purpose, e.key, e.code, e.now, minutes) {
      RemovalAgrees(h, minutes, events, store, unused, e.now, e.purpose, e.key);
    } else if e.purpose + e.key !in store || Expired(store[e.purpose + e.key].time, e.now, minutes) {
      TidyAgrees(h, minutes, events, store, unused, e.now, e.purpose, e.key);
    }
  }

  lemma NextAgrees(h: Digest, minutes: int, before: seq<Event>, e: Event, s: State, r: Reference, clock: int)
    requires |e.purpose| == 1 && clock <= e.now && Agrees(h, minutes, before, s.store, r.unused, clock)
            && s.answers == r.answers
    ensures var s', r' := Next(h, minutes, s, e), NextReference(h, minutes, before, r, e);
      s'.answers == r'.answers && Agrees(h, minutes, before + [e], s'.store, r'.unused, e.now)
  {
    var events := before + [e];
    AgreesLater(h, minutes, before, e, s.store, r.unused, clock, e.now);
    match e
    case Registered(p, k, code, now) =>
      AdditionAgrees(h, minutes, events, s.store, r.unused, now, |before|);
      EvictionAgrees(h, minutes, events, s.store[p + k := Value(h(code), now)], r.unused[(p, k) := |before|], now);
    case Verified(p, k, code, now) =>
      UsableSame(h, minutes, before, e, s.store, r.unused, clock);
      VerifyAgrees(h, minutes, events, s.store, r.unused, e);
    case Deleted(p, k, now) =>
      RemovalAgrees(h, minutes, events, s.store, r.unused, now, p, k);
  }

  lemma EmptyAgrees(h: Digest, minutes: int, now: int)
    ensures Agrees(h, minutes, [], map[], map[], now)
  {
  }

  lemma RunNext(h: Digest, minutes: int, before: seq<Event>, e: Event)
    ensures Run(h, minutes, before + [e]) == Next(h, minutes, Run(h, minutes, before), e)
    ensures RunReference(h, minutes, before + [e])
            == NextReference(h, minutes, before, RunReference(h, minutes, before), e)
  {
    assert (before + [e])[..|before|] == before;
  }

  lemma ProperNext(before: seq<Event>, e: Event)
    requires Proper(before + [e])
    ensures Proper(before) && |e.purpose| == 1 && (before != [] ==> ClockOf(before) <= e.now)
  {
    assert (before + [e])[..|before|] == before;
  }

  /** The map, with its evictions, answers every verification as the reference does. */
  lemma {:induction false} RunAgrees(h: Digest, minutes: int, events: seq<Event>)
    requires Proper(events)
    ensures Run(h, minutes, events).answers == RunReference(h, minutes, events).answers
    ensures Agrees(h, minutes, events, Run(h, minutes, events).store, RunReference(h, minutes, events).unused,
            ClockOf(events))
  {
    if events == [] {
      EmptyAgrees(h, minutes, ClockOf([]));
    } else {
      var before, e := events[..|events| - 1], events[|events| - 1];
      assert before + [e] == events;
      ProperNext(before, e);
      RunAgrees(h, minutes, before);
      RunNext(h, minutes, before, e);
      if before == [] { EmptyAgrees(h, minutes, e.now); }
      NextAgrees(h, minutes, before, e, Run(h, minutes, before), RunReference(h, minutes, before),
                 if before == [] then e.now else ClockOf(before));
    }
  }

  lemma UsableSame(h: Digest, minutes: int, before: seq<Event>, e: Event, store: Store,
                   unused: map<(string, string), nat>, clock: int)
    requires e.Verified? && |e.purpose| == 1 && Agrees(h, minutes, before, store, unused, clock)
    ensures Usable(h, minutes, before, unused, e) <==> Usable(h, minutes, before + [e], unused, e)
  {
    assert EntryOK(h, minutes, before, store, unused, clock, e.purpose, e.key);
  }

  // ---- what a successful verification means

  predicate Concerns(e: Event, p: string, k: string) { e.purpose == p && e.key == k }

  /** The unused registration of a purpose and key is its latest one, with no deletion, replacement or
      use since. */
  ghost predicate Latest(h: Digest, minutes: int, events: seq<Event>, i: nat, p: string, k: string) {
    && i < |events| && events[i].Registered? && Concerns(events[i], p, k)
    && (forall j :: i < j < |events| && Concerns(events[j], p, k) ==>
          events[j].Verified? && !Usable(h, minutes, events[..j], RunReference(h, minutes, events[..j]).unused,
            events[j]))
  }

  lemma {:induction false} UnusedIsLatest(h: Digest, minutes: int, events: seq<Event>, p: string, k: string)
    requires (p, k) in RunReference(h, minutes, events).unused
    ensures Latest(h, minutes, events, RunReference(h, minutes, events).unused[(p, k)], p, k)
  {
    var n := |events| - 1;
    var before, e := events[..n], events[n];
    var i := RunReference(h, minutes, events).unused[(p, k)];
    if !(e.Registered? && Concerns(e, p, k)) {
      UnusedIsLatest(h, minutes, before, p, k);
      forall j | i < j < |events| && Concerns(events[j], p, k)
        ensures events[j].Verified? && !Usable(h, minutes, events[..j], RunReference(h, minutes, events[..j]).unused,
                events[j])
      {
        if j < n { assert before[..j] == events[..j]; }
      }
    }
  }

  /** No registration is used twice, and what is still unused was never used. */
  lemma {:induction false} UsedOnce(h: Digest, minutes: int, events: seq<Event>)
    ensures var r := RunReference(h, minutes, events);
      && Distinct(r.consumed)
      && (forall x :: x in r.consumed ==> x < |events|)
      && (forall pk :: pk in r.unused ==> r.unused[pk] < |events| && r.unused[pk] !in r.consumed)
      && (forall pk, pk' :: pk in r.unused && pk' in r.unused && pk != pk' ==> r.unused[pk] != r.unused[pk'])
  {
    if events != [] { UsedOnce(h, minutes, events[..|events| - 1]); }
  }

  /**
   A verification succeeds exactly when its code has the digest of the latest registration for that
   purpose and key, younger than the validity window and not deleted, replaced or used since; evicting
   expired pairs never shows.
   */
  lemma SuccessMeans(h: Digest, minutes: int, events: seq<Event>, e: Event)
    requires Proper(events + [e]) && e.Verified?
    ensures Matches(h, Run(h, minutes, events).store, e.purpose, e.key, e.code, e.now, minutes) <==>
            exists i: nat :: Latest(h, minutes, events, i, e.purpose, e.key)
                             && e.now - events[i].now < minutes * 60_000_000_000 && h(events[i].code) == h(e.code)
  {
    forall i: nat | i < |events| && events[i].Registered?
      ensures Expired(events[i].now, e.now, minutes) <==> e.now - events[i].now >= minutes * 60_000_000_000
    {
      ExpiredExactly(events[i].now, e.now, minutes);
    }
    var all := events + [e];
    assert all[..|events|] == events && all[|events|] == e;
    RunAgrees(h, minutes, events);
    var s, r := Run(h, minutes, events), RunReference(h, minutes, events);
    if events == [] { EmptyAgrees(h, minutes, e.now); }
    var clock := if events == [] then e.now else ClockOf(events);
    AgreesLater(h, minutes, events, e, s.store, r.unused, clock, e.now);
    VerifyAgrees(h, minutes, all, s.store, r.unused, e);
    UsableSame(h, minutes, events, e, s.store, r.unused, clock);
    if (e.purpose, e.key) in r.unused {
      UnusedIsLatest(h, minutes, events, e.purpose, e.key);
    }
    forall i: nat | Latest(h, minutes, events, i, e.purpose, e.key)
      ensures (e.purpose, e.key) in r.unused && r.unused[(e.purpose, e.key)] == i
    {
      LatestIsUnused(h, minutes, events, i, e.purpose, e.key);
    }
  }

  lemma {:induction false} LatestIsUnused(h: Digest, minutes: int, events: seq<Event>, i: nat, p: string, k: string)
    requires Latest(h, minutes, events, i, p, k)
    ensures (p, k) in RunReference(h, minutes, events).unused && RunReference(h, minutes, events).unused[(p, k)] == i
  {
    var n := |events| - 1;
    if i < n {
      var before, e := events[..n], events[n];
      forall j | i < j < |before| && Concerns(before[j], p, k)
        ensures before[j].Verified? && !Usable(h, minutes, before[..j], RunReference(h, minutes, before[..j]).unused,
                before[j])
      {
        assert before[..j] == events[..j] && before[j] == events[j];
      }
      LatestIsUnused(h, minutes, before, i, p, k);
    }
  }
}

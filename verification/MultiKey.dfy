/**
 Managing the keys of a multi-key channel.

 The keys are stored as one text, by a codec that is a parameter here, and their status, disabling time
 and disabling reason in three sparse maps from key index; deleting keys re-indexes the maps.  The
 reference model is a plain list of records.
 */
module MultiKey {
  import opened Wrappers
  import opened Sequences

  const ENABLED := 1
  const MANUALLY_DISABLED := 2
  const AUTO_DISABLED := 3

  /** The stored columns. */
  datatype Channel = Channel(text: string, size: int, status: map<int, int>, time: map<int, int>,
                             reason: map<int, string>)

  /** How keys are written as one text and read from it, and how an update counts them. */
  datatype Codec = Codec(read: string -> seq<string>, count: string -> nat, write: seq<string> -> string)

  predicate CountsAt(codec: Codec, text: string) {
    codec.read(text) != [] || text == "" ==> codec.count(text) == |codec.read(text)|
  }

  /** Only for a text other than "" that holds no key may the count differ from the number of keys. */
  ghost predicate Proper(codec: Codec) { codec.write([]) == "" && forall text :: CountsAt(codec, text) }

  /** `Update`: an empty text is not written (zero values are skipped) and the stored one counts instead;
      status entries beyond the last key are dropped. */
  function Persist(codec: Codec, stored: Channel, edited: Channel): Channel {
    var text := if edited.text != "" then edited.text else stored.text;
    var size := codec.count(text);
    Channel(text, size, map i | i in edited.status && i < size :: edited.status[i], edited.time, edited.reason)
  }

  // ---- the reference model

  datatype Record = Record(key: string, status: int, time: Option<int>, reason: Option<string>) {
    function Enable(): Record { Record(key, ENABLED, None, None) }

    function Disable(): Record { this.(status := MANUALLY_DISABLED) }

    /** What survives of a record when the auto-disabled ones are deleted: an enabled key's leftover time
        and reason are forgotten. */
    function Tidy(): Record { if status == ENABLED then Enable() else this }
  }

  function StatusAt(status: map<int, int>, i: int): int { if i in status then status[i] else ENABLED }

  function Lookup<T>(m: map<int, T>, i: int): Option<T> { if i in m then Some(m[i]) else None }

  function RecordAt(key: string, status: map<int, int>, time: map<int, int>, reason: map<int, string>, i: int): Record {
    Record(key, StatusAt(status, i), Lookup(time, i), Lookup(reason, i))
  }

  function Records(keys: seq<string>, status: map<int, int>, time: map<int, int>,
                   reason: map<int, string>): seq<Record> {
    seq(|keys|, i requires 0 <= i < |keys| => RecordAt(keys[i], status, time, reason, i))
  }

  /** The list of records a channel represents. */
  function View(codec: Codec, ch: Channel): seq<Record> { Records(codec.read(ch.text), ch.status, ch.time, ch.reason) }

  /** A key without an entry is enabled, without time and reason. */
  lemma ViewIs(codec: Codec, ch: Channel, i: nat)
    requires i < |codec.read(ch.text)|
    ensures |View(codec, ch)| == |codec.read(ch.text)| && View(codec, ch)[i].key == codec.read(ch.text)[i]
    ensures i in ch.status.Keys ==> View(codec, ch)[i].status == ch.status[i]
    ensures i !in ch.status.Keys ==> View(codec, ch)[i].status == 1
    ensures View(codec, ch)[i].time.Some? <==> i in ch.time.Keys
    ensures View(codec, ch)[i].reason.Some? <==> i in ch.reason.Keys
    ensures i in ch.time.Keys ==> View(codec, ch)[i].time.value == ch.time[i]
    ensures i in ch.reason.Keys ==> View(codec, ch)[i].reason.value == ch.reason[i]
  {
  }

  datatype Action =
    | DisableKey(index: Option<int>)
    | EnableKey(index: Option<int>)
    | EnableAllKeys
    | DisableAllKeys
    | DeleteKey(index: Option<int>)
    | DeleteDisabledKeys

  predicate InRange(index: Option<int>, n: int) { index.Some? && 0 <= index.value < n }

  /** The records that are not auto-disabled, tidied. */
  function WithoutAutoDisabled(rs: seq<Record>): seq<Record> {
    if rs == [] then []
    else
      var rest, last := WithoutAutoDisabled(rs[..|rs| - 1]), rs[|rs| - 1];
      if last.status == AUTO_DISABLED then rest else rest + [last.Tidy()]
  }

  predicate AllAutoDisabled(rs: seq<Record>) { forall r :: r in rs ==> r.status == AUTO_DISABLED }

  predicate SomeAutoDisabled(rs: seq<Record>) { exists r :: r in rs && r.status == AUTO_DISABLED }

  function EnableEach(rs: seq<Record>): seq<Record> { seq(|rs|, i requires 0 <= i < |rs| => rs[i].Enable()) }

  function DisableEach(rs: seq<Record>): seq<Record> {
    seq(|rs|, i requires 0 <= i < |rs| => if rs[i].status == ENABLED then rs[i].Disable() else rs[i])
  }

  /** What each action does to the list of records.  Deleting the auto-disabled keys when every key is
      auto-disabled enables them all instead: see `DeleteDisabledExactly`. */
  function Reference(rs: seq<Record>, action: Action): seq<Record> {
    match action
    case DisableKey(index) => if InRange(index, |rs|) then rs[index.value := rs[index.value].Disable()] else rs
    case EnableKey(index) => if InRange(index, |rs|) then rs[index.value := rs[index.value].Enable()] else rs
    case EnableAllKeys => EnableEach(rs)
    case DisableAllKeys => DisableEach(rs)
    case DeleteKey(index) => if InRange(index, |rs|) && |rs| > 1 then RemoveAt(rs, index.value) else rs
    case DeleteDisabledKeys => ReferenceDeleteDisabled(rs)
  }

  function ReferenceDeleteDisabled(rs: seq<Record>): seq<Record> {
    if !SomeAutoDisabled(rs) then rs
    else if AllAutoDisabled(rs) then EnableEach(rs)
    else WithoutAutoDisabled(rs)
  }

  /** What the actions are meant to do: a deletion deletes. */
  function Intended(rs: seq<Record>, action: Action): seq<Record> {
    if action.DeleteDisabledKeys? && SomeAutoDisabled(rs) then WithoutAutoDisabled(rs) else Reference(rs, action)
  }

  // ---- the stored form

  /** Which keys a deletion drops. */
  datatype Drop = DropIndex(index: int) | DropAutoDisabled {
    predicate Drops(status: map<int, int>, i: int) {
      match this
      case DropIndex(index) => i == index
      case DropAutoDisabled => StatusAt(status, i) == AUTO_DISABLED
    }

    /** Deleting the auto-disabled keys copies times and reasons of disabled keys only. */
    predicate Copies(status: map<int, int>, i: int) { DropIndex? || StatusAt(status, i) != ENABLED }
  }

  /** The remaining keys and the three rebuilt maps. */
  datatype Rebuilt = Rebuilt(keys: seq<string>, status: map<int, int>, time: map<int, int>, reason: map<int, string>)

  function CopyInfo<T>(to: map<int, T>, at: int, from: map<int, T>, i: int, copies: bool): map<int, T> {
    if copies && i in from then to[at := from[i]] else to
  }

  function CopyStatus(to: map<int, int>, at: int, from: map<int, int>, i: int): map<int, int> {
    if StatusAt(from, i) != ENABLED then to[at := StatusAt(from, i)] else to
  }

  /** One more key is kept: it moves from index `i` to the end of the remaining keys. */
  function KeepKey(b: Rebuilt, key: string, ch: Channel, drop: Drop, i: int): Rebuilt {
    var at := |b.keys|;
    Rebuilt(b.keys + [key],
            CopyStatus(b.status, at, ch.status, i),
            CopyInfo(b.time, at, ch.time, i, drop.Copies(ch.status, i)),
            CopyInfo(b.reason, at, ch.reason, i, drop.Copies(ch.status, i)))
  }

  function Rebuild(keys: seq<string>, ch: Channel, drop: Drop, n: nat): Rebuilt
    requires n <= |keys|
  {
    if n == 0 then Rebuilt([], map[], map[], map[])
    else
      var b, i := Rebuild(keys, ch, drop, n - 1), n - 1;
      if drop.Drops(ch.status, i) then b else KeepKey(b, keys[i], ch, drop, i)
  }

  /** The keys that a deletion leaves, with their rebuilt maps. */
  function Left(codec: Codec, ch: Channel, drop: Drop): Rebuilt {
    Rebuild(codec.read(ch.text), ch, drop, |codec.read(ch.text)|)
  }

  function Install(codec: Codec, ch: Channel, b: Rebuilt): Channel {
    Persist(codec, ch, Channel(codec.write(b.keys), |b.keys|, b.status, b.time, b.reason))
  }

  /** One call of `ManageMultiKeys` whose database write succeeds. */
  function Manage(codec: Codec, ch: Channel, action: Action): Channel {
    match action
    case DisableKey(index) => if InRange(index, ch.size) then DisableAt(codec, ch, index.value) else ch
    case EnableKey(index) => if InRange(index, ch.size) then EnableAt(codec, ch, index.value) else ch
    case EnableAllKeys => Persist(codec, ch, ch.(status := map[], time := map[], reason := map[]))
    case DisableAllKeys => DisableAll(codec, ch)
    case DeleteKey(index) => if InRange(index, ch.size) then DeleteAt(codec, ch, index.value) else ch
    case DeleteDisabledKeys => DeleteDisabled(codec, ch)
  }

  function DisableAt(codec: Codec, ch: Channel, k: int): Channel {
    Persist(codec, ch, ch.(status := ch.status[k := MANUALLY_DISABLED]))
  }

  function EnableAt(codec: Codec, ch: Channel, k: int): Channel {
    Persist(codec, ch, ch.(status := ch.status - {k}, time := ch.time - {k}, reason := ch.reason - {k}))
  }

  function DisableAll(codec: Codec, ch: Channel): Channel {
    var status := DisabledBelow(ch.status, ch.size);
    if status == ch.status then ch else Persist(codec, ch, ch.(status := status))
  }

  /** The last key is never deleted this way. */
  function DeleteAt(codec: Codec, ch: Channel, k: int): Channel {
    var b := Left(codec, ch, DropIndex(k));
    if b.keys == [] then ch else Install(codec, ch, b)
  }

  function DeleteDisabled(codec: Codec, ch: Channel): Channel {
    var b := Left(codec, ch, DropAutoDisabled);
    if |b.keys| == |codec.read(ch.text)| then ch else Install(codec, ch, b)
  }

  /** Every enabled index below `n` is marked as manually disabled. */
  function DisabledBelow(status: map<int, int>, n: int): map<int, int> {
    if n <= 0 then status
    else
      var rest := DisabledBelow(status, n - 1);
      if StatusAt(status, n - 1) == ENABLED then rest[n - 1 := MANUALLY_DISABLED] else rest
  }

  // ---- actions that keep the text

  /** The recorded size is the number of keys, and the text is not an empty JSON array. */
  ghost predicate Valid(codec: Codec, ch: Channel) {
    Proper(codec) && ch.size == |codec.read(ch.text)| && (codec.read(ch.text) == [] ==> ch.text == "")
  }

  /** The recorded size is the one that every update computes. */
  ghost predicate Persisted(codec: Codec, ch: Channel) { Proper(codec) && ch.size == codec.count(ch.text) }

  /** Persisting drops only status entries that no key has. */
  lemma PersistView(codec: Codec, stored: Channel, edited: Channel)
    requires Proper(codec)
    ensures var after := Persist(codec, stored, edited);
      && Persisted(codec, after)
      && ((codec.read(after.text) == [] ==> after.text == "") ==> Valid(codec, after))
      && View(codec, after) == Records(codec.read(after.text), edited.status, edited.time, edited.reason)
  {
    var after := Persist(codec, stored, edited);
    assert CountsAt(codec, after.text);
    var keys := codec.read(after.text);
    forall i | 0 <= i < |keys| ensures StatusAt(after.status, i) == StatusAt(edited.status, i) { }
  }

  lemma {:induction false} DisabledBelowMeans(status: map<int, int>, n: int, i: int)
    ensures StatusAt(DisabledBelow(status, n), i)
         == if 0 <= i < n && StatusAt(status, i) == ENABLED then MANUALLY_DISABLED else StatusAt(status, i)
    decreases n
  {
    if n > 0 { DisabledBelowMeans(status, n - 1, i); }
  }

  lemma DisableAtRefines(codec: Codec, ch: Channel, k: int)
    requires Valid(codec, ch) && 0 <= k < ch.size
    ensures Valid(codec, DisableAt(codec, ch, k))
    ensures var rs := View(codec, ch); View(codec, DisableAt(codec, ch, k)) == rs[k := rs[k].Disable()]
  {
    PersistView(codec, ch, ch.(status := ch.status[k := MANUALLY_DISABLED]));
  }

  lemma EnableAtRefines(codec: Codec, ch: Channel, k: int)
    requires Valid(codec, ch) && 0 <= k < ch.size
    ensures Valid(codec, EnableAt(codec, ch, k))
    ensures var rs := View(codec, ch); View(codec, EnableAt(codec, ch, k)) == rs[k := rs[k].Enable()]
  {
    PersistView(codec, ch, ch.(status := ch.status - {k}, time := ch.time - {k}, reason := ch.reason - {k}));
  }

  lemma EnableAllRefines(codec: Codec, ch: Channel)
    requires Valid(codec, ch)
    ensures var after := Persist(codec, ch, ch.(status := map[], time := map[], reason := map[]));
            Valid(codec, after) && View(codec, after) == EnableEach(View(codec, ch))
  {
    PersistView(codec, ch, ch.(status := map[], time := map[], reason := map[]));
  }

  lemma DisableAllRecords(keys: seq<string>, ch: Channel)
    ensures Records(keys, DisabledBelow(ch.status, |keys|), ch.time, ch.reason)
         == DisableEach(Records(keys, ch.status, ch.time, ch.reason))
  {
    forall i | 0 <= i < |keys|
      ensures StatusAt(DisabledBelow(ch.status, |keys|), i)
           == if StatusAt(ch.status, i) == ENABLED then MANUALLY_DISABLED else StatusAt(ch.status, i)
    {
      DisabledBelowMeans(ch.status, |keys|, i);
    }
  }

  lemma DisableAllRefines(codec: Codec, ch: Channel)
    requires Valid(codec, ch)
    ensures Valid(codec, DisableAll(codec, ch)) && View(codec, DisableAll(codec, ch)) == DisableEach(View(codec, ch))
  {
    PersistView(codec, ch, ch.(status := DisabledBelow(ch.status, ch.size)));
    DisableAllRecords(codec.read(ch.text), ch);
  }

  /** The actions that keep every key do what the record list says. */
  lemma KeepingActionRefines(codec: Codec, ch: Channel, action: Action)
    requires Valid(codec, ch) && !action.DeleteKey? && !action.DeleteDisabledKeys?
    ensures Valid(codec, Manage(codec, ch, action))
    ensures View(codec, Manage(codec, ch, action)) == Reference(View(codec, ch), action)
    ensures Manage(codec, ch, action).text == ch.text
  {
    match action
    case DisableKey(index) => if InRange(index, ch.size) { DisableAtRefines(codec, ch, index.value); }
    case EnableKey(index) => if InRange(index, ch.size) { EnableAtRefines(codec, ch, index.value); }
    case EnableAllKeys => EnableAllRefines(codec, ch);
    case DisableAllKeys => DisableAllRefines(codec, ch);
  }

  // ---- deletions

  /** The records of the first `n` keys that survive, in order. */
  function Surviving(rs: seq<Record>, drop: Drop, n: nat): seq<Record>
    requires n <= |rs|
  {
    if n == 0 then []
    else
      var rest, r := Surviving(rs, drop, n - 1), rs[n - 1];
      match drop
      case DropIndex(index) => if n - 1 == index then rest else rest + [r]
      case DropAutoDisabled => if r.status == AUTO_DISABLED then rest else rest + [r.Tidy()]
  }

  ghost predicate Bounded<T>(m: map<int, T>, n: nat) { forall i :: i in m ==> i < n }

  lemma RecordsSnoc(keys: seq<string>, key: string, status: map<int, int>, time: map<int, int>,
                    reason: map<int, string>)
    ensures Records(keys + [key], status, time, reason)
            == Records(keys, status, time, reason) + [RecordAt(key, status, time, reason, |keys|)]
  {
  }

  lemma RecordsSame(keys: seq<string>, a: Rebuilt, b: Rebuilt)
    requires forall i :: 0 <= i < |keys| ==>
               RecordAt("", a.status, a.time, a.reason, i) == RecordAt("", b.status, b.time, b.reason, i)
    ensures Records(keys, a.status, a.time, a.reason) == Records(keys, b.status, b.time, b.reason)
  {
    forall i | 0 <= i < |keys|
      ensures RecordAt(keys[i], a.status, a.time, a.reason, i) == RecordAt(keys[i], b.status, b.time, b.reason, i)
    {
      assert RecordAt("", a.status, a.time, a.reason, i) == RecordAt("", b.status, b.time, b.reason, i);
    }
  }

  ghost predicate Fits(b: Rebuilt) {
    Bounded(b.status, |b.keys|) && Bounded(b.time, |b.keys|) && Bounded(b.reason, |b.keys|)
  }

  /** A kept key takes its own data along to its new index, and the others keep theirs. */
  lemma KeepKeyMeans(b: Rebuilt, key: string, ch: Channel, drop: Drop, i: int)
    requires Fits(b)
    ensures var c, r := KeepKey(b, key, ch, drop, i), RecordAt(key, ch.status, ch.time, ch.reason, i);
      Fits(c) && Records(c.keys, c.status, c.time, c.reason)
                 == Records(b.keys, b.status, b.time, b.reason) + [if drop.DropIndex? then r else r.Tidy()]
  {
    var c := KeepKey(b, key, ch, drop, i);
    RecordsSnoc(b.keys, key, c.status, c.time, c.reason);
    RecordsSame(b.keys, b, c);
  }

  /** Re-indexing: every surviving key keeps its own status, time and reason. */
  lemma {:induction false} RebuildMeans(keys: seq<string>, ch: Channel, drop: Drop, n: nat)
    requires n <= |keys|
    ensures var b := Rebuild(keys, ch, drop, n);
      Fits(b) && Records(b.keys, b.status, b.time, b.reason)
         == Surviving(Records(keys, ch.status, ch.time, ch.reason), drop, n)
  {
    if n > 0 {
      RebuildMeans(keys, ch, drop, n - 1);
      KeepKeyMeans(Rebuild(keys, ch, drop, n - 1), keys[n - 1], ch, drop, n - 1);
    }
  }

  lemma {:induction false} SurvivingIndex(rs: seq<Record>, k: int, n: nat)
    requires 0 <= k < |rs| && n <= |rs|
    ensures Surviving(rs, DropIndex(k), n) == if n <= k then rs[..n] else rs[..k] + rs[k + 1..n]
  {
    if n > 0 {
      SurvivingIndex(rs, k, n - 1);
    }
  }

  lemma {:induction false} SurvivingAutoDisabled(rs: seq<Record>, n: nat)
    requires n <= |rs|
    ensures Surviving(rs, DropAutoDisabled, n) == WithoutAutoDisabled(rs[..n])
  {
    if n > 0 {
      SurvivingAutoDisabled(rs, n - 1);
      assert rs[..n][..n - 1] == rs[..n - 1];
    }
  }

  /** What the keys that survive a deletion read back as, once stored. */
  ghost predicate Rereads(codec: Codec, keys: seq<string>) {
    codec.write(keys) != "" && codec.read(codec.write(keys)) == keys
  }

  lemma RecordsKeys(a: seq<string>, b: seq<string>, x: Rebuilt, y: Rebuilt)
    requires Records(a, x.status, x.time, x.reason) == Records(b, y.status, y.time, y.reason)
    ensures a == b
  {
    var ra, rb := Records(a, x.status, x.time, x.reason), Records(b, y.status, y.time, y.reason);
    assert |ra| == |a| && |rb| == |b|;
    forall i | 0 <= i < |a| ensures a[i] == b[i] { assert ra[i].key == a[i] && rb[i].key == b[i]; }
  }

  /** Installing the rebuilt maps represents the surviving records exactly when their keys read back. */
  lemma InstallExactly(codec: Codec, ch: Channel, b: Rebuilt)
    requires Valid(codec, ch) && |b.keys| < |codec.read(ch.text)|
    ensures View(codec, Install(codec, ch, b)) == Records(b.keys, b.status, b.time, b.reason) <==>
            Rereads(codec, b.keys)
    ensures Rereads(codec, b.keys) && b.keys != [] ==> Valid(codec, Install(codec, ch, b))
  {
    var after := Install(codec, ch, b);
    var text := codec.write(b.keys);
    assert after.text == if text != "" then text else ch.text;
    if View(codec, after) == Records(b.keys, b.status, b.time, b.reason) {
      RecordsKeys(codec.read(after.text), b.keys, Rebuilt([], after.status, after.time, after.reason), b);
    }
    if Rereads(codec, b.keys) && b.keys != [] {
      PersistView(codec, ch, Channel(text, |b.keys|, b.status, b.time, b.reason));
    }
  }

  lemma LeftByIndex(codec: Codec, ch: Channel, k: int)
    requires 0 <= k < |codec.read(ch.text)|
    ensures var b := Left(codec, ch, DropIndex(k));
      Records(b.keys, b.status, b.time, b.reason) == RemoveAt(View(codec, ch), k) && |b.keys| == |View(codec, ch)| - 1
  {
    var rs, keys := View(codec, ch), codec.read(ch.text);
    RebuildMeans(keys, ch, DropIndex(k), |keys|);
    SurvivingIndex(rs, k, |rs|);
    assert rs[k + 1..|rs|] == rs[k + 1..];
    var b := Left(codec, ch, DropIndex(k));
    assert |Records(b.keys, b.status, b.time, b.reason)| == |b.keys|;
  }

  lemma LeftByStatus(codec: Codec, ch: Channel)
    ensures var b := Left(codec, ch, DropAutoDisabled);
      && Records(b.keys, b.status, b.time, b.reason) == WithoutAutoDisabled(View(codec, ch))
      && |b.keys| == |WithoutAutoDisabled(View(codec, ch))|
      && Fits(b)
  {
    var rs, keys := View(codec, ch), codec.read(ch.text);
    RebuildMeans(keys, ch, DropAutoDisabled, |keys|);
    SurvivingAutoDisabled(rs, |rs|);
    assert rs[..|rs|] == rs;
    var b := Left(codec, ch, DropAutoDisabled);
    assert |Records(b.keys, b.status, b.time, b.reason)| == |b.keys|;
  }

  lemma LeftByStatusCount(codec: Codec, ch: Channel)
    requires SomeAutoDisabled(View(codec, ch))
    ensures |Left(codec, ch, DropAutoDisabled).keys| < |codec.read(ch.text)|
    ensures Left(codec, ch, DropAutoDisabled).keys == [] <==> AllAutoDisabled(View(codec, ch))
  {
    LeftByStatus(codec, ch);
    WithoutAutoDisabledCount(View(codec, ch));
    assert |View(codec, ch)| == |codec.read(ch.text)|;
  }

  /** Deleting one key of several removes its record and no other exactly when the remaining keys read back. */
  lemma DeleteKeyExactly(codec: Codec, ch: Channel, k: int)
    requires Valid(codec, ch) && 0 <= k < ch.size && ch.size > 1
    ensures View(codec, DeleteAt(codec, ch, k)) == RemoveAt(View(codec, ch), k) <==>
            Rereads(codec, Left(codec, ch, DropIndex(k)).keys)
    ensures Rereads(codec, Left(codec, ch, DropIndex(k)).keys) ==> Valid(codec, DeleteAt(codec, ch, k))
  {
    var b := Left(codec, ch, DropIndex(k));
    LeftByIndex(codec, ch, k);
    InstallExactly(codec, ch, b);
  }

  lemma {:induction false} WithoutAutoDisabledCount(rs: seq<Record>)
    ensures |WithoutAutoDisabled(rs)| <= |rs|
    ensures |WithoutAutoDisabled(rs)| == |rs| <==> !SomeAutoDisabled(rs)
    ensures WithoutAutoDisabled(rs) == [] <==> AllAutoDisabled(rs)
  {
    if rs != [] {
      var front, last := rs[..|rs| - 1], rs[|rs| - 1];
      WithoutAutoDisabledCount(front);
      assert rs == front + [last];
    }
  }

  /** Deleting the auto-disabled keys leaves the other records exactly when their keys read back. */
  lemma DeleteDisabledExactly(codec: Codec, ch: Channel)
    requires Valid(codec, ch) && SomeAutoDisabled(View(codec, ch))
    ensures var after := DeleteDisabled(codec, ch); var keys := Left(codec, ch, DropAutoDisabled).keys;
      && (View(codec, after) == WithoutAutoDisabled(View(codec, ch)) <==> Rereads(codec, keys))
      && (Rereads(codec, keys) && keys != [] ==> Valid(codec, after))
  {
    var b := Left(codec, ch, DropAutoDisabled);
    LeftByStatus(codec, ch);
    LeftByStatusCount(codec, ch);
    InstallExactly(codec, ch, b);
  }

  /** When every key is auto-disabled there is no text left to store, and deleting them enables them all instead. */
  lemma DeleteDisabledEnablesAll(codec: Codec, ch: Channel)
    requires Valid(codec, ch) && SomeAutoDisabled(View(codec, ch)) && AllAutoDisabled(View(codec, ch))
    ensures var after := DeleteDisabled(codec, ch);
      Valid(codec, after) && View(codec, after) == EnableEach(View(codec, ch)) && after.text == ch.text
  {
    var b := Left(codec, ch, DropAutoDisabled);
    LeftByStatus(codec, ch);
    LeftByStatusCount(codec, ch);
    PersistView(codec, ch, Channel("", 0, b.status, b.time, b.reason));
  }

  function Run(codec: Codec, ch: Channel, actions: seq<Action>): Channel {
    if actions == [] then ch else Manage(codec, Run(codec, ch, actions[..|actions| - 1]), actions[|actions| - 1])
  }

  // ---- whole runs of safe keys

  /** Any list of keys that are `good` reads back. */
  ghost predicate Safe(codec: Codec, good: string -> bool) {
    forall keys :: keys != [] && AllGood(good, keys) ==> Rereads(codec, keys)
  }

  ghost predicate AllGood(good: string -> bool, keys: seq<string>) { forall k :: k in keys ==> good(k) }

  ghost predicate GoodChannel(codec: Codec, good: string -> bool, ch: Channel) {
    Valid(codec, ch) && Safe(codec, good) && AllGood(good, codec.read(ch.text))
  }

  lemma {:induction false} LeftKeysWithin(keys: seq<string>, ch: Channel, drop: Drop, n: nat)
    requires n <= |keys|
    ensures forall k :: k in Rebuild(keys, ch, drop, n).keys ==> k in keys
  {
    if n > 0 { LeftKeysWithin(keys, ch, drop, n - 1); }
  }

  lemma DeleteAtRefines(codec: Codec, good: string -> bool, ch: Channel, k: int)
    requires GoodChannel(codec, good, ch) && 0 <= k < ch.size
    ensures GoodChannel(codec, good, DeleteAt(codec, ch, k))
    ensures View(codec, DeleteAt(codec, ch, k)) == if ch.size > 1 then RemoveAt(View(codec, ch), k) else View(codec, ch)
  {
    LeftByIndex(codec, ch, k);
    if ch.size > 1 {
      var b := Left(codec, ch, DropIndex(k));
      LeftKeysWithin(codec.read(ch.text), ch, DropIndex(k), |codec.read(ch.text)|);
      assert AllGood(good, b.keys);
      DeleteKeyExactly(codec, ch, k);
      assert DeleteAt(codec, ch, k).text == codec.write(b.keys);
    }
  }

  lemma DeleteDisabledRefines(codec: Codec, good: string -> bool, ch: Channel)
    requires GoodChannel(codec, good, ch)
    ensures GoodChannel(codec, good, DeleteDisabled(codec, ch))
    ensures View(codec, DeleteDisabled(codec, ch)) == ReferenceDeleteDisabled(View(codec, ch))
  {
    var rs, b := View(codec, ch), Left(codec, ch, DropAutoDisabled);
    if !SomeAutoDisabled(rs) {
      LeftByStatus(codec, ch);
      WithoutAutoDisabledCount(rs);
    } else if AllAutoDisabled(rs) {
      DeleteDisabledEnablesAll(codec, ch);
    } else {
      LeftByStatusCount(codec, ch);
      LeftKeysWithin(codec.read(ch.text), ch, DropAutoDisabled, |codec.read(ch.text)|);
      assert AllGood(good, b.keys);
      DeleteDisabledExactly(codec, ch);
      assert DeleteDisabled(codec, ch).text == codec.write(b.keys);
    }
  }

  lemma ActionRefines(codec: Codec, good: string -> bool, ch: Channel, action: Action)
    requires GoodChannel(codec, good, ch)
    ensures GoodChannel(codec, good, Manage(codec, ch, action))
    ensures View(codec, Manage(codec, ch, action)) == Reference(View(codec, ch), action)
  {
    match action
    case DeleteKey(index) => if InRange(index, ch.size) { DeleteAtRefines(codec, good, ch, index.value); }
    case DeleteDisabledKeys => DeleteDisabledRefines(codec, good, ch);
    case _ => KeepingActionRefines(codec, ch, action);
  }

  function ReferenceRun(rs: seq<Record>, actions: seq<Action>): seq<Record> {
    if actions == [] then rs else Reference(ReferenceRun(rs, actions[..|actions| - 1]), actions[|actions| - 1])
  }

  /** For every sequence of actions, the text with its three maps represents what the record list holds. */
  lemma {:induction false} RunRefines(codec: Codec, good: string -> bool, ch: Channel, actions: seq<Action>)
    requires GoodChannel(codec, good, ch)
    ensures GoodChannel(codec, good, Run(codec, ch, actions))
    ensures View(codec, Run(codec, ch, actions)) == ReferenceRun(View(codec, ch), actions)
  {
    if actions != [] {
      RunRefines(codec, good, ch, actions[..|actions| - 1]);
      ActionRefines(codec, good, Run(codec, ch, actions[..|actions| - 1]), actions[|actions| - 1]);
    }
  }

  // ---- whole runs of any channel, against what is meant

  /** A deletion leaves keys, and their text reads back as the same keys. */
  ghost predicate Keeps(codec: Codec, ch: Channel, action: Action) {
    match action
    case DeleteKey(index) =>
      InRange(index, |View(codec, ch)|) && |View(codec, ch)| > 1
      ==> Rereads(codec, Left(codec, ch, DropIndex(index.value)).keys)
    case DeleteDisabledKeys =>
      SomeAutoDisabled(View(codec, ch)) ==> Rereads(codec, Left(codec, ch, DropAutoDisabled).keys)
    case _ => true
  }

  lemma OnlyKeyStays(codec: Codec, ch: Channel, k: int)
    requires Valid(codec, ch) && 0 <= k < ch.size <= 1
    ensures DeleteAt(codec, ch, k) == ch
  {
    LeftByIndex(codec, ch, k);
    assert |View(codec, ch)| == |codec.read(ch.text)|;
  }

  lemma DeleteAtKeeps(codec: Codec, ch: Channel, k: int, rs: seq<Record>, keys: seq<string>)
    requires Valid(codec, ch) && 0 <= k < ch.size && rs == View(codec, ch) && keys == Left(codec, ch, DropIndex(k)).keys
    ensures |rs| == ch.size
    ensures View(codec, DeleteAt(codec, ch, k)) == (if ch.size > 1 then RemoveAt(rs, k) else rs)
            <==> (ch.size > 1 ==> Rereads(codec, keys))
  {
    assert |rs| == |codec.read(ch.text)|;
    if ch.size > 1 { DeleteKeyExactly(codec, ch, k); } else { OnlyKeyStays(codec, ch, k); }
  }

  lemma DeleteKeyKeeps(codec: Codec, ch: Channel, index: Option<int>, rs: seq<Record>, after: Channel,
                       meant: seq<Record>)
    requires Valid(codec, ch) && rs == View(codec, ch)
    requires after == if InRange(index, ch.size) then DeleteAt(codec, ch, index.value) else ch
    requires meant == if InRange(index, |rs|) && |rs| > 1 then RemoveAt(rs, index.value) else rs
    ensures View(codec, after) == meant <==>
            (InRange(index, |rs|) && |rs| > 1 ==> Rereads(codec, Left(codec, ch, DropIndex(index.value)).keys))
  {
    assert |rs| == |codec.read(ch.text)| == ch.size;
    if InRange(index, ch.size) {
      DeleteAtKeeps(codec, ch, index.value, rs, Left(codec, ch, DropIndex(index.value)).keys);
    }
  }

  lemma NothingToDelete(codec: Codec, ch: Channel, rs: seq<Record>)
    requires rs == View(codec, ch) && !SomeAutoDisabled(rs)
    ensures DeleteDisabled(codec, ch) == ch && Intended(rs, DeleteDisabledKeys) == rs
  {
    LeftByStatus(codec, ch);
    WithoutAutoDisabledCount(rs);
    assert |rs| == |codec.read(ch.text)|;
  }

  lemma DeleteDisabledKeeps(codec: Codec, ch: Channel, rs: seq<Record>)
    requires Valid(codec, ch) && rs == View(codec, ch)
    ensures View(codec, Manage(codec, ch, DeleteDisabledKeys)) == Intended(rs, DeleteDisabledKeys) <==>
            Keeps(codec, ch, DeleteDisabledKeys)
  {
    assert Manage(codec, ch, DeleteDisabledKeys) == DeleteDisabled(codec, ch);
    if SomeAutoDisabled(rs) {
      assert Intended(rs, DeleteDisabledKeys) == WithoutAutoDisabled(rs);
      DeleteDisabledExactly(codec, ch);
    } else {
      NothingToDelete(codec, ch, rs);
    }
  }

  /** A text that is an empty JSON array holds no key, and no action changes that. */
  lemma EmptyArrayStays(codec: Codec, ch: Channel, action: Action)
    requires codec.read(ch.text) == []
    ensures View(codec, Manage(codec, ch, action)) == [] == Intended(View(codec, ch), action)
            && Keeps(codec, ch, action)
  {
    assert View(codec, ch) == [] && Left(codec, ch, DropAutoDisabled).keys == [];
    if action.DeleteKey? && action.index.Some? { assert Left(codec, ch, DropIndex(action.index.value)).keys == []; }
    assert Manage(codec, ch, action).text == ch.text;
  }

  lemma ManagePersists(codec: Codec, ch: Channel, action: Action)
    requires Persisted(codec, ch)
    ensures Persisted(codec, Manage(codec, ch, action))
  {
  }

  /** One action does what is meant if and only if a deletion leaves keys whose text reads back. */
  lemma ActionExactly(codec: Codec, ch: Channel, action: Action)
    requires Persisted(codec, ch)
    ensures View(codec, Manage(codec, ch, action)) == Intended(View(codec, ch), action) <==> Keeps(codec, ch, action)
    ensures Persisted(codec, Manage(codec, ch, action))
  {
    ManagePersists(codec, ch, action);
    assert CountsAt(codec, ch.text);
    if codec.read(ch.text) == [] {
      EmptyArrayStays(codec, ch, action);
    } else {
      match action
      case DeleteKey(index) =>
        DeleteKeyKeeps(codec, ch, index, View(codec, ch), Manage(codec, ch, action), Intended(View(codec, ch), action));
      case DeleteDisabledKeys => DeleteDisabledKeeps(codec, ch, View(codec, ch));
      case _ => KeepingActionRefines(codec, ch, action);
    }
  }

  function IntendedRun(rs: seq<Record>, actions: seq<Action>): seq<Record> {
    if actions == [] then rs else Intended(IntendedRun(rs, actions[..|actions| - 1]), actions[|actions| - 1])
  }

  ghost predicate AlwaysMeant(codec: Codec, ch: Channel, actions: seq<Action>) {
    && View(codec, Run(codec, ch, actions)) == IntendedRun(View(codec, ch), actions)
    && (actions == [] || AlwaysMeant(codec, ch, actions[..|actions| - 1]))
  }

  ghost predicate AlwaysKeeps(codec: Codec, ch: Channel, actions: seq<Action>) {
    actions == []
    || (AlwaysKeeps(codec, ch, actions[..|actions| - 1])
        && Keeps(codec, Run(codec, ch, actions[..|actions| - 1]), actions[|actions| - 1]))
  }

  /** For every channel that was ever updated and every sequence of actions: the stored form represents the intended
      records throughout if and only if every deletion leaves keys whose text reads back. */
  lemma {:induction false} RunExactly(codec: Codec, ch: Channel, actions: seq<Action>)
    requires Persisted(codec, ch)
    ensures AlwaysMeant(codec, ch, actions) <==> AlwaysKeeps(codec, ch, actions)
    ensures Persisted(codec, Run(codec, ch, actions))
  {
    if actions != [] {
      var front := actions[..|actions| - 1];
      RunExactly(codec, ch, front);
      ActionExactly(codec, Run(codec, ch, front), actions[|actions| - 1]);
    }
  }

  // ---- deleting the first of two or three keys

  function Plainly(key: string, status: int): Record { Record(key, status, None, None) }

  /** The rebuilt form after the first of three keys is dropped, when only the last has a status. */
  lemma DropFirstOfThree(ch: Channel, a: string, b: string, c: string)
    requires ch.status == map[2 := AUTO_DISABLED] && ch.time == map[] && ch.reason == map[]
    ensures Rebuild([a, b, c], ch, DropIndex(0), 3) == Rebuilt([b, c], map[1 := AUTO_DISABLED], map[], map[])
  {
    var keys := [a, b, c];
    assert Rebuild(keys, ch, DropIndex(0), 1) == Rebuilt([], map[], map[], map[]);
    assert Rebuild(keys, ch, DropIndex(0), 2) == Rebuilt([b], map[], map[], map[]);
  }

  lemma DropFirstOfTwo(ch: Channel, a: string, b: string)
    requires ch.status == map[1 := AUTO_DISABLED] && ch.time == map[] && ch.reason == map[]
    ensures Rebuild([a, b], ch, DropIndex(0), 2) == Rebuilt([b], map[0 := AUTO_DISABLED], map[], map[])
  {
    assert Rebuild([a, b], ch, DropIndex(0), 1) == Rebuilt([], map[], map[], map[]);
  }

  /** What deleting the first key stores. */
  lemma FirstDeleted(codec: Codec, ch: Channel, left: Rebuilt, keys: seq<string>)
    requires Proper(codec) && ch.size > 0 && left == Left(codec, ch, DropIndex(0)) && left.keys != []
    requires codec.write(left.keys) != "" && codec.read(codec.write(left.keys)) == keys
    ensures View(codec, Manage(codec, ch, DeleteKey(Some(0)))) == Records(keys, left.status, left.time, left.reason)
  {
    assert Manage(codec, ch, DeleteKey(Some(0))) == Install(codec, ch, left);
    PersistView(codec, ch, Channel(codec.write(left.keys), |left.keys|, left.status, left.time, left.reason));
  }

  lemma RecordsOfThree(a: string, b: string, c: string)
    ensures Records([a, b, c], map[2 := AUTO_DISABLED], map[], map[])
            == [Plainly(a, ENABLED), Plainly(b, ENABLED), Plainly(c, AUTO_DISABLED)]
  {
  }

  lemma RecordsOfTwo(a: string, b: string, i: int)
    requires i == 0 || i == 1
    ensures Records([a, b], map[i := AUTO_DISABLED], map[], map[])
            == [Plainly(a, if i == 0 then AUTO_DISABLED else ENABLED),
              Plainly(b, if i == 1 then AUTO_DISABLED else ENABLED)]
  {
  }

  lemma RecordsOfOne(a: string)
    ensures Records([a], map[1 := AUTO_DISABLED], map[], map[]) == [Plainly(a, ENABLED)]
  {
  }

  lemma LastOfThreeEnabled(codec: Codec, ch: Channel, a: string, b: string, c: string)
    requires Proper(codec) && codec.read(ch.text) == [a, b, c] && codec.write([b, c]) != ""
    requires codec.read(codec.write([b, c])) == [c]
    requires ch == Channel(ch.text, 3, map[2 := AUTO_DISABLED], map[], map[])
    ensures View(codec, ch) == [Plainly(a, ENABLED), Plainly(b, ENABLED), Plainly(c, AUTO_DISABLED)]
    ensures View(codec, Manage(codec, ch, DeleteKey(Some(0)))) == [Plainly(c, ENABLED)]
  {
    RecordsOfThree(a, b, c);
    DropFirstOfThree(ch, a, b, c);
    FirstDeleted(codec, ch, Rebuilt([b, c], map[1 := AUTO_DISABLED], map[], map[]), [c]);
    RecordsOfOne(c);
  }

  lemma SecondOfTwoSplits(codec: Codec, ch: Channel, a: string, b: string, p: string, q: string)
    requires Proper(codec) && codec.read(ch.text) == [a, b] && codec.write([b]) != ""
    requires codec.read(codec.write([b])) == [p, q]
    requires ch == Channel(ch.text, 2, map[1 := AUTO_DISABLED], map[], map[])
    ensures View(codec, ch) == [Plainly(a, ENABLED), Plainly(b, AUTO_DISABLED)]
    ensures View(codec, Manage(codec, ch, DeleteKey(Some(0)))) == [Plainly(p, AUTO_DISABLED), Plainly(q, ENABLED)]
  {
    RecordsOfTwo(a, b, 1);
    DropFirstOfTwo(ch, a, b);
    FirstDeleted(codec, ch, Rebuilt([b], map[0 := AUTO_DISABLED], map[], map[]), [p, q]);
    RecordsOfTwo(p, q, 0);
  }

  // ---- the actions, record by record

  /** The actions that keep every key, spelled out: 1 is enabled and 2 disabled by hand.  Enabling forgets the time and
      the reason, disabling keeps them. */
  lemma KeepingActionMeans(codec: Codec, ch: Channel, action: Action, i: nat)
    requires Valid(codec, ch) && !action.DeleteKey? && !action.DeleteDisabledKeys? && i < |View(codec, ch)|
    ensures var before, after := View(codec, ch), View(codec, Manage(codec, ch, action));
      |after| == |before| && after[i].key == before[i].key &&
      match action
      case DisableKey(k) => after[i] == if k == Some(i) then before[i].(status := 2) else before[i]
      case EnableKey(k) => after[i] == if k == Some(i) then Record(before[i].key, 1, None, None) else before[i]
      case EnableAllKeys => after[i] == Record(before[i].key, 1, None, None)
      case DisableAllKeys => after[i] == if before[i].status == 1 then before[i].(status := 2) else before[i]
      case _ => true
  {
    KeepingActionRefines(codec, ch, action);
  }

  /** Deleting the auto-disabled keys, status 3, means to keep the others; enabled ones lose a left-over time and
      reason. */
  lemma {:induction false} SurvivorsMean(rs: seq<Record>, x: Record)
    ensures x in WithoutAutoDisabled(rs) <==>
            exists r :: r in rs && r.status != 3 && x == if r.status == 1 then Record(r.key, 1, None, None) else r
  {
    if rs != [] {
      var front := rs[..|rs| - 1];
      SurvivorsMean(front, x);
      assert rs == front + [rs[|rs| - 1]];
    }
  }

  // ---- the status listing

  /** One line of the listing: time and reason are shown for disabled keys only. */
  datatype KeyStatus = KeyStatus(index: nat, status: int, time: int, reason: string, preview: string)

  function Line(r: Record, i: nat): KeyStatus {
    KeyStatus(i, r.status,
              if r.status != ENABLED && r.time.Some? then r.time.value else 0,
              if r.status != ENABLED && r.reason.Some? then r.reason.value else "",
              if |r.key| > 10 then r.key[..10] + "..." else r.key)
  }

  /** The lines of the keys with the requested status, or of all keys. */
  function Listed(rs: seq<Record>, filter: Option<int>): seq<KeyStatus> {
    if rs == [] then []
    else
      var rest, i := Listed(rs[..|rs| - 1], filter), |rs| - 1;
      if Asked(filter, rs[i]) then rest + [Line(rs[i], i)] else rest
  }

  datatype Page = Page(lines: seq<KeyStatus>, total: nat, page: nat, pageSize: nat, totalPages: nat)

  function EffectivePageSize(pageSize: int): nat { if pageSize <= 0 then 50 else pageSize }

  function TotalPages(total: nat, pageSize: nat): nat
    requires pageSize > 0
  {
    var pages := (total + pageSize - 1) / pageSize;
    if pages == 0 then 1 else pages
  }

  function PageOf(lines: seq<KeyStatus>, page: int, requestedSize: int): Page {
    var pageSize := EffectivePageSize(requestedSize);
    var totalPages := TotalPages(|lines|, pageSize);
    var p := if page <= 0 then 1 else if page > totalPages then totalPages else page;
    var start := (p - 1) * pageSize;
    var end := if start + pageSize > |lines| then |lines| else start + pageSize;
    Page(if 0 <= start < |lines| && start <= end then lines[start..end] else [], |lines|, p, pageSize, totalPages)
  }

  /** A request outside the pages gets the nearest one, and one without a size gets 50 lines. */
  lemma PageIsClamped(lines: seq<KeyStatus>, page: int, requestedSize: int)
    ensures var r := PageOf(lines, page, requestedSize);
      && r.pageSize == (if requestedSize <= 0 then 50 else requestedSize) && r.total == |lines|
      && r.totalPages == TotalPages(|lines|, r.pageSize) && 1 <= r.page <= r.totalPages
      && (1 <= page <= r.totalPages ==> r.page == page)
      && (page < 1 ==> r.page == 1) && (page > r.totalPages ==> r.page == r.totalPages)
      && r == PageOf(lines, r.page, requestedSize)
  {
  }

  function Pages(lines: seq<KeyStatus>, requestedSize: int, n: nat): seq<KeyStatus> {
    if n == 0 then [] else Pages(lines, requestedSize, n - 1) + PageOf(lines, n, requestedSize).lines
  }

  /** No page but the first of an empty listing is empty. */
  lemma PageBounds(total: nat, pageSize: nat)
    requires pageSize > 0
    ensures (TotalPages(total, pageSize) - 1) * pageSize <= total <= TotalPages(total, pageSize) * pageSize
    ensures if total == 0 then TotalPages(total, pageSize) == 1
            else (TotalPages(total, pageSize) - 1) * pageSize < total
  {
    var q := (total + pageSize - 1) / pageSize;
    assert q * pageSize <= total + pageSize - 1 < q * pageSize + pageSize;
    assert (q - 1) * pageSize == q * pageSize - pageSize;
  }

  lemma EarlierPages(n: nat, m: nat, pageSize: nat)
    requires n <= m
    ensures n * pageSize <= m * pageSize
  {
  }

  function Cut(n: nat, total: nat): nat { if n < total then n else total }

  /** Page `n` holds the lines from `start` to `start + size`, as far as there are any. */
  lemma PageLines(lines: seq<KeyStatus>, requestedSize: int, n: nat, start: nat)
    requires 1 <= n <= TotalPages(|lines|, EffectivePageSize(requestedSize))
    requires start == (n - 1) * EffectivePageSize(requestedSize) <= |lines|
    ensures PageOf(lines, n, requestedSize).lines
            == lines[start..Cut(start + EffectivePageSize(requestedSize), |lines|)]
  {
  }

  lemma OnePageMore(n: int, size: nat)
    ensures n * size == (n - 1) * size + size
  {
  }

  lemma PageStart(total: nat, size: nat, n: nat, pages: nat)
    requires 1 <= n <= pages && (pages - 1) * size <= total
    ensures 0 <= (n - 1) * size <= total && n * size == (n - 1) * size + size
  {
    EarlierPages(0, n - 1, size);
    EarlierPages(n - 1, pages - 1, size);
    OnePageMore(n, size);
  }

  lemma JoinPrefix<T>(s: seq<T>, a: nat, b: nat)
    requires a <= b <= |s|
    ensures s[..a] + s[a..b] == s[..b]
  {
  }

  lemma {:induction false} PagesPrefix(lines: seq<KeyStatus>, requestedSize: int, size: nat, n: nat)
    requires size == EffectivePageSize(requestedSize) && n <= TotalPages(|lines|, size)
    ensures Pages(lines, requestedSize, n) == lines[..Cut(n * size, |lines|)]
  {
    if n > 0 {
      PageBounds(|lines|, size);
      PageStart(|lines|, size, n, TotalPages(|lines|, size));
      var start := (n - 1) * size;
      var end := Cut(start + size, |lines|);
      PagesPrefix(lines, requestedSize, size, n - 1);
      PageLines(lines, requestedSize, n, start);
      JoinPrefix(lines, start, end);
      assert Pages(lines, requestedSize, n) == lines[..start] + lines[start..end];
    }
  }

  /** The pages from the first to the last tile the filtered listing: nothing is missing, repeated or reordered. */
  lemma PagesTile(lines: seq<KeyStatus>, requestedSize: int)
    ensures Pages(lines, requestedSize, TotalPages(|lines|, EffectivePageSize(requestedSize))) == lines
  {
    var n := TotalPages(|lines|, EffectivePageSize(requestedSize));
    PagesPrefix(lines, requestedSize, EffectivePageSize(requestedSize), n);
    PageBounds(|lines|, EffectivePageSize(requestedSize));
    assert lines[..|lines|] == lines;
  }

  predicate Asked(filter: Option<int>, r: Record) { filter.None? || filter.value == r.status }

  lemma {:induction false} ListedAt(rs: seq<Record>, filter: Option<int>, i: nat) returns (a: nat)
    requires i < |rs| && Asked(filter, rs[i])
    ensures a < |Listed(rs, filter)| && Listed(rs, filter)[a] == Line(rs[i], i)
  {
    if i < |rs| - 1 { a := ListedAt(rs[..|rs| - 1], filter, i); } else { a := |Listed(rs, filter)| - 1; }
  }

  /** What a line shows of a key: of a long one its first ten characters and three dots, and no time or reason of an
      enabled one. */
  predicate Shows(l: KeyStatus, r: Record, i: nat) {
    && l.index == i && l.status == r.status
    && (|r.key| <= 10 ==> l.preview == r.key)
    && (|r.key| > 10 ==> |l.preview| == 13 && l.preview[..10] == r.key[..10] && l.preview[10..] == "...")
    && (r.status == 1 ==> l.time == 0 && l.reason == "")
    && (r.status != 1 ==> (if r.time == None then l.time == 0 else r.time == Some(l.time))
                          && (if r.reason == None then l.reason == "" else r.reason == Some(l.reason)))
  }

  /** Every key with the requested status, or every key, has its line in the listing. */
  lemma ListedHas(rs: seq<Record>, filter: Option<int>, i: nat) returns (a: nat)
    requires i < |rs| && (filter == None || filter == Some(rs[i].status))
    ensures a < |Listed(rs, filter)| && Shows(Listed(rs, filter)[a], rs[i], i)
  {
    a := ListedAt(rs, filter, i);
  }

  lemma {:induction false} ListedFrom(rs: seq<Record>, filter: Option<int>, a: nat)
    requires a < |Listed(rs, filter)|
    ensures var l := Listed(rs, filter)[a];
      0 <= l.index < |rs| && Asked(filter, rs[l.index]) && l == Line(rs[l.index], l.index)
  {
    var front := rs[..|rs| - 1];
    if a < |Listed(front, filter)| { ListedFrom(front, filter, a); }
  }

  lemma {:induction false} ListedInOrder(rs: seq<Record>, filter: Option<int>, a: nat, b: nat)
    requires b < a < |Listed(rs, filter)|
    ensures Listed(rs, filter)[b].index < Listed(rs, filter)[a].index
  {
    var front := rs[..|rs| - 1];
    if a < |Listed(front, filter)| { ListedInOrder(front, filter, a, b); } else { ListedFrom(front, filter, b); }
  }

  /** Every line of the listing belongs to such a key, and lines come in key order. */
  lemma ListedOnly(rs: seq<Record>, filter: Option<int>, a: nat)
    requires a < |Listed(rs, filter)|
    ensures var l := Listed(rs, filter)[a];
      && l.index < |rs| && (filter == None || filter == Some(rs[l.index].status)) && Shows(l, rs[l.index], l.index)
      && forall b :: 0 <= b < a ==> Listed(rs, filter)[b].index < l.index
  {
    ListedFrom(rs, filter, a);
    forall b | 0 <= b < a ensures Listed(rs, filter)[b].index < Listed(rs, filter)[a].index {
      ListedInOrder(rs, filter, a, b);
    }
  }

  lemma ListedNext(rs: seq<Record>, filter: Option<int>, i: nat)
    requires i < |rs|
    ensures Listed(rs[..i + 1], filter)
            == Listed(rs[..i], filter) + if Asked(filter, rs[i]) then [Line(rs[i], i)] else []
  {
    assert rs[..i + 1][..i] == rs[..i];
  }

  // ---- the handler, with its loops

  lemma RebuildNext(keys: seq<string>, ch: Channel, drop: Drop, i: nat, b: Rebuilt)
    requires i < |keys| && b == Rebuild(keys, ch, drop, i)
    ensures Rebuild(keys, ch, drop, i + 1) == if drop.Drops(ch.status, i) then b else KeepKey(b, keys[i], ch, drop, i)
  {
  }

  /** The loop of `disable_all_keys`. */
  method DisableLoop(before: map<int, int>, size: int) returns (status: map<int, int>, disabled: nat)
    ensures status == DisabledBelow(before, size)
    ensures disabled == 0 <==> status == before
  {
    disabled, status := 0, before;
    var i := 0;
    while i < size
      invariant 0 <= i && (i <= size || i == 0)
      invariant status == DisabledBelow(before, i)
      invariant disabled == 0 <==> status == before
    {
      DisabledBelowMeans(before, i, i);
      if StatusAt(status, i) == ENABLED {
        status := status[i := MANUALLY_DISABLED];
        disabled := disabled + 1;
        assert StatusAt(status, i) != StatusAt(before, i);
      }
      i := i + 1;
    }
  }

  /** The rebuilding loop shared by `delete_key` and `delete_disabled_keys`. */
  method RebuildLoop(keys: seq<string>, ch: Channel, drop: Drop) returns (b: Rebuilt)
    ensures b == Rebuild(keys, ch, drop, |keys|)
  {
    var remaining: seq<string> := [];
    var status: map<int, int>, time: map<int, int>, reason: map<int, string> := map[], map[], map[];
    var newIndex := 0;
    for i := 0 to |keys|
      invariant newIndex == |remaining|
      invariant Rebuilt(remaining, status, time, reason) == Rebuild(keys, ch, drop, i)
    {
      RebuildNext(keys, ch, drop, i, Rebuilt(remaining, status, time, reason));
      if drop.Drops(ch.status, i) {
        continue;
      }
      remaining := remaining + [keys[i]];
      status := CopyStatus(status, newIndex, ch.status, i);
      time := CopyInfo(time, newIndex, ch.time, i, drop.Copies(ch.status, i));
      reason := CopyInfo(reason, newIndex, ch.reason, i, drop.Copies(ch.status, i));
      newIndex := newIndex + 1;
    }
    b := Rebuilt(remaining, status, time, reason);
  }

  class KeyChannel {
    const codec: Codec
    var ch: Channel

    constructor (codec: Codec, ch: Channel)
      ensures this.codec == codec && this.ch == ch
    {
      this.codec := codec;
      this.ch := ch;
    }

    /** `disable_key` and `enable_key`. */
    method SetKey(index: Option<int>, enable: bool) returns (ok: bool)
      modifies this
      ensures ok == InRange(index, old(ch).size)
      ensures ch == Manage(codec, old(ch), if enable then EnableKey(index) else DisableKey(index))
    {
      ok := InRange(index, ch.size);
      if ok {
        var k := index.value;
        if enable {
          ch := Persist(codec, ch, ch.(status := ch.status - {k}, time := ch.time - {k}, reason := ch.reason - {k}));
        } else {
          ch := Persist(codec, ch, ch.(status := ch.status[k := MANUALLY_DISABLED]));
        }
      }
    }

    /** `disable_all_keys`. */
    method DisableAll() returns (disabled: nat)
      modifies this
      ensures ch == Manage(codec, old(ch), DisableAllKeys)
      ensures disabled == 0 ==> ch == old(ch)
    {
      var status;
      status, disabled := DisableLoop(ch.status, ch.size);
      if disabled != 0 {
        ch := Persist(codec, ch, ch.(status := status));
      }
    }

    /** `delete_key`. */
    method DeleteKeyAt(index: Option<int>) returns (ok: bool)
      modifies this
      ensures ch == Manage(codec, old(ch), DeleteKey(index))
      ensures !ok ==> ch == old(ch)
    {
      if !InRange(index, ch.size) {
        return false;
      }
      var b := RebuildLoop(codec.read(ch.text), ch, DropIndex(index.value));
      assert b == Left(codec, ch, DropIndex(index.value));
      ok := b.keys != [];
      if ok {
        ch := Install(codec, ch, b);
      }
    }

    /** `delete_disabled_keys`. */
    method DeleteAutoDisabled() returns (deleted: int)
      modifies this
      ensures ch == Manage(codec, old(ch), DeleteDisabledKeys)
      ensures deleted == 0 ==> ch == old(ch)
    {
      var b := RebuildLoop(codec.read(ch.text), ch, DropAutoDisabled);
      assert b == Left(codec, ch, DropAutoDisabled);
      deleted := |codec.read(ch.text)| - |b.keys|;
      if deleted != 0 {
        ch := Install(codec, ch, b);
      }
    }

    /** `get_key_status`: the requested page of the listing, and the number of keys in each state. */
    method GetKeyStatus(page: int, pageSize: int, filter: Option<int>)
      returns (p: Page, enabled: nat, manual: nat, auto: nat)
      ensures p == PageOf(Listed(View(codec, ch), filter), page, pageSize)
      ensures enabled == |Listed(View(codec, ch), Some(ENABLED))|
      ensures manual == |Listed(View(codec, ch), Some(MANUALLY_DISABLED))|
      ensures auto == |Listed(View(codec, ch), Some(AUTO_DISABLED))|
    {
      enabled, manual, auto := 0, 0, 0;
      var rs := View(codec, ch);
      var lines: seq<KeyStatus> := [];
      for i := 0 to |rs|
        invariant lines == Listed(rs[..i], filter)
        invariant enabled == |Listed(rs[..i], Some(ENABLED))|
        invariant manual == |Listed(rs[..i], Some(MANUALLY_DISABLED))|
        invariant auto == |Listed(rs[..i], Some(AUTO_DISABLED))|
      {
        ListedNext(rs, filter, i);
        ListedNext(rs, Some(ENABLED), i);
        ListedNext(rs, Some(MANUALLY_DISABLED), i);
        ListedNext(rs, Some(AUTO_DISABLED), i);
        if rs[i].status == ENABLED { enabled := enabled + 1; }
        if rs[i].status == MANUALLY_DISABLED { manual := manual + 1; }
        if rs[i].status == AUTO_DISABLED { auto := auto + 1; }
        if Asked(filter, rs[i]) {
          lines := lines + [Line(rs[i], i)];
        }
      }
      assert rs[..|rs|] == rs;
      p := PageOf(lines, page, pageSize);
    }
  }
}

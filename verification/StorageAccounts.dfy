/**
 Where a body is stored, and what the counters say after any run of creations and closes.
 */
module StorageAccounts {
  import opened BodyStorage
  import opened Machine
  import opened DiskCache

  // ---- taking in a stream

  /** The bytes a reader gives, and whether it then fails instead of ending. */
  datatype Stream = Stream(bytes: seq<Byte>, fails: bool)

  datatype Intake = Accepted(data: seq<Byte>) | TooLarge | ReadFailed

  /** Reads through `io.LimitReader(reader, maxBytes+1)` and compares what came with `maxBytes`. */
  function TakeIn(stream: Stream, maxBytes: Int64): Intake {
    var limit := Wrap(maxBytes + 1);
    var data := if limit <= 0 then [] else if limit <= |stream.bytes| then stream.bytes[..limit] else stream.bytes;
    if stream.fails && limit > |stream.bytes| then ReadFailed
    else if |data| > maxBytes then TooLarge
    else Accepted(data)
  }

  /** The stream is refused exactly when it is longer than `maxBytes`, and otherwise taken in whole, if and only if
      `maxBytes + 1` does not wrap or there is nothing to lose. */
  lemma TakesInWithinLimit(stream: Stream, maxBytes: Int64)
    ensures TakeIn(stream, maxBytes)
            == (if |stream.bytes| > maxBytes then TooLarge else if stream.fails then ReadFailed
                else Accepted(stream.bytes))
            <==> maxBytes != MAX_INT64 || stream == Stream([], false)
  {
    if maxBytes == MAX_INT64 {
      assert TakeIn(stream, maxBytes) == Accepted([]);
    }
  }

  // ---- where a body goes

  datatype Plan = ToDisk(data: seq<Byte>) | ToMemory(data: seq<Byte>) | Refused

  /** Whether a body of this size may go to disk. */
  predicate Fits(config: Config, usage: int, size: int) {
    config.enabled && size >= config.threshold && usage + size <= config.maxBytes
  }

  function PlanData(config: Config, usage: int, data: seq<Byte>, diskFails: bool): Plan {
    if Fits(config, usage, |data|) && !diskFails then ToDisk(data) else ToMemory(data)
  }

  function PlanStream(config: Config, usage: int, stream: Stream, contentLength: Int64, maxBytes: Int64,
                      diskFails: bool): Plan {
    if contentLength > 0 && Fits(config, usage, contentLength) then
      if diskFails || !TakeIn(stream, maxBytes).Accepted? then Refused else ToDisk(TakeIn(stream, maxBytes).data)
    else if TakeIn(stream, maxBytes).Accepted? then
      PlanData(config, usage, TakeIn(stream, maxBytes).data, diskFails)
    else Refused
  }

  // ---- runs

  datatype Entry = Entry(disk: bool, size: nat, open: bool)

  datatype World = World(counters: Counters, stores: seq<Entry>)

  datatype Event =
    | CreateData(config: Config, data: seq<Byte>, diskFails: bool)
    | CreateStream(config: Config, stream: Stream, contentLength: Int64, maxBytes: Int64, diskFails: bool)
    | CloseStore(i: nat)

  function Add(w: World, e: Entry): World {
    World(if e.disk then AddDisk(w.counters, e.size) else AddMemory(w.counters, e.size), w.stores + [e])
  }

  function OpenStore(w: World, plan: Plan): World {
    if plan.Refused? then w else Add(w, Entry(plan.ToDisk?, |plan.data|, true))
  }

  /** Closing again changes nothing. */
  function CloseStored(w: World, i: nat): World {
    if i >= |w.stores| || !w.stores[i].open then w
    else
      var e := w.stores[i];
      World(if e.disk then DropDisk(w.counters, e.size) else DropMemory(w.counters, e.size),
            w.stores[i := e.(open := false)])
  }

  function Apply(w: World, e: Event): World {
    match e
    case CreateData(config, data, diskFails) => OpenStore(w, PlanData(config, w.counters.diskBytes, data, diskFails))
    case CreateStream(config, stream, contentLength, maxBytes, diskFails) =>
      OpenStore(w, PlanStream(config, w.counters.diskBytes, stream, contentLength, maxBytes, diskFails))
    case CloseStore(i) => CloseStored(w, i)
  }

  function Run(events: seq<Event>): World {
    if events == [] then World(Counters(0, 0, 0, 0), [])
    else Apply(Run(events[..|events| - 1]), events[|events| - 1])
  }

  /** What an event does to the storages, spelled out: a creation that succeeds adds one, on disk exactly under these
      conditions, and a close closes its own. */
  lemma EventMeans(events: seq<Event>)
    requires events != []
    ensures var before, after := Run(events[..|events| - 1]), Run(events);
      var usage := before.counters.diskBytes;
      match events[|events| - 1]
      case CreateData(config, data, diskFails) =>
        var disk := config.enabled && |data| >= config.threshold && usage + |data| <= config.maxBytes && !diskFails;
        after.stores == before.stores + [Entry(disk, |data|, true)]
      case CreateStream(config, stream, length, maxBytes, diskFails) =>
        var size := |stream.bytes|;
        var promised := config.enabled && length > 0 && length >= config.threshold && usage + length <= config.maxBytes;
        var fits := config.enabled && size >= config.threshold && usage + size <= config.maxBytes;
        maxBytes < MAX_INT64 ==>
          after.stores == before.stores + (if stream.fails || size > maxBytes || (promised && diskFails) then []
                                           else [Entry(!diskFails && (promised || fits), size, true)])
      case CloseStore(i) =>
        && |after.stores| == |before.stores|
        && forall j :: 0 <= j < |after.stores| ==>
             after.stores[j] == if j == i then before.stores[j].(open := false) else before.stores[j]
  {
    var e := events[|events| - 1];
    if e.CreateStream? { TakesInWithinLimit(e.stream, e.maxBytes); }
  }

  function Count(stores: seq<Entry>, disk: bool): nat {
    if stores == [] then 0
    else
      var e := stores[|stores| - 1];
      Count(stores[..|stores| - 1], disk) + if e.open && e.disk == disk then 1 else 0
  }

  function Total(stores: seq<Entry>, disk: bool): nat {
    if stores == [] then 0
    else
      var e := stores[|stores| - 1];
      Total(stores[..|stores| - 1], disk) + if e.open && e.disk == disk then e.size else 0
  }

  predicate Balanced(w: World) {
    w.counters == Counters(Count(w.stores, true), Total(w.stores, true), Count(w.stores, false), Total(w.stores, false))
  }

  lemma AppendEntry(stores: seq<Entry>, e: Entry, disk: bool)
    requires e.open
    ensures Count(stores + [e], disk) == Count(stores, disk) + if e.disk == disk then 1 else 0
    ensures Total(stores + [e], disk) == Total(stores, disk) + if e.disk == disk then e.size else 0
  {
    assert (stores + [e])[..|stores|] == stores;
  }

  lemma {:induction false} CloseEntry(stores: seq<Entry>, i: nat, disk: bool)
    requires i < |stores| && stores[i].open
    ensures var after := stores[i := stores[i].(open := false)]; var same := stores[i].disk == disk;
      && Count(after, disk) == Count(stores, disk) - (if same then 1 else 0)
      && Total(after, disk) == Total(stores, disk) - (if same then stores[i].size else 0)
  {
    var after, n := stores[i := stores[i].(open := false)], |stores| - 1;
    if i == n {
      assert after[..n] == stores[..n];
    } else {
      CloseEntry(stores[..n], i, disk);
      assert after[..n] == stores[..n][i := stores[i].(open := false)];
    }
  }

  lemma AddIsBalanced(w: World, e: Entry)
    requires Balanced(w) && e.open
    ensures Balanced(Add(w, e))
  {
    AppendEntry(w.stores, e, true);
    AppendEntry(w.stores, e, false);
  }

  lemma OpenIsBalanced(w: World, plan: Plan)
    requires Balanced(w)
    ensures Balanced(OpenStore(w, plan))
  {
    if !plan.Refused? { AddIsBalanced(w, Entry(plan.ToDisk?, |plan.data|, true)); }
  }

  /** The counter of an open file is never below what its close takes off, so storing zero never happens. */
  lemma CloseDoesNotClamp(w: World, i: nat)
    requires Balanced(w) && i < |w.stores| && w.stores[i].open
    ensures w.stores[i].disk ==> w.counters.diskFiles >= 1 && w.counters.diskBytes >= w.stores[i].size
    ensures !w.stores[i].disk ==> w.counters.memoryBuffers >= 1 && w.counters.memoryBytes >= w.stores[i].size
  {
    CloseEntry(w.stores, i, w.stores[i].disk);
  }

  lemma CloseIsBalanced(w: World, i: nat)
    requires Balanced(w)
    ensures Balanced(CloseStored(w, i))
  {
    if i < |w.stores| && w.stores[i].open {
      CloseDoesNotClamp(w, i);
      CloseEntry(w.stores, i, true);
      CloseEntry(w.stores, i, false);
    }
  }

  /** After every run the counters are the number and the summed sizes of the open storages of each kind. */
  lemma {:induction false} RunIsBalanced(events: seq<Event>)
    ensures Balanced(Run(events))
  {
    if events != [] {
      var w, e := Run(events[..|events| - 1]), events[|events| - 1];
      RunIsBalanced(events[..|events| - 1]);
      match e
      case CreateData(config, data, diskFails) =>
        OpenIsBalanced(w, PlanData(config, w.counters.diskBytes, data, diskFails));
      case CreateStream(config, stream, contentLength, maxBytes, diskFails) =>
        OpenIsBalanced(w, PlanStream(config, w.counters.diskBytes, stream, contentLength, maxBytes, diskFails));
      case CloseStore(i) => CloseIsBalanced(w, i);
    }
  }

  // ---- the disk limit

  /** A stream that is not longer than it says. */
  predicate Honest(e: Event) {
    e.CreateStream? && e.contentLength > 0 ==> |e.stream.bytes| <= e.contentLength
  }

  predicate MaxIs(e: Event, limit: nat) { !e.CloseStore? ==> e.config.maxBytes <= limit }

  predicate AllHonest(events: seq<Event>, limit: nat) {
    events == [] || (Honest(events[|events| - 1]) && MaxIs(events[|events| - 1], limit)
                     && AllHonest(events[..|events| - 1], limit))
  }

  function DiskUse(usage: int, plan: Plan): int { if plan.ToDisk? then usage + |plan.data| else usage }

  lemma TakenInIsNoLonger(stream: Stream, maxBytes: Int64)
    requires TakeIn(stream, maxBytes).Accepted?
    ensures |TakeIn(stream, maxBytes).data| <= |stream.bytes|
  {
  }

  /** Creations one after another never push the disk use over the limit, as long as no stream is longer than its
      content length. */
  lemma {:induction false} RunStaysWithinLimit(events: seq<Event>, limit: nat)
    requires AllHonest(events, limit)
    ensures Run(events).counters.diskBytes <= limit
  {
    if events != [] {
      var w, e := Run(events[..|events| - 1]), events[|events| - 1];
      RunStaysWithinLimit(events[..|events| - 1], limit);
      RunIsBalanced(events[..|events| - 1]);
      if e.CreateStream? && TakeIn(e.stream, e.maxBytes).Accepted? { TakenInIsNoLonger(e.stream, e.maxBytes); }
      if e.CloseStore? && e.i < |w.stores| && w.stores[e.i].open { CloseDoesNotClamp(w, e.i); }
    }
  }

  /** A stream goes over the limit from some use within it if and only if it goes straight to disk and is longer than
      its content length. */
  lemma StreamKeepsLimit(config: Config, stream: Stream, contentLength: Int64, maxBytes: Int64, diskFails: bool)
    requires config.maxBytes >= 0
    ensures (forall usage: int | 0 <= usage <= config.maxBytes ::
               DiskUse(usage, PlanStream(config, usage, stream, contentLength, maxBytes, diskFails)) <= config.maxBytes)
            <==> !(contentLength > 0 && Fits(config, 0, contentLength) && !diskFails
                   && TakeIn(stream, maxBytes).Accepted? && |TakeIn(stream, maxBytes).data| > contentLength)
  {
    if contentLength > 0 && Fits(config, 0, contentLength) {
      var usage := config.maxBytes - contentLength;
      assert Fits(config, usage, contentLength);
      assert DiskUse(usage, PlanStream(config, usage, stream, contentLength, maxBytes, diskFails)) <= config.maxBytes
        || |TakeIn(stream, maxBytes).data| > contentLength;
    }
  }
}

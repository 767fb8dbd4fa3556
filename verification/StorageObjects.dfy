/**
 The two storages as objects, and their creation.  Each storage keeps, for the proof only, the state of
 the model and the replay readers it has handed out; every call on the storage or on one of those readers
 is proved against one step of the model.
 */
module StorageObjects {
  import opened Wrappers
  import opened Sequences
  import opened BodyStorage
  import opened Machine
  import opened DiskCache
  import opened StorageAccounts

  /** `bytes.Reader`. */
  class BytesReader {
    const data: seq<Byte>
    var pos: nat

    constructor (data: seq<Byte>)
      ensures this.data == data && pos == 0
    {
      this.data := data;
      pos := 0;
    }

    method Read(n: nat) returns (out: Outcome)
      modifies this
      ensures (pos, out) == ReaderRead(data, old(pos), n)
    {
      if pos >= |data| { return EndOfBody; }
      var got := if n <= |data| - pos then data[pos..pos + n] else data[pos..];
      pos := pos + |got|;
      return Got(got);
    }

    method Seek(offset: Int64, whence: Whence) returns (out: Outcome)
      modifies this
      ensures (pos, out) == ReaderSeek(data, old(pos), offset, whence)
    {
      var target := Wrap(Origin(|data|, pos, whence) + offset);
      if target < 0 { return BadSeek; }
      pos := target;
      return Moved(target);
    }
  }

  /** What a full read gives when `got` was read before. */
  function Before(got: seq<Byte>, rest: (Descriptor, Option<seq<Byte>>)): (Descriptor, Option<seq<Byte>>) {
    (rest.0, if rest.1.None? then None else Some(got + rest.1.value))
  }

  lemma BeforeNothing(rest: (Descriptor, Option<seq<Byte>>))
    ensures Before([], rest) == rest
  {
    if rest.1.Some? { assert [] + rest.1.value == rest.1.value; }
  }

  lemma BeforeBoth(a: seq<Byte>, b: seq<Byte>, rest: (Descriptor, Option<seq<Byte>>))
    ensures Before(a, Before(b, rest)) == Before(a + b, rest)
  {
    if rest.1.Some? { assert a + (b + rest.1.value) == a + b + rest.1.value; }
  }

  /** An open descriptor of a regular file that nobody writes to. */
  class OpenFile {
    const content: seq<Byte>
    var fd: Descriptor

    constructor (content: seq<Byte>)
      ensures this.content == content && fd == Descriptor(0, true)
    {
      this.content := content;
      fd := Descriptor(0, true);
    }

    method Read(n: nat) returns (out: Outcome)
      modifies this
      ensures (fd, out) == FileRead(content, old(fd), n)
    {
      if !fd.open { return FileClosed; }
      if n == 0 { return Got([]); }
      if fd.offset >= |content| { return EndOfBody; }
      var most := if n > MAX_RW then MAX_RW else n;
      var got := if most <= |content| - fd.offset then content[fd.offset..fd.offset + most] else content[fd.offset..];
      fd := fd.(offset := fd.offset + |got|);
      return Got(got);
    }

    method Seek(offset: Int64, whence: Whence) returns (out: Outcome)
      modifies this
      ensures (fd, out) == FileSeek(content, old(fd), offset, whence)
    {
      if !fd.open { return FileClosed; }
      var target := Origin(|content|, fd.offset, whence) + offset;
      if target < 0 || target > MAX_INT64 { return BadSeek; }
      fd := fd.(offset := target);
      return Moved(target);
    }

    method Close() returns (out: Outcome)
      modifies this
      ensures (fd, out) == FileClose(old(fd))
    {
      out := if fd.open then Done else FileClosed;
      fd := fd.(open := false);
    }

    /** `io.ReadFull` into a buffer of `n` bytes. */
    method ReadAll(n: nat) returns (data: Option<seq<Byte>>)
      modifies this
      ensures (fd, data) == ReadFull(content, old(fd), n)
    {
      var got: seq<Byte> := [];
      BeforeNothing(ReadFull(content, fd, n));
      while |got| < n
        invariant |got| <= n
        invariant ReadFull(content, old(fd), n) == Before(got, ReadFull(content, fd, n - |got|))
        decreases n - |got|
      {
        var out := Read(n - |got|);
        if !out.Got? || out.bytes == [] || |out.bytes| > n - |got| { return None; }
        BeforeBoth(got, out.bytes, ReadFull(content, fd, n - |got| - |out.bytes|));
        got := got + out.bytes;
      }
      assert got + [] == got;
      return Some(got);
    }
  }

  class MemoryStorage {
    const data: seq<Byte>
    const reader: BytesReader
    const stats: Stats
    var closed: bool
    ghost var view: Memory
    ghost var replays: seq<BytesReader>

    ghost function Handed(): set<object>
      reads this
    {
      set r | r in replays
    }

    ghost predicate Valid()
      reads this, reader, Handed()
    {
      && reader.data == data && view == Memory(data, reader.pos, closed, view.readers)
      && |view.readers| == |replays| && reader !in replays && Distinct(replays)
      && forall i :: 0 <= i < |replays| ==> replays[i].data == data && replays[i].pos == view.readers[i]
    }

    constructor (data: seq<Byte>, stats: Stats)
      modifies stats
      ensures Valid() && this.stats == stats && fresh(reader) && replays == [] && view == NewMemory(data)
      ensures stats.counters == AddMemory(old(stats.counters), |data|)
    {
      this.data, this.stats, closed := data, stats, false;
      reader := new BytesReader(data);
      view, replays := NewMemory(data), [];
      new;
      stats.IncrementMemoryBuffers(|data|);
    }

    method Read(n: nat) returns (out: Outcome)
      requires Valid()
      modifies reader, `view
      ensures Valid() && (view, out) == MemoryStep(old(view), Op.Read(n))
    {
      if closed { return StorageClosed; }
      out := reader.Read(n);
      view := view.(pos := reader.pos);
    }

    method Seek(offset: Int64, whence: Whence) returns (out: Outcome)
      requires Valid()
      modifies reader, `view
      ensures Valid() && (view, out) == MemoryStep(old(view), Op.Seek(offset, whence))
    {
      if closed { return StorageClosed; }
      out := reader.Seek(offset, whence);
      view := view.(pos := reader.pos);
    }

    method Bytes() returns (out: Outcome)
      requires Valid()
      ensures (view, out) == MemoryStep(view, Op.Bytes)
    {
      out := if closed then StorageClosed else All(data);
    }

    method NewReader() returns (r: BytesReader?)
      requires Valid()
      modifies `view, `replays
      ensures Valid() && (r == null <==> closed) && (r != null ==> fresh(r))
      ensures replays == old(replays) + if r == null then [] else [r]
      ensures (view, if r == null then StorageClosed else Opened(|old(replays)|)) == MemoryStep(old(view), Op.NewReader)
    {
      if closed { return null; }
      r := new BytesReader(data);
      view, replays := view.(readers := view.readers + [0]), replays + [r];
    }

    /** Reading from the replay reader that was handed out as number `i`. */
    method ReplayRead(r: BytesReader, ghost i: nat, n: nat) returns (out: Outcome)
      requires Valid() && i < |replays| && replays[i] == r
      modifies r, `view
      ensures Valid() && (view, out) == MemoryStep(old(view), Op.ReplayRead(i, n))
    {
      out := r.Read(n);
      view := view.(readers := view.readers[i := r.pos]);
    }

    /** The reader's own close does nothing: the storage owns the bytes. */
    method ReplayClose(r: BytesReader, ghost i: nat) returns (out: Outcome)
      requires Valid() && i < |replays| && replays[i] == r
      ensures Valid() && r.pos == view.readers[i] && (view, out) == MemoryStep(view, Op.ReplayClose(i))
    {
      out := Done;
    }

    method Close()
      requires Valid()
      modifies `closed, `view, stats
      ensures Valid() && view == MemoryStep(old(view), Op.Close).0
      ensures stats.counters == if old(closed) then old(stats.counters) else DropMemory(old(stats.counters), |data|)
    {
      if !closed {
        closed, view := true, view.(closed := true);
        stats.DecrementMemoryBuffers(|data|);
      }
    }
  }

  class DiskStorage {
    const size: nat
    const file: OpenFile
    const stats: Stats
    var linked: bool   // the path of the file exists
    var closed: bool
    ghost var view: Disk
    ghost var replays: seq<OpenFile>

    ghost function Handed(): set<object>
      reads this
    {
      set r | r in replays
    }

    ghost predicate Valid()
      reads this, file, Handed()
    {
      && view == Disk(file.content, linked, size, closed, file.fd, view.fds)
      && size == |file.content| <= MAX_INT64 && file.fd.open == !closed && file.fd.offset <= MAX_INT64
      && |view.fds| == |replays| && file !in replays && Distinct(replays)
      && forall i :: 0 <= i < |replays| ==> replays[i].content == file.content && replays[i].fd == view.fds[i]
    }

    constructor (data: seq<Byte>, stats: Stats)
      requires |data| <= MAX_INT64
      modifies stats
      ensures Valid() && this.stats == stats && fresh(file) && replays == []
      ensures view == NewDisk(data)
      ensures stats.counters == AddDisk(old(stats.counters), |data|)
    {
      this.size, this.stats, closed, linked := |data|, stats, false, true;
      file := new OpenFile(data);
      view, replays := NewDisk(data), [];
      new;
      stats.IncrementDiskFiles(|data|);
    }

    method Read(n: nat) returns (out: Outcome)
      requires Valid()
      modifies file, `view
      ensures Valid() && (view, out) == DiskStep(old(view), Op.Read(n))
    {
      if closed { return StorageClosed; }
      out := file.Read(n);
      view := view.(own := file.fd);
    }

    method Seek(offset: Int64, whence: Whence) returns (out: Outcome)
      requires Valid()
      modifies file, `view
      ensures Valid() && (view, out) == DiskStep(old(view), Op.Seek(offset, whence))
    {
      if closed { return StorageClosed; }
      out := file.Seek(offset, whence);
      view := view.(own := file.fd);
    }

    /** Goes to the start of the file, reads all of it and goes back to where the cursor was. */
    method Bytes() returns (out: Outcome)
      requires Valid()
      modifies file, `view
      ensures Valid() && (view, out) == DiskStep(old(view), Op.Bytes)
      ensures !closed ==> out == All(file.content) && file.fd == old(file.fd)
    {
      if closed { return StorageClosed; }
      BytesKeepsCursor(view);
      var current := file.Seek(0, Current);
      var moved := file.Seek(0, Start);
      var data := file.ReadAll(size);
      if data.None? { return Failed; }
      moved := file.Seek(current.pos, Start);
      view := view.(own := file.fd);
      return All(data.value);
    }

    method NewReader() returns (r: OpenFile?)
      requires Valid()
      modifies `view, `replays
      ensures Valid() && (r == null <==> closed || !linked) && (r != null ==> fresh(r))
      ensures replays == old(replays) + if r == null then [] else [r]
      ensures (view, if r != null then Opened(|old(replays)|) else if closed then StorageClosed else Failed)
              == DiskStep(old(view), Op.NewReader)
    {
      if closed || !linked { return null; }
      r := new OpenFile(file.content);
      view, replays := view.(fds := view.fds + [Descriptor(0, true)]), replays + [r];
    }

    /** Reading from the replay reader that was handed out as number `i`. */
    method ReplayRead(r: OpenFile, ghost i: nat, n: nat) returns (out: Outcome)
      requires Valid() && i < |replays| && replays[i] == r
      modifies r, `view
      ensures Valid() && (view, out) == DiskStep(old(view), Op.ReplayRead(i, n))
    {
      out := r.Read(n);
      view := view.(fds := view.fds[i := r.fd]);
    }

    /** Closing the replay reader that was handed out as number `i`: the storage stays open. */
    method ReplayClose(r: OpenFile, ghost i: nat) returns (out: Outcome)
      requires Valid() && i < |replays| && replays[i] == r
      modifies r, `view
      ensures Valid() && (view, out) == DiskStep(old(view), Op.ReplayClose(i))
    {
      out := r.Close();
      view := view.(fds := view.fds[i := r.fd]);
    }

    method Close()
      requires Valid()
      modifies `closed, `linked, `view, file, stats
      ensures Valid() && view == DiskStep(old(view), Op.Close).0
      ensures stats.counters == if old(closed) then old(stats.counters) else DropDisk(old(stats.counters), size)
    {
      if !closed {
        closed, linked := true, false;
        var _ := file.Close();
        view := view.(closed := true, linked := false, own := file.fd);
        stats.DecrementDiskFiles(size);
      }
    }
  }

  // ---- creation

  datatype Created = MemoryMade(memory: MemoryStorage) | DiskMade(disk: DiskStorage) | NotCreated

  /** The storage that was created is the planned one, holds the planned bytes at the start, and is counted once. */
  ghost predicate Carries(created: Created, plan: Plan, before: Counters, after: Counters)
    reads if created.MemoryMade? then {created.memory, created.memory.reader} + created.memory.Handed() else {}
    reads if created.DiskMade? then {created.disk, created.disk.file} + created.disk.Handed() else {}
  {
    match plan
    case ToMemory(data) =>
      && created.MemoryMade? && created.memory.Valid() && created.memory.view == NewMemory(data)
      && after == AddMemory(before, |data|)
    case ToDisk(data) =>
      && created.DiskMade? && created.disk.Valid()
      && created.disk.view == NewDisk(data)
      && after == AddDisk(before, |data|)
    case Refused => created.NotCreated? && after == before
  }

  /** The storage is open, stands at its start and holds `data`. */
  ghost predicate Holding(created: Created, data: seq<Byte>)
    reads if created.MemoryMade? then {created.memory} else {}
    reads if created.DiskMade? then {created.disk} else {}
  {
    match created
    case MemoryMade(memory) => memory.view == Memory(data, 0, false, [])
    case DiskMade(disk) => disk.view == Disk(data, true, |data|, false, Descriptor(0, true), [])
    case NotCreated => false
  }

  /** Always succeeds with the bytes passed in; they go to disk exactly when the cache is on, they reach the
      threshold, they fit, and the disk does not fail. */
  method CreateBodyStorage(config: Config, stats: Stats, data: seq<Byte>, diskFails: bool) returns (created: Created)
    requires |data| <= MAX_INT64
    modifies stats
    ensures Carries(created, PlanData(config, old(stats.counters.diskBytes), data, diskFails),
                    old(stats.counters), stats.counters)
    ensures Holding(created, data)
    ensures created.DiskMade? <==> config.enabled && |data| >= config.threshold
                                   && old(stats.counters.diskBytes) + |data| <= config.maxBytes && !diskFails
  {
    if config.enabled && |data| >= config.threshold && stats.IsDiskCacheAvailable(config, |data|) {
      if !diskFails {
        var disk := new DiskStorage(data, stats);
        return DiskMade(disk);
      }
    }
    var memory := new MemoryStorage(data, stats);
    return MemoryMade(memory);
  }

  /** With a limit whose successor is a 64-bit integer, a storage is created only for a stream that ends within it, and
      holds the whole stream.  A promised length that would go to disk ties the creation to the disk. */
  method CreateBodyStorageFromReader(config: Config, stats: Stats, stream: Stream, contentLength: Int64,
                                     maxBytes: Int64, diskFails: bool) returns (created: Created)
    modifies stats
    ensures Carries(created,
                    PlanStream(config, old(stats.counters.diskBytes), stream, contentLength, maxBytes, diskFails),
                    old(stats.counters), stats.counters)
    ensures maxBytes < MAX_INT64 ==>
              var usage, size := old(stats.counters.diskBytes), |stream.bytes|;
              var promised := config.enabled && contentLength > 0 && contentLength >= config.threshold
                              && usage + contentLength <= config.maxBytes;
              && (created.NotCreated? <==> stream.fails || size > maxBytes || (promised && diskFails))
              && (!created.NotCreated? ==>
                    && Holding(created, stream.bytes)
                    && (created.DiskMade? <==>
                          && !diskFails
                          && (promised
                              || (config.enabled && size >= config.threshold && usage + size <= config.maxBytes))))
    ensures maxBytes == MAX_INT64 && !created.NotCreated? ==> Holding(created, [])
  {
    var intake := TakeIn(stream, maxBytes);
    if config.enabled && contentLength > 0 && contentLength >= config.threshold
       && stats.IsDiskCacheAvailable(config, contentLength) {
      if diskFails || !intake.Accepted? { return NotCreated; }
      var disk := new DiskStorage(intake.data, stats);
      return DiskMade(disk);
    }
    if !intake.Accepted? { return NotCreated; }
    created := CreateBodyStorage(config, stats, intake.data, diskFails);
  }
}

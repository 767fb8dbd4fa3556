/**
 Request bodies kept in memory or in a temporary file.  Memory storage is a slice with one cursor for
 itself and one for each replay reader; disk storage is a file behind a table of descriptors.  A run of
 calls must not show which of the two answers it.
 */
module BodyStorage {
  import opened Machine
  import opened Wrappers

  /** A sum of two 64-bit integers as the machine leaves it. */
  function Wrap(x: int): int {
    if x > MAX_INT64 then x - 0x1_0000_0000_0000_0000 else if x < MIN_INT64 then x + 0x1_0000_0000_0000_0000 else x
  }

  datatype Whence = Start | Current | End

  datatype Op =
    | Read(n: nat) | Seek(offset: Int64, whence: Whence) | Bytes | NewReader | Size | Close
    | ReplayRead(reader: nat, n: nat) | ReplayClose(reader: nat)

  datatype Outcome =
    | Got(bytes: seq<Byte>) | EndOfBody | Moved(pos: int) | BadSeek | All(data: seq<Byte>) | Opened(reader: nat)
    | Length(size: int) | Done | StorageClosed | FileClosed | Failed

  function Origin(size: nat, pos: nat, whence: Whence): nat {
    match whence
    case Start => 0
    case Current => pos
    case End => size
  }

  // ---- memory

  /** A slice, its own cursor, and the cursors of the replay readers. */
  datatype Memory = Memory(data: seq<Byte>, pos: nat, closed: bool, readers: seq<nat>)

  /** `bytes.Reader.Read`: the end is reported before the buffer is looked at. */
  function ReaderRead(data: seq<Byte>, pos: nat, n: nat): (nat, Outcome) {
    if pos >= |data| then (pos, EndOfBody)
    else if n <= |data| - pos then (pos + n, Got(data[pos..pos + n]))
    else (|data|, Got(data[pos..]))
  }

  /** `bytes.Reader.Seek`: adds in 64 bits and refuses a negative sum. */
  function ReaderSeek(data: seq<Byte>, pos: nat, offset: Int64, whence: Whence): (nat, Outcome) {
    var target := Wrap(Origin(|data|, pos, whence) + offset);
    if target >= 0 then (target, Moved(target)) else (pos, BadSeek)
  }

  function MemoryOpenStep(m: Memory, op: Op): (Memory, Outcome) {
    match op
    case Read(n) => var (pos, out) := ReaderRead(m.data, m.pos, n); (m.(pos := pos), out)
    case Seek(offset, whence) =>
      var (pos, out) := ReaderSeek(m.data, m.pos, offset, whence);
      (m.(pos := pos), out)
    case Bytes => (m, All(m.data))
    case _ => (m.(readers := m.readers + [0]), Opened(|m.readers|))
  }

  /** Closing a replay reader of a memory storage does nothing. */
  function MemoryReplayStep(m: Memory, op: Op): (Memory, Outcome) {
    match op
    case ReplayRead(i, n) =>
      if i >= |m.readers| then (m, Failed)
      else var (pos, out) := ReaderRead(m.data, m.readers[i], n); (m.(readers := m.readers[i := pos]), out)
    case ReplayClose(i) => (m, if i >= |m.readers| then Failed else Done)
    case _ => (m, Failed)
  }

  function MemoryStep(m: Memory, op: Op): (Memory, Outcome) {
    if op.ReplayRead? || op.ReplayClose? then MemoryReplayStep(m, op)
    else if op.Size? then (m, Length(|m.data|))
    else if op.Close? then (m.(closed := true), Done)
    else if m.closed then (m, StorageClosed)
    else MemoryOpenStep(m, op)
  }

  // ---- disk

  datatype Descriptor = Descriptor(offset: nat, open: bool)

  /** A file, whether its path still exists, the size recorded for it, and the descriptors: the first is the
      storage's own, the others belong to replay readers. */
  datatype Disk = Disk(content: seq<Byte>, linked: bool, size: nat, closed: bool, own: Descriptor, fds: seq<Descriptor>)

  /** The most that one read of a file asks of the system. */
  const MAX_RW: nat := 0x4000_0000

  /** `os.File.Read`: an empty buffer is never an error. */
  function FileRead(content: seq<Byte>, fd: Descriptor, n: nat): (Descriptor, Outcome) {
    var most := if n > MAX_RW then MAX_RW else n;
    if !fd.open then (fd, FileClosed)
    else if n == 0 then (fd, Got([]))
    else if fd.offset >= |content| then (fd, EndOfBody)
    else if most <= |content| - fd.offset then
      (fd.(offset := fd.offset + most), Got(content[fd.offset..fd.offset + most]))
    else (fd.(offset := |content|), Got(content[fd.offset..]))
  }

  /** `os.File.Seek`: a position out of range is refused. */
  function FileSeek(content: seq<Byte>, fd: Descriptor, offset: Int64, whence: Whence): (Descriptor, Outcome) {
    var target := Origin(|content|, fd.offset, whence) + offset;
    if !fd.open then (fd, FileClosed)
    else if 0 <= target <= MAX_INT64 then (fd.(offset := target), Moved(target))
    else (fd, BadSeek)
  }

  function FileClose(fd: Descriptor): (Descriptor, Outcome) {
    (fd.(open := false), if fd.open then Done else FileClosed)
  }

  /** `io.ReadFull`: reads until `n` bytes have come, or a read fails or brings nothing. */
  function ReadFull(content: seq<Byte>, fd: Descriptor, n: nat): (Descriptor, Option<seq<Byte>>)
    decreases n
  {
    if n == 0 then (fd, Some([]))
    else
      var (next, out) := FileRead(content, fd, n);
      if !out.Got? || out.bytes == [] || |out.bytes| > n then (next, None)
      else
        var (last, rest) := ReadFull(content, next, n - |out.bytes|);
        (last, if rest.None? then None else Some(out.bytes + rest.value))
  }

  /** `Bytes` of a file: where the cursor is, to the start, all of it, and back. */
  function DiskBytes(d: Disk): (Disk, Outcome) {
    var (a, current) := FileSeek(d.content, d.own, 0, Current);
    var (b, moved) := FileSeek(d.content, a, 0, Start);
    var (c, data) := ReadFull(d.content, b, d.size);
    if !current.Moved? || !moved.Moved? || data.None? || current.pos > MAX_INT64 || current.pos < MIN_INT64 then
      (d.(own := c), Failed)
    else
      var (e, _) := FileSeek(d.content, c, current.pos, Start);
      (d.(own := e), All(data.value))
  }

  function DiskOpenStep(d: Disk, op: Op): (Disk, Outcome) {
    match op
    case Read(n) => var (fd, out) := FileRead(d.content, d.own, n); (d.(own := fd), out)
    case Seek(offset, whence) =>
      var (fd, out) := FileSeek(d.content, d.own, offset, whence);
      (d.(own := fd), out)
    case Bytes => DiskBytes(d)
    case _ =>
      if d.linked then (d.(fds := d.fds + [Descriptor(0, true)]), Opened(|d.fds|)) else (d, Failed)
  }

  function DiskReplayStep(d: Disk, op: Op): (Disk, Outcome) {
    match op
    case ReplayRead(i, n) =>
      if i >= |d.fds| then (d, Failed)
      else var (fd, out) := FileRead(d.content, d.fds[i], n); (d.(fds := d.fds[i := fd]), out)
    case ReplayClose(i) =>
      if i >= |d.fds| then (d, Failed)
      else var (fd, out) := FileClose(d.fds[i]); (d.(fds := d.fds[i := fd]), out)
    case _ => (d, Failed)
  }

  /** The first close closes the descriptor and removes the path; the content lives on while readers hold it. */
  function DiskClose(d: Disk): Disk {
    if d.closed then d else d.(closed := true, own := FileClose(d.own).0, linked := false)
  }

  function DiskStep(d: Disk, op: Op): (Disk, Outcome) {
    if op.ReplayRead? || op.ReplayClose? then DiskReplayStep(d, op)
    else if op.Size? then (d, Length(d.size))
    else if op.Close? then (DiskClose(d), Done)
    else if d.closed then (d, StorageClosed)
    else DiskOpenStep(d, op)
  }

  // ---- runs of either

  function After<S>(step: (S, Op) -> (S, Outcome), s: S, ops: seq<Op>): S {
    if ops == [] then s else step(After(step, s, ops[..|ops| - 1]), ops[|ops| - 1]).0
  }

  function Outcomes<S>(step: (S, Op) -> (S, Outcome), s: S, ops: seq<Op>): (r: seq<Outcome>)
    ensures |r| == |ops|
  {
    if ops == [] then []
    else Outcomes(step, s, ops[..|ops| - 1]) + [step(After(step, s, ops[..|ops| - 1]), ops[|ops| - 1]).1]
  }

  // ---- the simulation

  /** A replay reader that is still open on disk stands where the one in memory does. */
  predicate SameCursor(pos: nat, fd: Descriptor) { fd.open ==> fd.offset == pos }

  ghost predicate Related(m: Memory, d: Disk) {
    && d.content == m.data && d.size == |m.data| <= MAX_INT64 && m.pos <= MAX_INT64
    && d.closed == m.closed && d.linked == !m.closed && d.own == Descriptor(m.pos, !m.closed)
    && |d.fds| == |m.readers| && forall i :: 0 <= i < |m.readers| ==> SameCursor(m.readers[i], d.fds[i])
  }

  /** A read that tells a slice from a file: an empty one at the end, or one that asks for more than the system
      gives at once and could get it. */
  predicate TellingRead(data: seq<Byte>, pos: nat, n: nat) {
    (n == 0 && pos >= |data|) || (n > MAX_RW && |data| - pos > MAX_RW)
  }

  /** The calls that tell the two kinds apart: such a read, and a replay reader used after its own close. */
  predicate Tells(m: Memory, d: Disk, op: Op) {
    match op
    case Read(n) => !m.closed && TellingRead(m.data, m.pos, n)
    case ReplayRead(i, n) =>
      i < |m.readers| && i < |d.fds| && (!d.fds[i].open || TellingRead(m.data, m.readers[i], n))
    case ReplayClose(i) => i < |d.fds| && !d.fds[i].open
    case _ => false
  }

  lemma ReadsAgree(data: seq<Byte>, pos: nat, n: nat)
    ensures var (p, out) := ReaderRead(data, pos, n); var (fd, got) := FileRead(data, Descriptor(pos, true), n);
      if TellingRead(data, pos, n) then out != got else out == got && fd == Descriptor(p, true)
  {
    if n > MAX_RW && |data| - pos > MAX_RW {
      assert |FileRead(data, Descriptor(pos, true), n).1.bytes| == MAX_RW;
    }
  }

  lemma SeeksAgree(data: seq<Byte>, pos: nat, offset: Int64, whence: Whence)
    requires |data| <= MAX_INT64 && pos <= MAX_INT64
    ensures var (p, out) := ReaderSeek(data, pos, offset, whence);
      && FileSeek(data, Descriptor(pos, true), offset, whence) == (Descriptor(p, true), out)
      && p <= MAX_INT64
  {
  }

  /** However many reads it takes, a full read from an offset gives the rest of the file. */
  lemma {:induction false} ReadFullGivesAll(content: seq<Byte>, pos: nat)
    requires pos <= |content|
    ensures ReadFull(content, Descriptor(pos, true), |content| - pos)
            == (Descriptor(|content|, true), Some(content[pos..]))
    decreases |content| - pos
  {
    if pos == |content| {
      assert content[pos..] == [];
    } else {
      var n := |content| - pos;
      var most := if n > MAX_RW then MAX_RW else n;
      var (next, out) := FileRead(content, Descriptor(pos, true), n);
      assert out == Got(content[pos..pos + most]) && next == Descriptor(pos + most, true);
      ReadFullGivesAll(content, pos + most);
      assert content[pos..pos + most] + content[pos + most..] == content[pos..];
    }
  }

  /** `Bytes` gives the whole file and leaves the cursor where it was. */
  lemma BytesKeepsCursor(d: Disk)
    requires d.own.open && d.size == |d.content| && d.own.offset <= MAX_INT64
    ensures DiskBytes(d) == (d, All(d.content))
  {
    ReadFullGivesAll(d.content, 0);
    assert d.content[0..] == d.content;
    assert d.(own := d.own) == d;
  }

  lemma OpenStepsAgree(m: Memory, d: Disk, op: Op)
    requires Related(m, d) && !m.closed && (op.Read? || op.Seek? || op.Bytes? || op.NewReader?)
    ensures var (a, out) := MemoryOpenStep(m, op); var (b, got) := DiskOpenStep(d, op);
      if Tells(m, d, op) then out != got else out == got && Related(a, b)
  {
    match op
    case Read(n) => ReadsAgree(m.data, m.pos, n);
    case Seek(offset, whence) => SeeksAgree(m.data, m.pos, offset, whence);
    case Bytes => BytesKeepsCursor(d);
    case NewReader =>
  }

  lemma ReplayStepsAgree(m: Memory, d: Disk, op: Op)
    requires Related(m, d) && (op.ReplayRead? || op.ReplayClose?)
    ensures var (a, out) := MemoryReplayStep(m, op); var (b, got) := DiskReplayStep(d, op);
      if Tells(m, d, op) then out != got else out == got && Related(a, b)
  {
    if op.ReplayRead? && op.reader < |m.readers| {
      assert SameCursor(m.readers[op.reader], d.fds[op.reader]);
      ReadsAgree(m.data, m.readers[op.reader], op.n);
    }
  }

  /** From related states, a call gives the same answer and related states unless it is a telling one, and then the
      answers differ. */
  lemma StepsAgree(m: Memory, d: Disk, op: Op)
    requires Related(m, d)
    ensures var (a, out) := MemoryStep(m, op); var (b, got) := DiskStep(d, op);
      if Tells(m, d, op) then out != got else out == got && Related(a, b)
  {
    if op.ReplayRead? || op.ReplayClose? {
      ReplayStepsAgree(m, d, op);
    } else if !op.Size? && !op.Close? && !m.closed {
      OpenStepsAgree(m, d, op);
    }
  }

  predicate TellsNothing(m: Memory, d: Disk, ops: seq<Op>) {
    ops == []
    || (TellsNothing(m, d, ops[..|ops| - 1])
        && !Tells(After(MemoryStep, m, ops[..|ops| - 1]), After(DiskStep, d, ops[..|ops| - 1]), ops[|ops| - 1]))
  }

  lemma OutcomesSplit<S>(step: (S, Op) -> (S, Outcome), s: S, ops: seq<Op>)
    requires ops != []
    ensures var front := ops[..|ops| - 1]; var all := Outcomes(step, s, ops);
      && all[..|front|] == Outcomes(step, s, front)
      && all[|front|] == step(After(step, s, front), ops[|front|]).1
  {
  }

  /** For every run of calls on the storage and on its replay readers, memory and disk give the same answers if and
      only if no call tells them apart. */
  lemma {:induction false} StoragesAgree(m: Memory, d: Disk, ops: seq<Op>)
    requires Related(m, d)
    ensures Outcomes(MemoryStep, m, ops) == Outcomes(DiskStep, d, ops) <==> TellsNothing(m, d, ops)
    ensures TellsNothing(m, d, ops) ==> Related(After(MemoryStep, m, ops), After(DiskStep, d, ops))
  {
    if ops != [] {
      var front := ops[..|ops| - 1];
      StoragesAgree(m, d, front);
      OutcomesSplit(MemoryStep, m, ops);
      OutcomesSplit(DiskStep, d, ops);
      if TellsNothing(m, d, front) {
        StepsAgree(After(MemoryStep, m, front), After(DiskStep, d, front), ops[|front|]);
      }
    }
  }

  function NewMemory(data: seq<Byte>): Memory { Memory(data, 0, false, []) }

  function NewDisk(data: seq<Byte>): Disk { Disk(data, true, |data|, false, Descriptor(0, true), []) }

  /** So nobody can tell in which of the two a new body is kept, except by those calls. */
  lemma NewStoragesAgree(data: seq<Byte>, ops: seq<Op>)
    requires |data| <= MAX_INT64
    ensures Outcomes(MemoryStep, NewMemory(data), ops) == Outcomes(DiskStep, NewDisk(data), ops) <==>
            TellsNothing(NewMemory(data), NewDisk(data), ops)
  {
    StoragesAgree(NewMemory(data), NewDisk(data), ops);
  }

  // ---- what a seek and a close mean for the caller

  /** Seeking goes to the place named, counted from the start, the cursor or the end, unless that is before the start
      or past the 64-bit integers; the next read gives what is there, or the end. */
  lemma SeekThenRead(m: Memory, d: Disk, offset: Int64, whence: Whence, n: nat)
    requires Related(m, d) && !m.closed && 0 < n <= MAX_RW
    ensures var target := offset + (if whence.Start? then 0 else if whence.Current? then m.pos else |m.data|);
      var (a, moved) := MemoryStep(m, Seek(offset, whence)); var (b, went) := DiskStep(d, Seek(offset, whence));
      && moved == went == (if 0 <= target <= MAX_INT64 then Moved(target) else BadSeek)
      && (moved.BadSeek? ==> a == m && b == d)
      && (moved.Moved? ==>
            MemoryStep(a, Op.Read(n)).1 == DiskStep(b, Op.Read(n)).1 ==
              if target >= |m.data| then EndOfBody
              else if target + n <= |m.data| then Got(m.data[target..target + n]) else Got(m.data[target..]))
  {
    StepsAgree(m, d, Seek(offset, whence));
    assert d.(own := d.own) == d && m.(pos := m.pos) == m;
    StepsAgree(MemoryStep(m, Seek(offset, whence)).0, DiskStep(d, Seek(offset, whence)).0, Op.Read(n));
  }

  /** Closed, a storage answers every read, seek, whole read and new reader with that error, and only those. */
  lemma ClosedAnswers(m: Memory, d: Disk, op: Op)
    requires !op.ReplayRead? && !op.ReplayClose?
    ensures MemoryStep(MemoryStep(m, Op.Close).0, op).1.StorageClosed? <==> !op.Size? && !op.Close?
    ensures DiskStep(DiskStep(d, Op.Close).0, op).1.StorageClosed? <==> !op.Size? && !op.Close?
  {
  }

  // ---- replay readers

  /** What a call delivers from replay reader `i`. */
  function Piece(op: Op, out: Outcome, i: nat): seq<Byte> {
    if op.ReplayRead? && op.reader == i && out.Got? then out.bytes else []
  }

  /** What one replay reader delivers in a run. */
  function Delivered<S>(step: (S, Op) -> (S, Outcome), s: S, ops: seq<Op>, i: nat): seq<Byte> {
    if ops == [] then []
    else
      var front, op := ops[..|ops| - 1], ops[|ops| - 1];
      Delivered(step, s, front, i) + Piece(op, step(After(step, s, front), op).1, i)
  }

  /** A call moves the cursor of reader `i` by what it delivers from that reader, and by nothing else; the end is
      reported only at the end. */
  predicate Moves(data: seq<Byte>, before: Option<nat>, after: Option<nat>, op: Op, out: Outcome, i: nat) {
    before.Some? && before.value <= |data| ==>
      && after.Some? && before.value <= after.value <= |data|
      && data[before.value..after.value] == Piece(op, out, i)
      && (op.ReplayRead? && op.reader == i && out.EndOfBody? ==> before.value == |data|)
  }

  ghost predicate Faithful<S(!new)>(step: (S, Op) -> (S, Outcome), data: seq<Byte>, at: S -> Option<nat>, i: nat) {
    forall s, op :: Moves(data, at(s), at(step(s, op).0), op, step(s, op).1, i)
  }

  lemma Slices(data: seq<Byte>, a: nat, b: nat, c: nat)
    requires a <= b <= c <= |data|
    ensures data[a..b] + data[b..c] == data[a..c]
  {
  }

  lemma {:induction false} FaithfulRun<S(!new)>(step: (S, Op) -> (S, Outcome), data: seq<Byte>, at: S -> Option<nat>,
                                                i: nat, s: S, ops: seq<Op>)
    requires Faithful(step, data, at, i) && at(s).Some? && at(s).value <= |data|
    ensures var t := After(step, s, ops);
      && at(t).Some? && at(s).value <= at(t).value <= |data|
      && Delivered(step, s, ops, i) == data[at(s).value..at(t).value]
  {
    if ops != [] {
      var front, op := ops[..|ops| - 1], ops[|ops| - 1];
      FaithfulRun(step, data, at, i, s, front);
      var mid := After(step, s, front);
      assert Moves(data, at(mid), at(step(mid, op).0), op, step(mid, op).1, i);
      Slices(data, at(s).value, at(mid).value, at(step(mid, op).0).value);
    }
  }

  /** Where replay reader `i` of this body stands. */
  function InMemory(data: seq<Byte>, i: nat): Memory -> Option<nat> {
    (m: Memory) => if m.data == data && i < |m.readers| then Some(m.readers[i]) else None
  }

  function OnDisk(data: seq<Byte>, i: nat): Disk -> Option<nat> {
    (d: Disk) => if d.content == data && i < |d.fds| then Some(d.fds[i].offset) else None
  }

  lemma BytesKeepsReaders(d: Disk)
    ensures var e := DiskBytes(d).0; e.content == d.content && e.fds == d.fds
  {
  }

  lemma MemoryIsFaithful(data: seq<Byte>, i: nat)
    ensures Faithful(MemoryStep, data, InMemory(data, i), i)
  {
    forall m: Memory, op
      ensures Moves(data, InMemory(data, i)(m), InMemory(data, i)(MemoryStep(m, op).0), op, MemoryStep(m, op).1, i)
    {
    }
  }

  lemma DiskIsFaithful(data: seq<Byte>, i: nat)
    ensures Faithful(DiskStep, data, OnDisk(data, i), i)
  {
    forall d: Disk, op
      ensures Moves(data, OnDisk(data, i)(d), OnDisk(data, i)(DiskStep(d, op).0), op, DiskStep(d, op).1, i)
    {
      if op.Bytes? { BytesKeepsReaders(d); }
    }
  }

  /** Whatever else a run does with the storage and with other readers, even closing it, one replay reader delivers a
      stretch of the body without gap or repetition, from memory and from disk. */
  lemma ReplayIsIndependent(m: Memory, d: Disk, ops: seq<Op>, i: nat)
    requires i < |m.readers| && m.readers[i] <= |m.data| && i < |d.fds| && d.fds[i].offset <= |d.content|
    ensures var t := After(MemoryStep, m, ops);
      && i < |t.readers| && m.readers[i] <= t.readers[i] <= |m.data|
      && Delivered(MemoryStep, m, ops, i) == m.data[m.readers[i]..t.readers[i]]
    ensures var t := After(DiskStep, d, ops);
      && i < |t.fds| && d.fds[i].offset <= t.fds[i].offset <= |d.content|
      && Delivered(DiskStep, d, ops, i) == d.content[d.fds[i].offset..t.fds[i].offset]
  {
    MemoryIsFaithful(m.data, i);
    FaithfulRun(MemoryStep, m.data, InMemory(m.data, i), i, m, ops);
    DiskIsFaithful(d.content, i);
    FaithfulRun(DiskStep, d.content, OnDisk(d.content, i), i, d, ops);
  }

  /** A replay reader that starts at the beginning and is read until it reports the end has delivered the whole body. */
  lemma FaithfulToTheEnd<S(!new)>(step: (S, Op) -> (S, Outcome), data: seq<Byte>, at: S -> Option<nat>, i: nat, s: S,
                                  ops: seq<Op>, n: nat)
    requires Faithful(step, data, at, i) && at(s) == Some(0)
    requires step(After(step, s, ops), ReplayRead(i, n)).1.EndOfBody?
    ensures Delivered(step, s, ops, i) == data
  {
    FaithfulRun(step, data, at, i, s, ops);
    var t, op := After(step, s, ops), ReplayRead(i, n);
    assert Moves(data, at(t), at(step(t, op).0), op, step(t, op).1, i);
    assert data[0..|data|] == data;
  }

  /** A reader opened in the run and read until it reports the end has delivered the whole body, from memory and from
      disk, whatever happened in between. */
  lemma ReplayIsComplete(m: Memory, d: Disk, ops: seq<Op>, n: nat)
    requires !m.closed && !d.closed && d.linked
    ensures var i := |m.readers|; var t := MemoryStep(m, NewReader).0;
      MemoryStep(After(MemoryStep, t, ops), ReplayRead(i, n)).1.EndOfBody?
      ==> Delivered(MemoryStep, t, ops, i) == m.data
    ensures var i := |d.fds|; var t := DiskStep(d, NewReader).0;
      DiskStep(After(DiskStep, t, ops), ReplayRead(i, n)).1.EndOfBody?
      ==> Delivered(DiskStep, t, ops, i) == d.content
  {
    var i, t := |m.readers|, MemoryStep(m, NewReader).0;
    MemoryIsFaithful(m.data, i);
    if MemoryStep(After(MemoryStep, t, ops), ReplayRead(i, n)).1.EndOfBody? {
      FaithfulToTheEnd(MemoryStep, m.data, InMemory(m.data, i), i, t, ops, n);
    }
    var j, u := |d.fds|, DiskStep(d, NewReader).0;
    DiskIsFaithful(d.content, j);
    if DiskStep(After(DiskStep, u, ops), ReplayRead(j, n)).1.EndOfBody? {
      FaithfulToTheEnd(DiskStep, d.content, OnDisk(d.content, j), j, u, ops, n);
    }
  }
}

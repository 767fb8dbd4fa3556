/**
 The duration of an Opus stream: a scan for Ogg pages (section 6 of RFC 3533) that keeps the greatest
 granule position, read over 48000 samples per second (section 4 of RFC 7845).
 */
module OggScan {
  import opened Machine

  const HEADER := 27

  /** The capture pattern "OggS". */
  predicate Magic(s: seq<Byte>) { |s| >= 4 && s[0] == 0x4F && s[1] == 0x67 && s[2] == 0x67 && s[3] == 0x53 }

  // ---- little-endian numbers

  function Decode(bs: seq<Byte>): nat {
    if bs == [] then 0 else bs[0] + 256 * Decode(bs[1..])
  }

  function Encode(u: nat, n: nat): (bs: seq<Byte>)
    ensures |bs| == n
  {
    if n == 0 then [] else [u % 256] + Encode(u / 256, n - 1)
  }

  function Pow256(n: nat): nat { if n == 0 then 1 else 256 * Pow256(n - 1) }

  lemma {:induction false} DecodeEncode(u: nat, n: nat)
    requires u < Pow256(n)
    ensures Decode(Encode(u, n)) == u
  {
    if n > 0 {
      DecodeEncode(u / 256, n - 1);
      assert Encode(u, n)[1..] == Encode(u / 256, n - 1);
    }
  }

  const TWO_63 := 0x8000_0000_0000_0000
  const TWO_64 := 0x1_0000_0000_0000_0000

  /** The conversion of an unsigned 64-bit number to a signed one. */
  function Signed(u: int): int { if u >= TWO_63 then u - TWO_64 else u }

  function Unsigned(g: int): int { if g < 0 then g + TWO_64 else g }

  function Sum(bs: seq<Byte>): nat { if bs == [] then 0 else Sum(bs[..|bs| - 1]) + bs[|bs| - 1] }

  /** How a packet of `n` bytes is laced: full segments of 255 bytes, then one that is shorter. */
  function Lacing(n: nat): seq<Byte> { if n < 255 then [n] else [255] + Lacing(n - 255) }

  lemma {:induction false} SumAppend(a: seq<Byte>, b: seq<Byte>)
    ensures Sum(a + b) == Sum(a) + Sum(b)
  {
    if b == [] {
      assert a + b == a;
    } else {
      assert (a + b)[..|a + b| - 1] == a + b[..|b| - 1];
      SumAppend(a, b[..|b| - 1]);
    }
  }

  /** The segment table of a page adds up to the bytes of the packets laced in it. */
  lemma {:induction false} LacingAddsUp(n: nat)
    ensures Sum(Lacing(n)) == n
  {
    assert forall b: Byte :: [b][..0] == [];
    if n >= 255 {
      SumAppend([255], Lacing(n - 255));
      LacingAddsUp(n - 255);
    }
  }

  // ---- the scan

  /** What the loop sees at the cursor. */
  datatype Look =
    | End                                // fewer bytes than a page header
    | NoPage                             // no capture pattern: move on by one byte
    | Truncated(granule: int)            // a page header whose segment table is cut off
    | Whole(granule: int, length: nat)   // a page header, and the length of the page it announces

  type Eye<!T> = seq<T> -> Look

  function Granule(header: seq<Byte>): int
    requires |header| == HEADER
  {
    Signed(Decode(header[6..14]))
  }

  function LookAt(s: seq<Byte>): Look {
    if |s| < HEADER then End
    else
      var header, rest := s[..HEADER], s[HEADER..];
      if !Magic(header) then NoPage
      else if |rest| < header[26] then Truncated(Granule(header))
      else Whole(Granule(header), HEADER + header[26] + Sum(rest[..header[26]]))
  }

  /** A page is seen exactly where "OggS" begins a whole header, and it is cut off exactly when fewer bytes follow than
      the header's last byte, the length of the segment table, says. */
  lemma LooksForPattern(s: seq<Byte>)
    ensures LookAt(s).End? <==> |s| < 27
    ensures LookAt(s).Truncated? || LookAt(s).Whole? <==>
            |s| >= 27 && forall i :: 0 <= i < 4 ==> s[i] == "OggS"[i] as int
    ensures LookAt(s).Truncated? ==> |s| - 27 < s[26]
    ensures LookAt(s).Whole? ==> |s| - 27 >= s[26]
  {
    if |s| >= HEADER {
      assert "OggS"[0] as int == 0x4F && "OggS"[1] as int == 0x67;
      assert "OggS"[2] as int == 0x67 && "OggS"[3] as int == 0x53;
      assert forall i :: 0 <= i < 4 ==> s[..HEADER][i] == s[i];
    }
  }

  function Max(a: int, b: int): int { if b > a then b else a }

  /** What is left after skipping `n` bytes; seeking past the end is allowed. */
  function Skip<T>(s: seq<T>, n: nat): seq<T> { if n <= |s| then s[n..] else [] }

  /** Greatest granule position so far, and where the recognised pages start. */
  datatype Scanned = Scanned(best: int, starts: seq<int>)

  /** How far one pass moves on from what it saw; the loop stops by leaving the `n` remaining bytes behind. */
  function Stride(look: Look, n: nat): nat {
    match look
    case NoPage => 1
    case Whole(_, length) => if length == 0 then 1 else length
    case _ => n
  }

  function Better(best: int, look: Look): int {
    match look
    case Truncated(g) => Max(best, g)
    case Whole(g, _) => Max(best, g)
    case _ => best
  }

  function Found(look: Look, offset: nat): seq<int> {
    match look
    case Truncated(_) => [offset]
    case Whole(_, _) => [offset]
    case _ => []
  }

  /** The scan of what remains of a stream, `offset` bytes into it. */
  function Scan<T>(eye: Eye<T>, s: seq<T>, offset: nat, best: int): Scanned
    decreases |s|
  {
    if s == [] then Scanned(best, [])
    else
      var look := eye(s);
      var n := Stride(look, |s|);
      var r := Scan(eye, Skip(s, n), offset + n, Better(best, look));
      Scanned(r.best, Found(look, offset) + r.starts)
  }

  /** The whole scan, when the pages at `starts` are behind and `rest` is ahead. */
  ghost predicate Continues(whole: Scanned, starts: seq<int>, rest: Scanned) {
    whole == Scanned(rest.best, starts + rest.starts)
  }

  lemma ScanUnfolds<T>(eye: Eye<T>, s: seq<T>, offset: nat, best: int, look: Look, n: nat, tail: seq<T>, rest: Scanned)
    requires s != [] && look == eye(s) && n == Stride(look, |s|) && tail == Skip(s, n)
    requires rest == Scan(eye, tail, offset + n, Better(best, look))
    ensures Scan(eye, s, offset, best) == Scanned(rest.best, Found(look, offset) + rest.starts)
  {
  }

  lemma ContinuesOn(whole: Scanned, starts: seq<int>, found: seq<int>, rest: Scanned)
    requires Continues(whole, starts, Scanned(rest.best, found + rest.starts))
    ensures Continues(whole, starts + found, rest)
  {
    assert starts + (found + rest.starts) == starts + found + rest.starts;
  }

  lemma ScanAt<T>(eye: Eye<T>, data: seq<T>, pos: nat, best: int, s: seq<T>, look: Look, n: nat, tail: seq<T>,
                  rest: Scanned)
    requires pos < |data| && s == data[pos..] && look == eye(s) && n == Stride(look, |s|)
    requires tail == Skip(data, pos + n) && rest == Scan(eye, tail, pos + n, Better(best, look))
    ensures Scan(eye, s, pos, best) == Scanned(rest.best, Found(look, pos) + rest.starts)
  {
    SkipTwice(data, pos, n);
    ScanUnfolds(eye, s, pos, best, look, n, tail, rest);
  }

  /** What one look at the cursor means for the scan. */
  lemma ScanStep<T>(eye: Eye<T>, data: seq<T>, pos: nat, best: int, whole: Scanned, starts: seq<int>, look: Look)
    requires pos < |data| && look == eye(data[pos..]) && Continues(whole, starts, Scan(eye, data[pos..], pos, best))
    ensures var next := pos + Stride(look, |data| - pos);
      Continues(whole, starts + Found(look, pos), Scan(eye, Skip(data, next), next, Better(best, look)))
  {
    var next := pos + Stride(look, |data| - pos);
    var rest := Scan(eye, Skip(data, next), next, Better(best, look));
    ScanAt(eye, data, pos, best, data[pos..], look, next - pos, Skip(data, next), rest);
    ContinuesOn(whole, starts, Found(look, pos), rest);
  }

  lemma ScanDone<T>(eye: Eye<T>, data: seq<T>, pos: nat, best: int, whole: Scanned, starts: seq<int>)
    requires pos >= |data| && Continues(whole, starts, Scan(eye, Skip(data, pos), pos, best))
    ensures whole == Scanned(best, starts)
  {
    assert Skip(data, pos) == [] && starts + [] == starts;
  }

  lemma SkipTwice<T>(data: seq<T>, a: nat, b: nat)
    requires a <= |data|
    ensures Skip(data[a..], b) == Skip(data, a + b)
  {
  }

  method SumLoop(table: seq<Byte>) returns (sum: nat)
    ensures sum == Sum(table)
  {
    sum := 0;
    for i := 0 to |table|
      invariant sum == Sum(table[..i])
    {
      assert table[..i + 1][..i] == table[..i];
      sum := sum + table[i];
    }
    assert table[..|table|] == table;
  }

  /** What the loop sees through a reader whose read of a header may come short: `short` says whether it does, from
      the number of bytes that are left. */
  function Through(short: nat -> bool): Eye<Byte> { (s: seq<Byte>) => if short(|s|) then End else LookAt(s) }

  /** One pass over the reader at `pos`: reads a header, its segment table, and adds up the page length. */
  method LookOnce(data: seq<Byte>, pos: nat, short: nat -> bool) returns (look: Look)
    requires pos < |data|
    ensures look == Through(short)(data[pos..])
    ensures look.Whole? ==> look.length > 0
  {
    ghost var s := data[pos..];
    if short(|data| - pos) || |data| - pos < HEADER {
      return End;
    }
    var buf, after := data[pos..pos + HEADER], pos + HEADER;
    assert buf == s[..HEADER] && data[after..] == s[HEADER..];
    if !Magic(buf) {
      return NoPage;
    }
    var granule, numSegments := Granule(buf), buf[26];
    if |data| - after < numSegments {
      return Truncated(granule);
    }
    assert data[after..after + numSegments] == s[HEADER..][..numSegments];
    var pageSize := SumLoop(data[after..after + numSegments]);
    return Whole(granule, HEADER + numSegments + pageSize);
  }

  /** What one pass of the loop does with what it saw: it ends the loop, or it moves the cursor forward. */
  method Pass<T>(look: Look, pos: nat, granule: int, ghost eye: Eye<T>, ghost data: seq<T>, ghost whole: Scanned,
                 ghost starts: seq<int>)
    returns (done: bool, next: nat, best: int)
    requires pos < |data| && look == eye(data[pos..]) && (look.Whole? ==> look.length > 0)
    requires Continues(whole, starts, Scan(eye, Skip(data, pos), pos, granule))
    ensures if done then whole == Scanned(best, starts + Found(look, pos))
            else next > pos && Continues(whole, starts + Found(look, pos), Scan(eye, Skip(data, next), next, best))
  {
    ScanStep(eye, data, pos, granule, whole, starts, look);
    done, next, best := true, pos, granule;
    ghost var found := starts + Found(look, pos);
    if look.NoPage? {
      done, next := false, pos + 1;
    } else if look.End? {
      ScanDone(eye, data, |data|, best, whole, found);
    } else {
      if look.granule > best { best := look.granule; }
      if look.Whole? {
        done, next := false, pos + look.length;
      } else {
        ScanDone(eye, data, |data|, best, whole, found);
      }
    }
  }

  /** The loop of `getOpusDuration` over a seekable cursor: it ends on any input. */
  method LastGranule(data: seq<Byte>, short: nat -> bool) returns (granule: int)
    ensures granule == Scan(Through(short), data, 0, 0).best
  {
    var pos: nat, done := 0, false;
    granule := 0;
    ghost var starts: seq<int> := [];
    ghost var eye := Through(short);
    ghost var whole := Scan(eye, data, 0, 0);
    assert Skip(data, 0) == data;
    while !done && pos < |data|
      invariant if done then whole == Scanned(granule, starts)
                else Continues(whole, starts, Scan(eye, Skip(data, pos), pos, granule))
      decreases !done, |data| - pos
    {
      var look := LookOnce(data, pos, short);
      ghost var found := starts + Found(look, pos);
      done, pos, granule := Pass(look, pos, granule, eye, data, whole, starts);
      starts := found;
    }
    if !done { ScanDone(eye, data, pos, granule, whole, starts); }
  }

  // ---- short reads

  /** `eye` sees what `full` sees, or the end. */
  ghost predicate Dims<T(!new)>(eye: Eye<T>, full: Eye<T>) { forall s: seq<T> :: eye(s) == End || eye(s) == full(s) }

  lemma {:induction false} BestGrows<T>(eye: Eye<T>, s: seq<T>, offset: nat, best: int)
    ensures Scan(eye, s, offset, best).best >= best
    decreases |s|
  {
    if s != [] {
      var n := Stride(eye(s), |s|);
      BestGrows(eye, Skip(s, n), offset + n, Better(best, eye(s)));
    }
  }

  lemma PrefixAfter(found: seq<int>, a: seq<int>, b: seq<int>)
    requires a <= b
    ensures found + a <= found + b
  {
  }

  /** The scan that ends at a short read is the beginning of the whole scan. */
  lemma {:induction false} ShortReadsCutOff<T(!new)>(eye: Eye<T>, full: Eye<T>, s: seq<T>, offset: nat, best: int)
    requires Dims(eye, full)
    ensures var r, f := Scan(eye, s, offset, best), Scan(full, s, offset, best);
      r.starts <= f.starts && r.best <= f.best
    decreases |s|
  {
    if s != [] {
      var look, n := eye(s), Stride(eye(s), |s|);
      var r := Scan(eye, Skip(s, n), offset + n, Better(best, look));
      ScanUnfolds(eye, s, offset, best, look, n, Skip(s, n), r);
      if look == End {
        BestGrows(full, s, offset, best);
      } else {
        var f := Scan(full, Skip(s, n), offset + n, Better(best, look));
        ScanUnfolds(full, s, offset, best, look, n, Skip(s, n), f);
        ShortReadsCutOff(eye, full, Skip(s, n), offset + n, Better(best, look));
        PrefixAfter(Found(look, offset), r.starts, f.starts);
      }
    }
  }

  /** Through any reader the loop finds the first pages that a full scan finds, and no greater position; without short
      reads it finds them all. */
  lemma ThroughReader(short: nat -> bool, data: seq<Byte>)
    ensures var r, f := Scan(Through(short), data, 0, 0), Scan(LookAt, data, 0, 0);
      r.starts <= f.starts && r.best <= f.best && ((forall n: nat :: n <= |data| ==> !short(n)) ==> r == f)
  {
    ShortReadsCutOff(Through(short), LookAt, data, 0, 0);
    if forall n: nat :: n <= |data| ==> !short(n) { NeverShort(short, data); }
  }

  lemma LookThrough(short: nat -> bool, s: seq<Byte>)
    requires !short(|s|)
    ensures Through(short)(s) == LookAt(s)
  {
  }

  ghost predicate AgreeUpTo<T(!new)>(a: Eye<T>, b: Eye<T>, n: nat) { forall s: seq<T> :: |s| <= n ==> a(s) == b(s) }

  lemma {:induction false} SameScan<T(!new)>(a: Eye<T>, b: Eye<T>, s: seq<T>, offset: nat, best: int, n: nat)
    requires AgreeUpTo(a, b, n) && |s| <= n
    ensures Scan(a, s, offset, best) == Scan(b, s, offset, best)
    decreases |s|
  {
    if s != [] {
      var look := a(s);
      var k := Stride(look, |s|);
      var rest := Skip(s, k);
      SameScan(a, b, rest, offset + k, Better(best, look), n);
      var r := Scan(b, rest, offset + k, Better(best, look));
      ScanUnfolds(a, s, offset, best, look, k, rest, r);
      ScanUnfolds(b, s, offset, best, look, k, rest, r);
    }
  }

  lemma NeverShort(short: nat -> bool, data: seq<Byte>)
    requires forall n: nat :: n <= |data| ==> !short(n)
    ensures Scan(Through(short), data, 0, 0) == Scan(LookAt, data, 0, 0)
  {
    forall s: seq<Byte> | |s| <= |data| ensures Through(short)(s) == LookAt(s) { LookThrough(short, s); }
    SameScan(Through(short), LookAt, data, 0, 0, |data|);
  }

  // ---- streams of well-formed pages

  /** A block of bytes, the granule position it stands for, and the bytes between it and the block before. */
  datatype Block<T> = Block(gap: seq<T>, granule: int, bytes: seq<T>)

  /** The blocks with their gaps, and what follows the last of them. */
  function Stream<T(!new)>(blocks: seq<Block<T>>, last: seq<T>): seq<T> {
    if blocks == [] then last else blocks[0].gap + (blocks[0].bytes + Stream(blocks[1..], last))
  }

  function Offsets<T(!new)>(blocks: seq<Block<T>>, offset: nat): seq<int> {
    if blocks == [] then []
    else
      var start := offset + |blocks[0].gap|;
      [start] + Offsets(blocks[1..], start + |blocks[0].bytes|)
  }

  function Greatest<T(!new)>(blocks: seq<Block<T>>, best: int): int {
    if blocks == [] then best else Greatest(blocks[1..], Max(best, blocks[0].granule))
  }

  /** No position of the garbage is taken for a page, with `tail` following it. */
  ghost predicate Blind<T(!new)>(eye: Eye<T>, garbage: seq<T>, tail: seq<T>) {
    garbage == [] || (eye(garbage + tail) == NoPage && Blind(eye, garbage[1..], tail))
  }

  lemma NoPageStep<T(!new)>(eye: Eye<T>, s: seq<T>, rest: seq<T>, offset: nat, best: int)
    requires s != [] && eye(s) == NoPage && rest == s[1..]
    ensures Scan(eye, s, offset, best) == Scan(eye, rest, offset + 1, best)
  {
    assert Skip(s, 1) == rest;
    var r := Scan(eye, rest, offset + 1, best);
    assert Found(NoPage, offset) + r.starts == r.starts;
  }

  lemma BlindStep<T(!new)>(eye: Eye<T>, garbage: seq<T>, tail: seq<T>)
    requires garbage != [] && Blind(eye, garbage, tail)
    ensures eye(garbage + tail) == NoPage && garbage[1..] + tail == (garbage + tail)[1..]
    ensures Blind(eye, garbage[1..], tail)
  {
  }

  lemma {:induction false} ScanGarbage<T(!new)>(eye: Eye<T>, garbage: seq<T>, tail: seq<T>, whole: seq<T>, offset: nat,
                                                end: nat, best: int, r: Scanned)
    requires Blind(eye, garbage, tail) && whole == garbage + tail && end == offset + |garbage|
    requires Scan(eye, tail, end, best) == r
    ensures Scan(eye, whole, offset, best) == r
    decreases |garbage|
  {
    if garbage == [] {
      assert whole == tail;
    } else {
      BlindStep(eye, garbage, tail);
      NoPageStep(eye, whole, whole[1..], offset, best);
      ScanGarbage(eye, garbage[1..], tail, whole[1..], offset + 1, end, best, r);
    }
  }

  /** Whatever follows it, the block is recognised and skipped as a whole. */
  ghost predicate Recognised<T(!new)>(eye: Eye<T>, bytes: seq<T>, granule: int) {
    bytes != [] && forall tail: seq<T> :: eye(bytes + tail) == Whole(granule, |bytes|)
  }

  /** Every block is recognised, and no gap is taken for one. */
  ghost predicate Readable<T(!new)>(eye: Eye<T>, blocks: seq<Block<T>>, last: seq<T>) {
    blocks == []
    || (Recognised(eye, blocks[0].bytes, blocks[0].granule)
        && Blind(eye, blocks[0].gap, blocks[0].bytes + Stream(blocks[1..], last))
        && Readable(eye, blocks[1..], last))
  }

  ghost predicate QuietAt<T(!new)>(eye: Eye<T>, last: seq<T>, offset: nat, best: int) {
    Scan(eye, last, offset, best) == Scanned(best, [])
  }

  ghost predicate Quiet<T(!new)>(eye: Eye<T>, last: seq<T>) {
    forall offset: nat, best: int :: QuietAt(eye, last, offset, best)
  }

  lemma ScanBlock<T(!new)>(eye: Eye<T>, bytes: seq<T>, granule: int, tail: seq<T>, offset: nat, best: int, r: Scanned)
    requires Recognised(eye, bytes, granule) && Scan(eye, tail, offset + |bytes|, Max(best, granule)) == r
    ensures Scan(eye, bytes + tail, offset, best) == Scanned(r.best, [offset] + r.starts)
  {
    var look := eye(bytes + tail);
    assert look == Whole(granule, |bytes|);
    assert Skip(bytes + tail, |bytes|) == tail;
    ScanUnfolds(eye, bytes + tail, offset, best, look, |bytes|, tail, r);
  }

  /** A gap and a block, and then the rest. */
  lemma ScanGapAndBlock<T(!new)>(eye: Eye<T>, b: Block<T>, tail: seq<T>, offset: nat, best: int, r: Scanned)
    requires Recognised(eye, b.bytes, b.granule) && Blind(eye, b.gap, b.bytes + tail)
    requires Scan(eye, tail, offset + |b.gap| + |b.bytes|, Max(best, b.granule)) == r
    ensures Scan(eye, b.gap + (b.bytes + tail), offset, best) == Scanned(r.best, [offset + |b.gap|] + r.starts)
  {
    ScanBlock(eye, b.bytes, b.granule, tail, offset + |b.gap|, best, r);
    ScanGarbage(eye, b.gap, b.bytes + tail, b.gap + (b.bytes + tail), offset, offset + |b.gap|, best,
      Scanned(r.best, [offset + |b.gap|] + r.starts));
  }

  type Scanner<!T> = (seq<T>, nat, int) -> Scanned

  function ScannerOf<T>(eye: Eye<T>): Scanner<T> {
    (s: seq<T>, offset: nat, best: int) => Scan(eye, s, offset, best)
  }

  predicate StepAt<T(!new)>(scan: Scanner<T>, b: Block<T>, tail: seq<T>, offset: nat, best: int) {
    var r := scan(tail, offset + |b.gap| + |b.bytes|, Max(best, b.granule));
    scan(b.gap + (b.bytes + tail), offset, best) == Scanned(r.best, [offset + |b.gap|] + r.starts)
  }

  predicate EndsAt<T(!new)>(scan: Scanner<T>, last: seq<T>, offset: nat, best: int) {
    scan(last, offset, best) == Scanned(best, [])
  }

  /** The scanner takes the stream block by block. */
  ghost predicate Chained<T(!new)>(scan: Scanner<T>, blocks: seq<Block<T>>, last: seq<T>) {
    if blocks == [] then forall offset: nat, best: int :: EndsAt(scan, last, offset, best)
    else
      && (forall offset: nat, best: int :: StepAt(scan, blocks[0], Stream(blocks[1..], last), offset, best))
      && Chained(scan, blocks[1..], last)
  }

  lemma {:induction false} ChainedScan<T(!new)>(scan: Scanner<T>, blocks: seq<Block<T>>, last: seq<T>, offset: nat,
                                                best: int)
    requires Chained(scan, blocks, last)
    ensures scan(Stream(blocks, last), offset, best) == Scanned(Greatest(blocks, best), Offsets(blocks, offset))
  {
    if blocks == [] {
      assert EndsAt(scan, last, offset, best);
    } else {
      var b := blocks[0];
      ChainedScan(scan, blocks[1..], last, offset + |b.gap| + |b.bytes|, Max(best, b.granule));
      assert StepAt(scan, b, Stream(blocks[1..], last), offset, best);
    }
  }

  lemma {:induction false} ReadableIsChained<T(!new)>(eye: Eye<T>, blocks: seq<Block<T>>, last: seq<T>)
    requires Readable(eye, blocks, last) && Quiet(eye, last)
    ensures Chained(ScannerOf(eye), blocks, last)
  {
    if blocks == [] {
      forall offset: nat, best: int ensures EndsAt(ScannerOf(eye), last, offset, best) {
        assert QuietAt(eye, last, offset, best);
      }
    } else {
      var b, tail := blocks[0], Stream(blocks[1..], last);
      forall offset: nat, best: int ensures StepAt(ScannerOf(eye), b, tail, offset, best) {
        ScanGapAndBlock(eye, b, tail, offset, best,
                        ScannerOf(eye)(tail, offset + |b.gap| + |b.bytes|, Max(best, b.granule)));
      }
      ReadableIsChained(eye, blocks[1..], last);
    }
  }

  /** The fields of a page; `rest` is its serial number, page number and checksum. */
  datatype Page = Page(version: Byte, flags: Byte, granule: int, rest: seq<Byte>, table: seq<Byte>, body: seq<Byte>) {
    ghost predicate Valid() {
      -TWO_63 <= granule < TWO_63 && |rest| == 12 && |table| <= 255 && |body| == Sum(table)
    }
  }

  ghost function Header(p: Page): (h: seq<Byte>)
    requires p.Valid()
    ensures |h| == HEADER
  {
    [0x4F, 0x67, 0x67, 0x53, p.version, p.flags] + Encode(Unsigned(p.granule), 8) + p.rest + [|p.table|]
  }

  ghost function PageBytes(p: Page): seq<Byte>
    requires p.Valid()
  {
    Header(p) + p.table + p.body
  }

  lemma HeaderReads(p: Page)
    requires p.Valid()
    ensures Magic(Header(p)) && Header(p)[26] == |p.table| && Granule(Header(p)) == p.granule
  {
    assert Header(p)[6..14] == Encode(Unsigned(p.granule), 8);
    EightBytes();
    DecodeEncode(Unsigned(p.granule), 8);
  }

  lemma EightBytes()
    ensures Pow256(8) == TWO_64
  {
    assert Pow256(4) == 0x1_0000_0000;
    assert Pow256(8) == 256 * (256 * (256 * (256 * Pow256(4))));
  }

  /** A well-formed page is recognised, with its granule position and its exact length. */
  lemma PageIsRecognised(p: Page)
    requires p.Valid()
    ensures Recognised(LookAt, PageBytes(p), p.granule) && |PageBytes(p)| >= HEADER && Magic(PageBytes(p))
  {
    HeaderReads(p);
    var b := PageBytes(p);
    forall tail: seq<Byte> ensures LookAt(b + tail) == Whole(p.granule, |b|) {
      var s, rest := b + tail, p.table + p.body + tail;
      assert s[..HEADER] == Header(p) && s[HEADER..] == rest;
      assert rest[..|p.table|] == p.table;
    }
  }

  /** The capture pattern occurs nowhere. */
  ghost predicate NoMagic(garbage: seq<Byte>) {
    garbage == [] || (!Magic(garbage) && NoMagic(garbage[1..]))
  }

  /** The capture pattern cannot straddle the end of the garbage, because it does not overlap itself. */
  lemma {:induction false} GarbageIsBlind(garbage: seq<Byte>, tail: seq<Byte>)
    requires NoMagic(garbage) && |tail| >= HEADER && Magic(tail)
    ensures Blind(LookAt, garbage, tail)
  {
    if garbage != [] {
      var s := garbage + tail;
      assert s[|garbage|] == tail[0];
      assert !Magic(s[..HEADER]);
      GarbageIsBlind(garbage[1..], tail);
    }
  }

  /** Bytes without the capture pattern yield no page and leave the result alone. */
  lemma {:induction false} ScanOnlyGarbage(garbage: seq<Byte>, offset: nat, best: int)
    requires NoMagic(garbage)
    ensures Scan(LookAt, garbage, offset, best) == Scanned(best, [])
    decreases |garbage|
  {
    if garbage != [] {
      if |garbage| >= HEADER { assert !Magic(garbage[..HEADER]); }
      ScanOnlyGarbage(garbage[1..], offset + 1, best);
    }
  }

  /** The blocks are well-formed pages, and their gaps do not hold the capture pattern. */
  ghost predicate AllPages(blocks: seq<Block<Byte>>, pages: seq<Page>) {
    |blocks| == |pages| && (blocks == [] ||
      (pages[0].Valid() && blocks[0] == Block(blocks[0].gap, pages[0].granule, PageBytes(pages[0]))
       && NoMagic(blocks[0].gap) && AllPages(blocks[1..], pages[1..])))
  }

  lemma MagicAhead(bytes: seq<Byte>, tail: seq<Byte>)
    requires |bytes| >= HEADER && Magic(bytes)
    ensures |bytes + tail| >= HEADER && Magic(bytes + tail)
  {
  }

  lemma {:induction false} PagesAreReadable(blocks: seq<Block<Byte>>, pages: seq<Page>, last: seq<Byte>)
    requires AllPages(blocks, pages)
    ensures Readable(LookAt, blocks, last)
  {
    if blocks != [] {
      var tail := Stream(blocks[1..], last);
      PageIsRecognised(pages[0]);
      MagicAhead(blocks[0].bytes, tail);
      GarbageIsBlind(blocks[0].gap, blocks[0].bytes + tail);
      PagesAreReadable(blocks[1..], pages[1..], last);
    }
  }

  /**
   On a stream of well-formed pages, with garbage without the capture pattern before, between and after
   them, the scan lands on every page and nowhere else, and returns their greatest granule position, or
   0 if none is positive.
   */
  lemma ScanFindsEveryPage(blocks: seq<Block<Byte>>, pages: seq<Page>, last: seq<Byte>)
    requires AllPages(blocks, pages) && NoMagic(last)
    ensures Scan(LookAt, Stream(blocks, last), 0, 0) == Scanned(Greatest(blocks, 0), Offsets(blocks, 0))
  {
    PagesAreReadable(blocks, pages, last);
    forall offset: nat, best: int ensures QuietAt(LookAt, last, offset, best) {
      ScanOnlyGarbage(last, offset, best);
    }
    ReadableIsChained(LookAt, blocks, last);
    ChainedScan(ScannerOf(LookAt), blocks, last, 0, 0);
  }

  /** `Greatest` is the maximum of the initial value and the granule positions. */
  lemma {:induction false} GreatestIsMaximum<T(!new)>(blocks: seq<Block<T>>, best: int)
    ensures Greatest(blocks, best) >= best
    ensures forall b :: b in blocks ==> b.granule <= Greatest(blocks, best)
    ensures Greatest(blocks, best) == best || exists b :: b in blocks && b.granule == Greatest(blocks, best)
  {
    if blocks != [] {
      GreatestIsMaximum(blocks[1..], Max(best, blocks[0].granule));
      assert blocks[0] in blocks && forall b :: b in blocks[1..] ==> b in blocks;
      assert forall b :: b in blocks ==> b == blocks[0] || b in blocks[1..];
    }
  }

  /** A page header, whole or truncated, stands at `x` in `data`. */
  ghost predicate PageAt<T(!new)>(eye: Eye<T>, data: seq<T>, x: int) {
    0 <= x < |data| && (eye(data[x..]).Truncated? || eye(data[x..]).Whole?)
  }

  /** The places stand in increasing order from `from` on, a page header stands at each, and no granule position
      there is above `best`. */
  ghost predicate Lands<T(!new)>(eye: Eye<T>, data: seq<T>, starts: seq<int>, from: int, best: int) {
    starts == []
    || (from <= starts[0] && PageAt(eye, data, starts[0]) && eye(data[starts[0]..]).granule <= best
        && Lands(eye, data, starts[1..], starts[0] + 1, best))
  }

  lemma LandsLater<T(!new)>(eye: Eye<T>, data: seq<T>, starts: seq<int>, from: int, earlier: int, best: int)
    requires Lands(eye, data, starts, from, best) && earlier <= from
    ensures Lands(eye, data, starts, earlier, best)
  {
  }

  lemma LandsFirst<T(!new)>(eye: Eye<T>, data: seq<T>, starts: seq<int>, from: int, best: int)
    requires PageAt(eye, data, from) && eye(data[from..]).granule <= best && Lands(eye, data, starts, from + 1, best)
    ensures Lands(eye, data, [from] + starts, from, best)
  {
    assert ([from] + starts)[1..] == starts;
  }

  /** A scan is one look and the scan of what is left. */
  lemma ScanOne<T(!new)>(eye: Eye<T>, data: seq<T>, offset: nat, best: int, r: Scanned)
    returns (look: Look, n: nat, rest: Scanned)
    requires offset < |data| && r == Scan(eye, data[offset..], offset, best)
    ensures look == eye(data[offset..]) && n > 0
    ensures r == Scanned(rest.best, Found(look, offset) + rest.starts)
    ensures if offset + n < |data| then rest == Scan(eye, data[offset + n..], offset + n, Better(best, look))
            else rest == Scanned(Better(best, look), [])
  {
    var s := data[offset..];
    look, n := eye(s), Stride(eye(s), |s|);
    rest := Scan(eye, Skip(s, n), offset + n, Better(best, look));
    SkipTwice(data, offset, n);
  }

  lemma LandsNext<T(!new)>(eye: Eye<T>, data: seq<T>, offset: nat, n: nat, best: int, look: Look, rest: Scanned,
                           r: Scanned)
    requires offset < |data| && look == eye(data[offset..]) && n > 0
    requires LandsFrom(eye, data, offset + n, Better(best, look), rest)
    requires r == Scanned(rest.best, Found(look, offset) + rest.starts)
    ensures LandsFrom(eye, data, offset, best, r)
  {
    LandsLater(eye, data, rest.starts, offset + n, offset + 1, rest.best);
    if look.Truncated? || look.Whole? {
      LandsFirst(eye, data, rest.starts, offset, rest.best);
    } else {
      assert Found(look, offset) + rest.starts == rest.starts;
      LandsLater(eye, data, rest.starts, offset + 1, offset, rest.best);
    }
  }

  ghost predicate LandsFrom<T(!new)>(eye: Eye<T>, data: seq<T>, offset: nat, best: int, r: Scanned) {
    r.best >= best && Lands(eye, data, r.starts, offset, r.best)
  }

  lemma LandsNowhere<T(!new)>(eye: Eye<T>, data: seq<T>, offset: nat, best: int)
    ensures LandsFrom(eye, data, offset, best, Scanned(best, []))
  {
  }

  /** On any bytes whatever, the scan reports only places where a page header stands, in increasing order,
      and its result is at least each of their granule positions. */
  lemma {:induction false} ScanLandsOnPages<T(!new)>(eye: Eye<T>, data: seq<T>, offset: nat, best: int, r: Scanned)
    requires offset <= |data| && r == Scan(eye, data[offset..], offset, best)
    ensures LandsFrom(eye, data, offset, best, r)
    decreases |data| - offset
  {
    if offset == |data| {
      LandsNowhere(eye, data, offset, best);
    } else {
      var look, n, rest := ScanOne(eye, data, offset, best, r);
      if offset + n < |data| {
        ScanLandsOnPages(eye, data, offset + n, Better(best, look), rest);
      } else {
        LandsNowhere(eye, data, offset + n, Better(best, look));
      }
      LandsNext(eye, data, offset, n, best, look, rest, r);
    }
  }

  /** A result above the initial value is the granule position of one of those places. */
  lemma {:induction false} ScanResultIsSeen<T(!new)>(eye: Eye<T>, data: seq<T>, offset: nat, best: int, r: Scanned)
    returns (x: int)
    requires offset <= |data| && r == Scan(eye, data[offset..], offset, best) && r.best != best
    ensures x in r.starts && PageAt(eye, data, x) && eye(data[x..]).granule == r.best
    decreases |data| - offset
  {
    var look, n, rest := ScanOne(eye, data, offset, best, r);
    var better := Better(best, look);
    if rest.best != better {
      x := ScanResultIsSeen(eye, data, offset + n, better, rest);
    } else {
      x := offset;
      assert x in Found(look, offset);
    }
  }
}

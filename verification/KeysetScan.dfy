/**
 The keyset scan over the enabled channels: batches of rows ordered by identifier, each starting after
 the last identifier of the one before.  A table is the set of identifiers of its enabled channels,
 which are positive.
 */
module KeysetScan {
  import opened Wrappers

  ghost predicate Ascending(s: seq<int>) {
    forall i, j :: 0 <= i < j < |s| ==> s[i] < s[j]
  }

  ghost predicate After(lastID: int, id: int) { lastID > 0 ==> id > lastID }

  /** What `ORDER BY id LIMIT n`, with `id > lastID` once a batch was seen, returns. */
  ghost predicate IsBatch(table: set<int>, lastID: int, limit: nat, batch: seq<int>) {
    && Ascending(batch)
    && |batch| <= limit
    && (forall id :: id in batch ==> id in table && After(lastID, id))
    && (forall id :: id in table && After(lastID, id) && id !in batch ==>
          |batch| == limit && forall other :: other in batch ==> other < id)
  }

  ghost predicate Positive(table: set<int>) { forall id :: id in table ==> id > 0 }

  ghost function LastOf(batches: seq<seq<int>>): int {
    if batches == [] then 0 else
    var last := batches[|batches| - 1];
    if last == [] then 0 else last[|last| - 1]
  }

  ghost function Visited(batches: seq<seq<int>>): seq<int> {
    if batches == [] then [] else Visited(batches[..|batches| - 1]) + batches[|batches| - 1]
  }

  /** A scan in progress: `tables[k]` is what the table held when batch `k` was read; only a full batch
      is followed by another, and an empty one ends the scan. */
  ghost predicate IsScan(tables: seq<set<int>>, limit: nat, batches: seq<seq<int>>)
    decreases |batches|
  {
    && |tables| == |batches|
    && (batches == [] ||
        var n := |batches| - 1;
        && IsScan(tables[..n], limit, batches[..n])
        && Positive(tables[n])
        && (n > 0 ==> |batches[n - 1]| == limit)
        && batches[n] != []
        && IsBatch(tables[n], LastOf(batches[..n]), limit, batches[n]))
  }

  lemma AscendingAppend(a: seq<int>, b: seq<int>, pivot: int)
    requires Ascending(a) && Ascending(b)
    requires (forall x :: x in a ==> x <= pivot) && (forall x :: x in b ==> pivot < x)
    ensures Ascending(a + b)
  {
    forall i, j | 0 <= i < j < |a + b| ensures (a + b)[i] < (a + b)[j] {
      assert i < |a| ==> a[i] in a;
      assert j >= |a| ==> b[j - |a|] in b;
    }
  }

  /** Whatever is inserted, removed or disabled between batches, identifiers are visited in strictly
      increasing order, so no channel is visited twice. */
  lemma {:induction false} VisitedAscends(tables: seq<set<int>>, limit: nat, batches: seq<seq<int>>)
    requires IsScan(tables, limit, batches)
    ensures Ascending(Visited(batches))
    ensures forall id :: id in Visited(batches) ==> 0 < id <= LastOf(batches)
    ensures batches != [] ==> LastOf(batches) > 0
    decreases |batches|
  {
    if batches != [] {
      var n := |batches| - 1;
      var before, last := Visited(batches[..n]), batches[n];
      VisitedAscends(tables[..n], limit, batches[..n]);
      assert last[|last| - 1] in last;
      AscendingAppend(before, last, LastOf(batches[..n]));
    }
  }

  /** On an unchanged table, what a scan has visited is every channel up to its last identifier. */
  lemma {:induction false} VisitedComplete(table: set<int>, limit: nat, tables: seq<set<int>>, batches: seq<seq<int>>)
    requires Positive(table)
    requires IsScan(tables, limit, batches) && forall t :: t in tables ==> t == table
    ensures forall id :: id in table && id <= LastOf(batches) ==> id in Visited(batches)
    ensures forall id :: id in Visited(batches) ==> id in table
    ensures batches == [] ==> Visited(batches) == []
    decreases |batches|
  {
    if batches != [] {
      var n := |batches| - 1;
      assert forall t :: t in tables[..n] ==> t in tables;
      VisitedComplete(table, limit, tables[..n], batches[..n]);
      VisitedAscends(tables[..n], limit, batches[..n]);
      assert tables[n] in tables;
      var last := batches[n];
      assert last[|last| - 1] in last;
    }
  }

  /** The next batch of a table, read row by row. */
  method FindEnabledChannelsAfterID(table: set<int>, lastID: int, limit: nat) returns (batch: seq<int>)
    ensures IsBatch(table, lastID, limit, batch)
  {
    batch := [];
    var rest := set id | id in table && (lastID > 0 ==> id > lastID);
    while rest != {} && |batch| < limit
      invariant |batch| <= limit && Ascending(batch)
      invariant forall id :: id in batch ==> id in table && After(lastID, id)
      invariant forall id :: id in table && After(lastID, id) <==>
              id in rest || (id in batch && id in table && After(lastID, id))
      invariant forall a, b :: a in batch && b in rest ==> a < b
      decreases |rest|
    {
      var id := Least(rest);
      AscendingAppend(batch, [id], id - 1);
      batch := batch + [id];
      rest := rest - {id};
    }
  }

  method Least(s: set<int>) returns (least: int)
    requires s != {}
    ensures least in s && forall x :: x in s ==> least <= x
  {
    ghost var some := SomeMember(s);
    least :| least in s;
    var rest := s - {least};
    while rest != {}
      invariant rest <= s && least in s
      invariant forall x :: x in s && x !in rest ==> least <= x
      decreases |rest|
    {
      ghost var some := SomeMember(rest);
      var x :| x in rest;
      if x < least { least := x; }
      rest := rest - {x};
    }
  }

  ghost function Ahead(table: set<int>, lastID: int): set<int> {
    set id | id in table && id > lastID
  }

  /** A scan in progress over a table that does not change, its last batch full. */
  ghost predicate Scanning(table: set<int>, limit: nat, batches: seq<seq<int>>) {
    && Positive(table)
    && IsScan(Constant(table, |batches|), limit, batches)
    && (batches != [] ==> |batches[|batches| - 1]| == limit)
  }

  ghost function Constant(table: set<int>, n: nat): (tables: seq<set<int>>)
    ensures |tables| == n && forall t :: t in tables ==> t == table
  {
    if n == 0 then [] else Constant(table, n - 1) + [table]
  }

  /** One more batch read from an unchanged table. */
  lemma ScanExtends(table: set<int>, limit: nat, batches: seq<seq<int>>, batch: seq<int>)
    requires Scanning(table, limit, batches) && batch != [] && IsBatch(table, LastOf(batches), limit, batch)
    ensures IsScan(Constant(table, |batches| + 1), limit, batches + [batch])
    ensures Visited(batches + [batch]) == Visited(batches) + batch
    ensures LastOf(batches + [batch]) == batch[|batch| - 1] > LastOf(batches) >= 0
    ensures batch[|batch| - 1] in Ahead(table, LastOf(batches))
  {
    var tables := Constant(table, |batches|);
    assert (batches + [batch])[..|batches|] == batches && (tables + [table])[..|tables|] == tables;
    VisitedAscends(tables, limit, batches);
    assert batch[|batch| - 1] in batch;
  }

  /** With nothing ahead, everything was visited, once. */
  lemma ScanComplete(table: set<int>, limit: nat, batches: seq<seq<int>>)
    requires Positive(table) && IsScan(Constant(table, |batches|), limit, batches)
    requires Ahead(table, LastOf(batches)) == {}
    ensures Ascending(Visited(batches)) && forall id :: id in Visited(batches) <==> id in table
  {
    VisitedAscends(Constant(table, |batches|), limit, batches);
    VisitedComplete(table, limit, Constant(table, |batches|), batches);
    forall id | id in table ensures id <= LastOf(batches) {
      assert id !in Ahead(table, LastOf(batches));
    }
  }

  lemma ShortBatchIsLast(table: set<int>, lastID: int, limit: nat, batch: seq<int>)
    requires Positive(table) && lastID >= 0 && IsBatch(table, lastID, limit, batch) && |batch| < limit
    ensures Ahead(table, if batch == [] then lastID else batch[|batch| - 1]) == {}
  {
    if batch != [] {
      var last := batch[|batch| - 1];
      assert last in batch;
      forall id | id in table ensures id <= last {
        if id in batch {
          var i :| 0 <= i < |batch| && batch[i] == id;
        }
      }
    }
  }

  /** The scan loop on an unchanged table: it ends, having visited every enabled channel exactly once. */
  method ScanAll(table: set<int>, limit: nat) returns (visited: seq<int>)
    requires Positive(table) && limit > 0
    ensures Ascending(visited)
    ensures forall id :: id in visited <==> id in table
  {
    visited := [];
    var lastID := 0;
    ghost var batches: seq<seq<int>> := [];
    while true
      invariant Scanning(table, limit, batches)
      invariant visited == Visited(batches) && 0 <= lastID == LastOf(batches)
      decreases Ahead(table, lastID)
    {
      var channels := FindEnabledChannelsAfterID(table, lastID, limit);
      if channels == [] {
        ShortBatchIsLast(table, lastID, limit, channels);
        ScanComplete(table, limit, batches);
        return;
      }
      ScanExtends(table, limit, batches, channels);
      visited, batches := visited + channels, batches + [channels];
      if |channels| < limit {
        ShortBatchIsLast(table, lastID, limit, channels);
        ScanComplete(table, limit, batches);
        return;
      }
      lastID := channels[|channels| - 1];
    }
  }
}

/**
 Reconciling a channel's local model list with what its upstream offers: the detect and apply steps
 over local models, pending additions and removals, ignored names and alias mappings.
 */
module UpstreamUpdate {
  import opened Wrappers
  import opened GoText
  import opened ModelNames
  import opened Sequences

  /** Alias mapping (source to target) and the regular-expression matcher; a pattern that does not
      compile matches nothing. */
  datatype Env = Env(mapping: map<string, string>, matches: (string, string) -> bool)

  /** The stored columns: model names are kept as one comma-separated string. */
  datatype Row = Row(
    models: string,
    detected: seq<string>,   // pending additions
    removed: seq<string>,    // pending removals
    ignored: seq<string>,
    lastCheck: int,
    autoSync: bool)

  function GetModels(models: string): seq<string> {
    if models == "" then [] else Split(TrimChar(models, ','), ',')
  }

  function Local(row: Row): set<string> { Names(GetModels(row.models)) }

  predicate IsPattern(entry: string) { "regex:" <= entry }

  predicate Suppresses(env: Env, entry: string, name: string) {
    if IsPattern(entry) then env.matches(TrimSpace(entry[6..]), name) else entry == name
  }

  predicate Ignored(env: Env, ignored: set<string>, name: string) {
    exists entry :: entry in ignored && Suppresses(env, entry, name)
  }

  function AddSet(env: Env, local: set<string>, upstream: set<string>, ignored: set<string>): set<string> {
    set u | u in upstream && u !in local && u !in env.mapping.Values && !Ignored(env, ignored, u)
  }

  function RemoveSet(env: Env, local: set<string>, upstream: set<string>): set<string> {
    set m | m in local && m !in env.mapping.Keys && m !in upstream
  }

  /** `collectPendingUpstreamModelChangesFromModels`. */
  function CollectPending(env: Env, local: seq<string>, upstream: seq<string>, ignored: seq<string>)
    : (seq<string>, seq<string>)
  {
    var pendingAdd := Keep(Normalize(upstream), AddSet(env, Names(local), Names(upstream), Names(ignored)));
    var pendingRemove := Keep(Normalize(local), RemoveSet(env, Names(local), Names(upstream)));
    (Normalize(pendingAdd), Normalize(pendingRemove))
  }

  /** One call of `checkAndPersistChannelUpstreamModelUpdates` whose database write succeeds. */
  datatype Detection = Detection(now: int, minInterval: int, force: bool, allowAutoApply: bool,
                                 fetched: Option<seq<string>>)

  /** A check that is not forced is skipped when the last one is too recent. */
  predicate Due(row: Row, d: Detection) {
    d.force || !(row.lastCheck > 0 && d.now - row.lastCheck < d.minInterval)
  }

  /** The stored models after the pending names are merged in without asking. */
  function Synced(models: string, pendingAdd: seq<string>): string {
    var origin := Normalize(GetModels(models));
    var merged := Merge(origin, pendingAdd);
    if |merged| > |origin| then Join(merged, ',') else models
  }

  function Detect(env: Env, row: Row, d: Detection): Row {
    if !Due(row, d) then row
    else if d.fetched.None? then row.(lastCheck := d.now)
    else
      var (pendingAdd, pendingRemove) := CollectPending(env, GetModels(row.models), d.fetched.value, row.ignored);
      if d.allowAutoApply && row.autoSync && |pendingAdd| > 0 then
        row.(models := Synced(row.models, pendingAdd), detected := [], removed := pendingRemove, lastCheck := d.now)
      else
        row.(detected := pendingAdd, removed := pendingRemove, lastCheck := d.now)
  }

  /** What an administrator selected among the pending changes. */
  datatype Selection = Selection(add: seq<string>, ignore: seq<string>, remove: seq<string>, now: int)

  datatype Applied = Applied(row: Row, added: seq<string>, removed: seq<string>, changed: bool)

  /** One call of `applyChannelUpstreamModelUpdates` whose database write succeeds. */
  function ApplyUpdates(row: Row, sel: Selection): Applied {
    var pendingAdd, pendingRemove := Normalize(row.detected), Normalize(row.removed);
    var add := Intersect(sel.add, pendingAdd);
    var ignore := Intersect(sel.ignore, pendingAdd);
    var remove := Subtract(Intersect(sel.remove, pendingRemove), add);
    var origin := Normalize(GetModels(row.models));
    var next := ApplySelected(origin, add, remove);
    var merged := Merge(row.ignored, ignore);
    Applied(
      row.(models := if origin != next then Join(next, ',') else row.models,
           ignored := if |add| > 0 then Subtract(merged, add) else merged,
           detected := Subtract(pendingAdd, add + ignore),
           removed := Subtract(pendingRemove, remove),
           lastCheck := sel.now),
      add, remove, origin != next)
  }

  // ---- what a stored list reads back as

  lemma {:induction false} NamesHas(s: seq<string>, m: string)
    requires m in s && TrimSpace(m) != ""
    ensures TrimSpace(m) in Names(s)
  {
    if m != Last(s) {
      assert m in Front(s);
      NamesHas(Front(s), m);
    }
  }

  lemma {:induction false} NamesWithin(a: seq<string>, b: seq<string>)
    requires forall p :: p in a && p != "" ==> p in b
    ensures Names(a) <= Names(b)
  {
    if a != [] {
      NamesWithin(Front(a), b);
      if TrimSpace(Last(a)) != "" { NamesHas(b, Last(a)); }
    }
  }

  lemma {:induction false} NamesWithout(s: seq<string>, c: char)
    requires forall p :: p in s ==> c !in p
    ensures forall x :: x in Names(s) ==> c !in x
  {
    if s != [] {
      NamesWithout(Front(s), c);
      assert Last(s) in s;
      TrimKeepsAbsent(Last(s), c);
    }
  }

  lemma TrimmedNames(text: string)
    ensures Names(Split(TrimChar(text, ','), ',')) == Names(Split(text, ','))
  {
    SplitTrim(text, ',');
    NamesWithin(Split(TrimChar(text, ','), ','), Split(text, ','));
    NamesWithin(Split(text, ','), Split(TrimChar(text, ','), ','));
  }

  /** Any list written to the column reads back as the names of its comma-separated pieces. */
  lemma StoredNames(names: seq<string>)
    ensures Names(GetModels(Join(names, ','))) == Names(SplitEach(names, ','))
  {
    if names != [] {
      SplitJoin(names, ',');
      TrimmedNames(Join(names, ','));
      BlankNames();
    }
  }

  lemma BlankNames()
    ensures Names(Split("", ',')) == {}
  {
    assert Front([""]) == [];
  }

  /** No local name ever contains a comma. */
  lemma LocalHasNoComma(row: Row)
    ensures forall x :: x in Local(row) ==> ',' !in x
  {
    NamesWithout(GetModels(row.models), ',');
  }

  /** A comma-free name that is written is read back; without commas nothing else is. */
  lemma StoredLocal(names: seq<string>)
    requires Normalized(names)
    ensures forall x :: x in names && ',' !in x ==> x in Names(GetModels(Join(names, ',')))
    ensures (forall x :: x in names ==> ',' !in x) ==> Names(GetModels(Join(names, ','))) == Elems(names)
  {
    StoredNames(names);
    forall x | x in names && ',' !in x ensures x in Names(SplitEach(names, ',')) {
      var i :| 0 <= i < |names| && names[i] == x;
      assert x in Split(names[i], ',');
      SplitEachMember(names, ',', x);
      NormalizedMember(names, x);
      NamesHas(SplitEach(names, ','), x);
    }
    if forall x :: x in names ==> ',' !in x {
      SplitEachPlain(names, ',');
      NormalizedFixed(names);
    }
  }

  lemma {:induction false} NormalizedMember(s: seq<string>, x: string)
    requires Normalized(s) && x in s
    ensures x != "" && Trimmed(x)
  {
    if x != Last(s) {
      assert x in Front(s);
      NormalizedMember(Front(s), x);
    }
  }

  // ---- what detecting and applying do to the sets of names

  lemma KeptNames(s: seq<string>, keep: set<string>)
    requires keep <= Names(s)
    ensures var r := Normalize(Keep(Normalize(s), keep)); Normalized(r) && Elems(r) == keep && Names(r) == keep
  {
    NormalizeMeans(s);
    KeepMeans(Normalize(s), keep);
    NormalizedFixed(Keep(Normalize(s), keep));
  }

  lemma CollectMeans(env: Env, local: seq<string>, upstream: seq<string>, ignored: seq<string>)
    ensures var (add, remove) := CollectPending(env, local, upstream, ignored);
      && Normalized(add) && Elems(add) == Names(add) == AddSet(env, Names(local), Names(upstream), Names(ignored))
      && Normalized(remove) && Elems(remove) == Names(remove) == RemoveSet(env, Names(local), Names(upstream))
  {
    KeptNames(upstream, AddSet(env, Names(local), Names(upstream), Names(ignored)));
    KeptNames(local, RemoveSet(env, Names(local), Names(upstream)));
  }

  /** The selected additions, ignores and removals that take effect. */
  function Chosen(row: Row, sel: Selection): (set<string>, set<string>, set<string>) {
    var add := Names(sel.add) * Names(row.detected);
    (add, Names(sel.ignore) * Names(row.detected), Names(sel.remove) * Names(row.removed) - add)
  }

  lemma ApplyPending(row: Row, sel: Selection)
    ensures var (add, ignore, remove) := Chosen(row, sel); var a := ApplyUpdates(row, sel);
      && Elems(a.added) == add && Elems(a.removed) == remove
      && Names(a.row.detected) == Names(row.detected) - add - ignore
      && Names(a.row.removed) == Names(row.removed) - remove
  {
    var pendingAdd, pendingRemove := Normalize(row.detected), Normalize(row.removed);
    NormalizeNames(row.detected);
    NormalizeNames(row.removed);
    var add, ignore := Intersect(sel.add, pendingAdd), Intersect(sel.ignore, pendingAdd);
    IntersectMeans(sel.add, pendingAdd);
    IntersectNames(sel.add, pendingAdd);
    IntersectNames(sel.ignore, pendingAdd);
    IntersectNames(sel.remove, pendingRemove);
    SubtractMeans(Intersect(sel.remove, pendingRemove), add);
    SubtractNames(Intersect(sel.remove, pendingRemove), add);
    NamesAppend(add, ignore);
    SubtractNames(pendingAdd, add + ignore);
    SubtractNames(pendingRemove, Subtract(Intersect(sel.remove, pendingRemove), add));
  }

  lemma ApplyIgnored(row: Row, sel: Selection)
    ensures var (add, ignore, remove) := Chosen(row, sel);
            Names(ApplyUpdates(row, sel).row.ignored) == Names(row.ignored) + ignore - add
  {
    var pendingAdd := Normalize(row.detected);
    NormalizeNames(row.detected);
    IntersectMeans(sel.add, pendingAdd);
    IntersectNames(sel.add, pendingAdd);
    IntersectNames(sel.ignore, pendingAdd);
    var add, merged := Intersect(sel.add, pendingAdd), Merge(row.ignored, Intersect(sel.ignore, pendingAdd));
    MergeNames(row.ignored, Intersect(sel.ignore, pendingAdd));
    SubtractNames(merged, add);
    if |add| == 0 { assert Elems(add) == {}; }
  }

  /** The list the apply step computes, before it is stored. */
  function NextModels(row: Row, sel: Selection): seq<string> {
    var add := Intersect(sel.add, Normalize(row.detected));
    ApplySelected(Normalize(GetModels(row.models)), add,
                  Subtract(Intersect(sel.remove, Normalize(row.removed)), add))
  }

  lemma NextModelsMeans(row: Row, sel: Selection)
    ensures var (add, ignore, remove) := Chosen(row, sel);
            Normalized(NextModels(row, sel)) && Elems(NextModels(row, sel)) == add + (Local(row) - remove)
    ensures var (add, ignore, remove) := Chosen(row, sel);
            add == {} && remove == {} ==> NextModels(row, sel) == Normalize(GetModels(row.models))
  {
    NormalizeNames(row.detected);
    NormalizeNames(row.removed);
    NormalizeMeans(GetModels(row.models));
    var origin := Normalize(GetModels(row.models));
    NormalizedFixed(origin);
    var add := Intersect(sel.add, Normalize(row.detected));
    IntersectNames(sel.add, Normalize(row.detected));
    IntersectNames(sel.remove, Normalize(row.removed));
    var remove := Subtract(Intersect(sel.remove, Normalize(row.removed)), add);
    SubtractNames(Intersect(sel.remove, Normalize(row.removed)), add);
    ApplySelectedMeans(origin, add, remove);
    if Names(add) == {} && Names(remove) == {} { ApplySelectedNothing(origin, add, remove); }
  }

  /** The local names after an apply: exactly the computed ones, unless a name holds a comma. */
  lemma ApplyLocal(row: Row, sel: Selection)
    ensures var (add, ignore, remove) := Chosen(row, sel); var after := Local(ApplyUpdates(row, sel).row);
      && (forall x :: x in add + (Local(row) - remove) && ',' !in x ==> x in after)
      && ((forall x :: x in add ==> ',' !in x) ==> after == add + (Local(row) - remove))
  {
    var next := NextModels(row, sel);
    NextModelsMeans(row, sel);
    LocalHasNoComma(row);
    var origin := Normalize(GetModels(row.models));
    NormalizeMeans(GetModels(row.models));
    assert ApplyUpdates(row, sel).row.models == if origin != next then Join(next, ',') else row.models;
    if origin != next { StoredLocal(next); }
    assert forall x :: x in next <==> x in Elems(next);
  }

  // ---- names that hold commas

  /** The names that the comma-separated pieces of some names stand for. */
  ghost function PieceNames(names: set<string>): set<string> {
    set x, y | x in names && y in Names(Split(x, ',')) :: y
  }

  lemma OnePiece(x: string)
    ensures PieceNames({}) == {} && PieceNames({x}) == Names(Split(x, ','))
  {
  }

  lemma ElemsSplit(parts: seq<string>)
    requires parts != []
    ensures Elems(parts) == {parts[0]} + Elems(parts[1..])
  {
    assert parts == [parts[0]] + parts[1..];
  }

  lemma {:induction false} PiecesOfList(parts: seq<string>, elems: set<string>)
    requires elems == Elems(parts)
    ensures Names(SplitEach(parts, ',')) == PieceNames(elems)
  {
    if parts == [] {
      NoNames();
      OnePiece("");
    } else {
      var rest := Elems(parts[1..]);
      PiecesOfList(parts[1..], rest);
      NamesAppend(Split(parts[0], ','), SplitEach(parts[1..], ','));
      ElemsSplit(parts);
      PiecesJoin({parts[0]}, rest);
      OnePiece(parts[0]);
    }
  }

  lemma PiecesJoin(a: set<string>, b: set<string>)
    ensures PieceNames(a + b) == PieceNames(a) + PieceNames(b)
  {
    forall y ensures y in PieceNames(a + b) <==> y in PieceNames(a) + PieceNames(b) {
    }
  }

  lemma {:induction false} NamesAreTrimmed(s: seq<string>)
    ensures forall x :: x in Names(s) ==> x != "" && Trimmed(x)
  {
    if s != [] { NamesAreTrimmed(Front(s)); }
  }

  lemma OneName(x: string)
    requires x != "" && Trimmed(x)
    ensures Names([x]) == {x}
  {
    assert Last([x]) == x && Front([x]) == [] && TrimSpace(x) == x;
    NoNames();
  }

  lemma PlainPiece(x: string)
    requires x != "" && Trimmed(x) && ',' !in x
    ensures Names(Split(x, ',')) == {x}
  {
    assert Split(x, ',') == [x];
    OneName(x);
  }

  lemma PlainPieces(names: set<string>)
    requires forall x :: x in names ==> ',' !in x && x != "" && Trimmed(x)
    ensures PieceNames(names) == names
  {
    forall x | x in names ensures Names(Split(x, ',')) == {x} { PlainPiece(x); }
  }

  /** Names of some list: the pieces include the comma-free ones, and are no other names if all are comma-free. */
  lemma PieceFacts(list: seq<string>, names: set<string>)
    requires names <= Names(list)
    ensures forall x :: x in names && ',' !in x ==> x in PieceNames(names)
    ensures (forall x :: x in names ==> ',' !in x) ==> PieceNames(names) == names
  {
    NamesAreTrimmed(list);
    forall x | x in names && ',' !in x ensures x in PieceNames(names) { PlainPiece(x); }
    if forall x :: x in names ==> ',' !in x { PlainPieces(names); }
  }

  /** The local names after an automatic application are the old ones and the pieces of the added ones. */
  lemma SyncedMeans(row: Row, pendingAdd: seq<string>)
    ensures Names(GetModels(Synced(row.models, pendingAdd))) == Local(row) + PieceNames(Names(pendingAdd))
  {
    var origin, add := Normalize(GetModels(row.models)), Names(pendingAdd);
    NormalizeMeans(GetModels(row.models));
    NormalizedFixed(origin);
    MergeMeans(origin, pendingAdd);
    var merged := Merge(origin, pendingAdd);
    LocalHasNoComma(row);
    PieceFacts(GetModels(row.models), Local(row));
    PiecesJoin(Local(row), add);
    if |merged| > |origin| {
      StoredNames(merged);
      PiecesOfList(merged, Local(row) + add);
    } else {
      MergeGrows(origin, pendingAdd);
      PieceFacts(GetModels(row.models), add);
    }
  }

  lemma DetectMeans(env: Env, row: Row, d: Detection)
    requires Due(row, d) && d.fetched.Some?
    ensures var after := Detect(env, row, d); var up := Names(d.fetched.value);
      var add := AddSet(env, Local(row), up, Names(row.ignored));
      && after.ignored == row.ignored && after.autoSync == row.autoSync
      && Names(after.removed) == RemoveSet(env, Local(row), up)
      && (if d.allowAutoApply && row.autoSync && add != {}
          then Names(after.detected) == {} && Local(after) == Local(row) + PieceNames(add)
          else Names(after.detected) == add && after.models == row.models)
  {
    var up := d.fetched.value;
    var (pendingAdd, pendingRemove) := CollectPending(env, GetModels(row.models), up, row.ignored);
    CollectMeans(env, GetModels(row.models), up, row.ignored);
    EmptyElems(pendingAdd);
    SyncedMeans(row, pendingAdd);
    NoNames();
  }

  lemma NoNames()
    ensures Names([]) == {}
  {
  }

  lemma EmptyElems(s: seq<string>)
    ensures s == [] <==> Elems(s) == {}
  {
    assert s != [] ==> s[0] in Elems(s);
  }

  lemma {:induction false} NormalizedCount(s: seq<string>)
    requires Normalized(s)
    ensures |Elems(s)| == |s|
  {
    if s != [] {
      NormalizedCount(Front(s));
      Snoc(Front(s), Last(s));
      assert Front(s) + [Last(s)] == s;
    }
  }

  /** A merge that is no longer than its base added nothing. */
  lemma MergeGrows(origin: seq<string>, extra: seq<string>)
    requires Normalized(origin) && |Merge(origin, extra)| <= |origin|
    ensures Names(extra) <= Names(origin)
  {
    MergeMeans(origin, extra);
    NormalizedFixed(origin);
    NormalizedCount(origin);
    NormalizedCount(Merge(origin, extra));
    UnionCount(Names(origin), Names(extra));
  }

  lemma UnionCount(a: set<string>, b: set<string>)
    ensures |a + b| <= |a| ==> b <= a
  {
    assert a + b == a + (b - a) && |a + (b - a)| == |a| + |b - a|;
    assert |b - a| == 0 ==> b - a == {};
  }

  // ---- one round of detecting and applying everything

  function All(row: Row, now: int): Selection { Selection(row.detected, [], row.removed, now) }

  function Check(upstream: seq<string>, now: int): Detection { Detection(now, 0, true, false, Some(upstream)) }

  /** Detect, then apply everything that is pending. */
  function Round(env: Env, row: Row, upstream: seq<string>, t1: int, t2: int): Row {
    var detected := Detect(env, row, Check(upstream, t1));
    ApplyUpdates(detected, All(detected, t2)).row
  }

  /** Nothing is pending and applying once more would change neither the models nor the ignored names. */
  ghost predicate Settled(env: Env, row: Row, upstream: seq<string>, t1: int, t2: int) {
    var again := Detect(env, row, Check(upstream, t1));
    && again.detected == [] && again.removed == []
    && ApplyUpdates(again, All(again, t2)).row == row.(detected := [], removed := [], lastCheck := t2)
  }

  /**
   The names that would be added hold no comma, and every upstream name that an ignore entry hides is
   hidden by an entry that is not itself about to be added (adding a name drops it from the ignored
   list, and a name may look like a pattern).
   */
  ghost predicate RoundSettles(env: Env, local: set<string>, upstream: set<string>, ignored: set<string>) {
    var add := AddSet(env, local, upstream, ignored);
    && (forall x :: x in add ==> ',' !in x)
    && (forall u :: u in upstream && u !in local && u !in env.mapping.Values && Ignored(env, ignored, u) ==>
          Ignored(env, ignored - add, u))
  }

  lemma ChosenAll(row: Row, now: int)
    requires Names(row.detected) !! Names(row.removed)
    ensures Chosen(row, All(row, now)) == (Names(row.detected), {}, Names(row.removed))
  {
    assert Names([]) == {};
    var d, r := Names(row.detected), Names(row.removed);
    assert d * d == d && {} * d == {} && r * r - d == r;
  }

  lemma ApplyAllMeans(row: Row, now: int)
    requires Names(row.detected) !! Names(row.removed)
    ensures var after := ApplyUpdates(row, All(row, now)).row;
      && Names(after.ignored) == Names(row.ignored) - Names(row.detected)
      && Names(after.detected) == {} && Names(after.removed) == {}
      && ((forall x :: x in Names(row.detected) ==> ',' !in x) ==>
            Local(after) == Names(row.detected) + (Local(row) - Names(row.removed)))
  {
    ChosenAll(row, now);
    ApplyPending(row, All(row, now));
    ApplyIgnored(row, All(row, now));
    ApplyLocal(row, All(row, now));
  }

  lemma RoundMeans(env: Env, row: Row, upstream: seq<string>, t1: int, t2: int)
    ensures var after := Round(env, row, upstream, t1, t2); var up := Names(upstream);
      var add := AddSet(env, Local(row), up, Names(row.ignored));
      var kept := Local(row) - RemoveSet(env, Local(row), up);
      && Names(after.ignored) == Names(row.ignored) - add
      && Names(after.detected) == {} && Names(after.removed) == {}
      && ((forall x :: x in add ==> ',' !in x) ==> Local(after) == add + kept)
  {
    DetectMeans(env, row, Check(upstream, t1));
    var detected := Detect(env, row, Check(upstream, t1));
    assert Names(detected.detected) !! Names(detected.removed);
    ApplyAllMeans(detected, t2);
  }

  /** With nothing pending, applying leaves the list of models alone. */
  lemma ApplyNothing(row: Row, now: int)
    requires row.detected == [] && row.removed == [] && Normalized(row.ignored)
    ensures ApplyUpdates(row, All(row, now)).row == row.(lastCheck := now)
  {
    var sel := All(row, now);
    NextModelsMeans(row, sel);
    assert NextModels(row, sel) == Normalize(GetModels(row.models));
    NormalizeMeans([]);
    IntersectMeans([], []);
    EmptyElems(Intersect([], []));
    MergeMeans(row.ignored, []);
    NormalizedFixed(row.ignored);
  }

  /** What is pending after a round, as a set. */
  lemma AgainMeans(env: Env, row: Row, upstream: seq<string>, t3: int)
    ensures var again := Detect(env, row, Check(upstream, t3));
      && again.models == row.models && again.ignored == row.ignored
      && (again.detected == [] <==> AddSet(env, Local(row), Names(upstream), Names(row.ignored)) == {})
      && (again.removed == [] <==> RemoveSet(env, Local(row), Names(upstream)) == {})
  {
    CollectMeans(env, GetModels(row.models), upstream, row.ignored);
    var (a, r) := CollectPending(env, GetModels(row.models), upstream, row.ignored);
    EmptyElems(a);
    EmptyElems(r);
  }

  lemma RoundIgnoredNormal(env: Env, row: Row, upstream: seq<string>, t1: int, t2: int)
    ensures Normalized(Round(env, row, upstream, t1, t2).ignored)
  {
    var detected := Detect(env, row, Check(upstream, t1));
    var sel := All(detected, t2);
    var add := Intersect(sel.add, Normalize(detected.detected));
    var merged := Merge(detected.ignored, Intersect(sel.ignore, Normalize(detected.detected)));
    MergeMeans(detected.ignored, Intersect(sel.ignore, Normalize(detected.detected)));
    SubtractMeans(merged, add);
  }

  /** A pending name that holds a comma is pending again after the round. */
  lemma CommaComesBack(env: Env, row: Row, upstream: seq<string>, t1: int, t2: int, x: string)
    requires x in AddSet(env, Local(row), Names(upstream), Names(row.ignored)) && ',' in x
    ensures var after := Round(env, row, upstream, t1, t2);
            x in AddSet(env, Local(after), Names(upstream), Names(after.ignored))
  {
    var after := Round(env, row, upstream, t1, t2);
    RoundMeans(env, row, upstream, t1, t2);
    LocalHasNoComma(after);
    assert Ignored(env, Names(after.ignored), x) ==> Ignored(env, Names(row.ignored), x);
  }

  /** Without commas, a second detection finds exactly the names whose ignore entries were dropped. */
  lemma SecondDetection(env: Env, row: Row, upstream: seq<string>, t1: int, t2: int)
    requires forall x :: x in AddSet(env, Local(row), Names(upstream), Names(row.ignored)) ==> ',' !in x
    ensures var after := Round(env, row, upstream, t1, t2); var up := Names(upstream);
      && RemoveSet(env, Local(after), up) == {}
      && (AddSet(env, Local(after), up, Names(after.ignored)) == {} <==>
          RoundSettles(env, Local(row), up, Names(row.ignored)))
  {
    var up, local, ignored := Names(upstream), Local(row), Names(row.ignored);
    var after := Round(env, row, upstream, t1, t2);
    var add := AddSet(env, local, up, ignored);
    RoundMeans(env, row, upstream, t1, t2);
    forall u | u in up
      ensures u in AddSet(env, Local(after), up, Names(after.ignored)) <==>
              u !in local && u !in env.mapping.Values && Ignored(env, ignored, u) && !Ignored(env, ignored - add, u)
    {
      assert Ignored(env, ignored - add, u) ==> Ignored(env, ignored, u);
    }
  }

  /**
   Reconciliation converges in one round exactly under `RoundSettles`: after detecting and applying
   everything once, detecting again finds nothing and applying again changes nothing.
   */
  lemma OneRoundSettles(env: Env, row: Row, upstream: seq<string>, t1: int, t2: int, t3: int, t4: int)
    ensures Settled(env, Round(env, row, upstream, t1, t2), upstream, t3, t4) <==>
            RoundSettles(env, Local(row), Names(upstream), Names(row.ignored))
  {
    var after, up := Round(env, row, upstream, t1, t2), Names(upstream);
    var again := Detect(env, after, Check(upstream, t3));
    AgainMeans(env, after, upstream, t3);
    if x :| x in AddSet(env, Local(row), up, Names(row.ignored)) && ',' in x {
      CommaComesBack(env, row, upstream, t1, t2, x);
    } else {
      SecondDetection(env, row, upstream, t1, t2);
      RoundIgnoredNormal(env, row, upstream, t1, t2);
      if again.detected == [] && again.removed == [] { ApplyNothing(again, t4); }
    }
  }

  /** Upstreams that never use a comma or the pattern prefix in a name always settle. */
  lemma PlainUpstreamSettles(env: Env, row: Row, upstream: seq<string>)
    requires forall u :: u in Names(upstream) ==> ',' !in u && !IsPattern(u)
    ensures RoundSettles(env, Local(row), Names(upstream), Names(row.ignored))
  {
    var ignored := Names(row.ignored);
    var add := AddSet(env, Local(row), Names(upstream), ignored);
    forall u | u in Names(upstream) && Ignored(env, ignored, u) ensures Ignored(env, ignored - add, u) {
      var entry :| entry in ignored && Suppresses(env, entry, u);
      assert entry !in add;
    }
  }

  // ---- several rounds

  datatype Times = Times(detected: int, applied: int)

  function Rounds(env: Env, row: Row, upstream: seq<string>, times: seq<Times>): Row {
    if times == [] then row
    else
      var last := times[|times| - 1];
      Round(env, Rounds(env, row, upstream, times[..|times| - 1]), upstream, last.detected, last.applied)
  }

  /** While a pending name holds a comma, no number of rounds settles: the name is pending after each of them. */
  lemma {:induction false} CommaNeverSettles(env: Env, row: Row, upstream: seq<string>, x: string, times: seq<Times>,
                                             t3: int, t4: int)
    requires x in AddSet(env, Local(row), Names(upstream), Names(row.ignored)) && ',' in x
    ensures var after := Rounds(env, row, upstream, times);
      && x in AddSet(env, Local(after), Names(upstream), Names(after.ignored))
      && !Settled(env, after, upstream, t3, t4)
  {
    if times != [] {
      var front, last := times[..|times| - 1], times[|times| - 1];
      CommaNeverSettles(env, row, upstream, x, front, t3, t4);
      CommaComesBack(env, Rounds(env, row, upstream, front), upstream, last.detected, last.applied, x);
    }
    AgainMeans(env, Rounds(env, row, upstream, times), upstream, t3);
  }

  /** So a channel without models and without ignored names whose upstream offers such a name never settles. */
  lemma CommaExample(env: Env, row: Row, x: string, times: seq<Times>, t3: int, t4: int)
    requires env.mapping == map[] && ',' in x && x != "" && Trimmed(x)
    ensures !Settled(env, Rounds(env, row.(models := "", ignored := []), [x], times), [x], t3, t4)
  {
    NoNames();
    OneName(x);
    assert x in AddSet(env, {}, {x}, {});
    CommaNeverSettles(env, row.(models := "", ignored := []), [x], x, times, t3, t4);
  }

  /** Upstream names that are not local yet. */
  function Missing(row: Row, upstream: seq<string>): set<string> { Names(upstream) - Local(row) }

  /** After a round without commas, what is left to settle is what a detection would add. */
  lemma SettledAfterRound(env: Env, row: Row, upstream: seq<string>, t1: int, t2: int, t3: int, t4: int)
    requires forall u :: u in Names(upstream) ==> ',' !in u
    ensures var after := Round(env, row, upstream, t1, t2);
      Settled(env, after, upstream, t3, t4) <==>
      AddSet(env, Local(after), Names(upstream), Names(after.ignored)) == {}
  {
    OneRoundSettles(env, row, upstream, t1, t2, t3, t4);
    SecondDetection(env, row, upstream, t1, t2);
  }

  /** A round without commas makes everything it adds local, and loses no upstream name. */
  lemma RoundFills(env: Env, row: Row, upstream: seq<string>, t1: int, t2: int)
    requires forall u :: u in Names(upstream) ==> ',' !in u
    ensures Missing(Round(env, row, upstream, t1, t2), upstream)
            == Missing(row, upstream) - AddSet(env, Local(row), Names(upstream), Names(row.ignored))
  {
    RoundMeans(env, row, upstream, t1, t2);
  }

  lemma Shrinks(a: set<string>, b: set<string>)
    requires b <= a && b != {}
    ensures |a - b| < |a|
  {
    assert a == (a - b) + b && |a| == |a - b| + |b|;
  }

  lemma NothingAdded(env: Env, row: Row, upstream: seq<string>, t1: int, t2: int)
    requires AddSet(env, Local(row), Names(upstream), Names(row.ignored)) == {}
    ensures var after := Round(env, row, upstream, t1, t2);
      AddSet(env, Local(after), Names(upstream), Names(after.ignored)) == {}
  {
    var after := Round(env, row, upstream, t1, t2);
    RoundMeans(env, row, upstream, t1, t2);
    assert Names(after.ignored) == Names(row.ignored);
    forall u | u in Names(upstream) && u !in Local(after) ensures u !in Local(row) { }
  }

  /** Without commas, while rounds do not settle each makes a missing name local; so one round more than there are
      missing names always settles. */
  lemma {:induction false} EnoughRoundsSettle(env: Env, row: Row, upstream: seq<string>, times: seq<Times>, t3: int,
                                              t4: int)
    requires forall u :: u in Names(upstream) ==> ',' !in u
    requires times != []
    ensures var after := Rounds(env, row, upstream, times);
      Settled(env, after, upstream, t3, t4) || |Missing(after, upstream)| + |times| <= |Missing(row, upstream)|
    ensures |times| > |Missing(row, upstream)| ==> Settled(env, Rounds(env, row, upstream, times), upstream, t3, t4)
  {
    var front, last := times[..|times| - 1], times[|times| - 1];
    var before := Rounds(env, row, upstream, front);
    RoundFills(env, before, upstream, last.detected, last.applied);
    SettledAfterRound(env, before, upstream, last.detected, last.applied, t3, t4);
    var add := AddSet(env, Local(before), Names(upstream), Names(before.ignored));
    if add == {} {
      NothingAdded(env, before, upstream, last.detected, last.applied);
    } else {
      Shrinks(Missing(before, upstream), add);
      if front != [] {
        EnoughRoundsSettle(env, row, upstream, front, t3, t4);
        AgainMeans(env, before, upstream, t3);
      }
    }
  }

  /** Adding an upstream model that is named like an ignore pattern (say "regex:^x$") drops that pattern; a model `u`
      that nothing else hides comes up next, and the round has not settled. */
  lemma PatternNameUnhides(env: Env, row: Row, upstream: seq<string>, p: string, u: string, t1: int, t2: int, t3: int,
                           t4: int)
    requires p in AddSet(env, Local(row), Names(upstream), Names(row.ignored)) && p in Names(row.ignored)
    requires u in Names(upstream) && u !in Local(row) && u !in env.mapping.Values && Suppresses(env, p, u)
    requires forall e :: e in Names(row.ignored) && Suppresses(env, e, u) ==> e == p
    ensures !Settled(env, Round(env, row, upstream, t1, t2), upstream, t3, t4)
  {
    var ignored := Names(row.ignored);
    var add := AddSet(env, Local(row), Names(upstream), ignored);
    assert Ignored(env, ignored, u) && !Ignored(env, ignored - add, u);
    assert !RoundSettles(env, Local(row), Names(upstream), ignored);
    OneRoundSettles(env, row, upstream, t1, t2, t3, t4);
  }

  lemma PatternIsAdded(env: Env, p: string, u: string)
    requires env.mapping == map[] && !Suppresses(env, p, p)
    ensures p in AddSet(env, {}, {p, u}, {p})
  {
    assert !Ignored(env, {p}, p);
  }

  /** Such a channel: no models, the pattern `p` as its only ignored name, and an upstream that offers `p` and `u`. */
  lemma PatternExample(env: Env, row: Row, upstream: seq<string>, p: string, u: string, t1: int, t2: int, t3: int,
                       t4: int)
    requires env.mapping == map[] && IsPattern(p) && Suppresses(env, p, u) && !Suppresses(env, p, p)
    requires Local(row) == {} && Names(row.ignored) == {p} && Names(upstream) == {p, u}
    ensures !Settled(env, Round(env, row, upstream, t1, t2), upstream, t3, t4)
  {
    PatternIsAdded(env, p, u);
    PatternNameUnhides(env, row, upstream, p, u, t1, t2, t3, t4);
  }

  // ---- what a detection proposes, spelled out

  /** An unforced check too soon after the last one changes nothing, and one whose fetch fails only its time. */
  lemma ChecksWithoutAnswer(env: Env, row: Row, d: Detection)
    ensures !d.force && row.lastCheck > 0 && d.now - row.lastCheck < d.minInterval ==> Detect(env, row, d) == row
    ensures d.fetched == None ==> Detect(env, row, d).(lastCheck := row.lastCheck) == row
  {
  }

  /** A detection proposes to remove exactly the local names that are no alias and that the upstream does not offer,
      and to add exactly the upstream names that are not local, not the target of an alias, and that no ignore entry
      names or, as a pattern, matches.  When it may apply the additions itself, none is left pending. */
  lemma DetectedExactly(env: Env, row: Row, d: Detection, up: seq<string>, m: string)
    requires d.force || row.lastCheck <= 0 || d.now - row.lastCheck >= d.minInterval
    requires d.fetched == Some(up)
    ensures var after := Detect(env, row, d);
      m in Names(after.removed) <==> m in Local(row) && m !in env.mapping && m !in Names(up)
    ensures var after := Detect(env, row, d);
      m in Names(after.detected) <==>
        && !(d.allowAutoApply && row.autoSync)
        && m in Names(up) && m !in Local(row) && (forall k :: k in env.mapping ==> env.mapping[k] != m)
        && (forall e :: e in Names(row.ignored) ==>
              if "regex:" <= e then !env.matches(TrimSpace(e[6..]), m) else e != m)
  {
    DetectMeans(env, row, d);
    var add := AddSet(env, Local(row), Names(up), Names(row.ignored));
    assert m in env.mapping.Values <==> exists k :: k in env.mapping && env.mapping[k] == m;
    assert Ignored(env, Names(row.ignored), m) <==>
           exists e :: e in Names(row.ignored) && Suppresses(env, e, m);
    assert m in add ==> add != {};
  }

  lemma KeptIsOffered(env: Env, local: set<string>, up: set<string>, ignored: set<string>)
    ensures AddSet(env, local, up, ignored) <= up - local
    ensures AddSet(env, local, up, ignored) + (local - RemoveSet(env, local, up)) - env.mapping.Keys <= up
  {
  }

  lemma NewIsCommaFree(add: set<string>, news: set<string>)
    requires add <= news && forall x :: x in news ==> ',' !in x
    ensures forall x :: x in add ==> ',' !in x
  {
  }

  /** When no new name has a comma, a round leaves no local name that is neither an alias nor offered upstream. */
  lemma RoundLeavesOffered(env: Env, row: Row, upstream: seq<string>, t1: int, t2: int)
    requires forall u :: u in Names(upstream) - Local(row) ==> ',' !in u
    ensures Local(Round(env, row, upstream, t1, t2)) - env.mapping.Keys <= Names(upstream)
  {
    KeptIsOffered(env, Local(row), Names(upstream), Names(row.ignored));
    NewIsCommaFree(AddSet(env, Local(row), Names(upstream), Names(row.ignored)), Names(upstream) - Local(row));
    RoundMeans(env, row, upstream, t1, t2);
  }

  // ---- runs of detections and partial applies

  datatype Op = Detected(d: Detection) | Selected(sel: Selection)

  function Do(env: Env, row: Row, op: Op): Row {
    match op
    case Detected(d) => Detect(env, row, d)
    case Selected(sel) => ApplyUpdates(row, sel).row
  }

  function Run(env: Env, row: Row, ops: seq<Op>): Row {
    if ops == [] then row else Do(env, Run(env, row, ops[..|ops| - 1]), ops[|ops| - 1])
  }

  /** Every name an operation brings in is free of commas. */
  predicate CommaFree(op: Op) {
    op.Detected? && op.d.fetched.Some? ==> forall u :: u in Names(op.d.fetched.value) ==> ',' !in u
  }

  ghost predicate Apart(env: Env, row: Row) {
    && Names(row.detected) !! Local(row)
    && (forall x :: x in Names(row.detected) && x in Names(row.ignored) ==> IsPattern(x))
    && Names(row.removed) <= Local(row)
    && Names(row.removed) !! env.mapping.Keys
  }

  ghost predicate Inv(env: Env, row: Row) {
    Apart(env, row) && forall x :: x in Names(row.detected) ==> ',' !in x
  }

  /** A detection keeps the invariant whatever the upstream sends. */
  lemma DetectKeepsApart(env: Env, row: Row, d: Detection)
    requires Apart(env, row)
    ensures Apart(env, Detect(env, row, d))
  {
    if Due(row, d) && d.fetched.Some? {
      DetectMeans(env, row, d);
      LocalHasNoComma(row);
      forall x | x in Names(row.ignored) && !IsPattern(x)
        ensures x !in AddSet(env, Local(row), Names(d.fetched.value), Names(row.ignored))
      {
        assert Suppresses(env, x, x);
      }
    }
  }

  lemma DoKeepsInv(env: Env, row: Row, op: Op)
    requires Inv(env, row) && CommaFree(op)
    ensures Inv(env, Do(env, row, op))
  {
    match op
    case Detected(d) =>
      DetectKeepsApart(env, row, d);
      if Due(row, d) && d.fetched.Some? { DetectMeans(env, row, d); }
    case Selected(sel) =>
      ApplyPending(row, sel);
      ApplyIgnored(row, sel);
      ApplyLocal(row, sel);
  }

  /** The local names after an apply are the kept ones and the pieces of the added ones. */
  lemma ApplyLocalExactly(row: Row, sel: Selection)
    ensures var (add, ignore, remove) := Chosen(row, sel);
            Local(ApplyUpdates(row, sel).row) == PieceNames(add) + (Local(row) - remove)
  {
    var (add, ignore, remove) := Chosen(row, sel);
    var origin, next := Normalize(GetModels(row.models)), NextModels(row, sel);
    NextModelsMeans(row, sel);
    LocalHasNoComma(row);
    NamesAreTrimmed(GetModels(row.models));
    PlainPieces(Local(row) - remove);
    PiecesJoin(add, Local(row) - remove);
    StoredNames(next);
    PiecesOfList(next, add + (Local(row) - remove));
    assert ApplyUpdates(row, sel).row.models == if origin != next then Join(next, ',') else row.models;
    if origin == next {
      NormalizeMeans(GetModels(row.models));
      PlainPieces(Local(row));
    }
  }

  /** No added name holds, as one of its pieces, a name that is left pending. */
  ghost predicate Clean(row: Row, op: Op) {
    op.Selected? ==>
      var (add, ignore, remove) := Chosen(row, op.sel); PieceNames(add) !! Names(row.detected) - add - ignore
  }

  /** Whatever the upstreams send, one step keeps the invariant if and only if it is clean. */
  lemma DoKeepsApart(env: Env, row: Row, op: Op)
    requires Apart(env, row)
    ensures Apart(env, Do(env, row, op)) <==> Clean(row, op)
  {
    match op
    case Detected(d) => DetectKeepsApart(env, row, d);
    case Selected(sel) =>
      ApplyPending(row, sel);
      ApplyIgnored(row, sel);
      ApplyLocalExactly(row, sel);
  }

  ghost predicate AlwaysApart(env: Env, row: Row, ops: seq<Op>) {
    Apart(env, Run(env, row, ops)) && (ops == [] || AlwaysApart(env, row, ops[..|ops| - 1]))
  }

  ghost predicate AlwaysClean(env: Env, row: Row, ops: seq<Op>) {
    ops == []
    || (AlwaysClean(env, row, ops[..|ops| - 1]) && Clean(Run(env, row, ops[..|ops| - 1]), ops[|ops| - 1]))
  }

  /** Over every run: pending additions stay outside the local and the literally ignored names, and pending removals
      stay inside the local ones and never hit an alias, if and only if every apply is clean. */
  lemma {:induction false} RunKeepsApart(env: Env, row: Row, ops: seq<Op>)
    requires Apart(env, row)
    ensures AlwaysApart(env, row, ops) <==> AlwaysClean(env, row, ops)
  {
    if ops != [] {
      var front := ops[..|ops| - 1];
      RunKeepsApart(env, row, front);
      if AlwaysApart(env, row, front) { DoKeepsApart(env, Run(env, row, front), ops[|ops| - 1]); }
    }
  }

  lemma FirstPiece(a: string, b: string)
    requires a != "" && Trimmed(a) && ',' !in a
    ensures a in Names(Split(a + [','] + b, ','))
  {
    SplitAppend(a, ',', b);
    assert Split(a, ',') == [a];
    NamesHas(Split(a + [','] + b, ','), a);
  }

  /** Adding a model such as "a,b" while "a" stays pending makes "a" local and leaves it pending. */
  lemma CommaSpoilsPending(env: Env, row: Row, sel: Selection, a: string, b: string)
    requires a != "" && Trimmed(a) && ',' !in a && a in Names(row.detected) - Names(sel.add) - Names(sel.ignore)
    requires a + [','] + b in Names(row.detected) * Names(sel.add)
    ensures var after := ApplyUpdates(row, sel).row;
      a in Local(after) && a in Names(after.detected) && !Apart(env, after)
  {
    var (add, ignore, remove) := Chosen(row, sel);
    FirstPiece(a, b);
    assert a in PieceNames(add);
    ApplyPending(row, sel);
    ApplyLocalExactly(row, sel);
  }

  /**
   Over every run with comma-free upstreams: pending additions stay outside the local and the literally
   ignored names, pending removals stay inside the local ones and never hit an alias.
   */
  lemma {:induction false} RunKeepsInv(env: Env, row: Row, ops: seq<Op>)
    requires Inv(env, row) && forall i :: 0 <= i < |ops| ==> CommaFree(ops[i])
    ensures Inv(env, Run(env, row, ops))
  {
    if ops != [] {
      RunKeepsInv(env, row, ops[..|ops| - 1]);
      DoKeepsInv(env, Run(env, row, ops[..|ops| - 1]), ops[|ops| - 1]);
    }
  }

  /** Once ignored, a literal name stays ignored and is never pending again, whatever the upstreams send. */
  lemma {:induction false} IgnoredStays(env: Env, row: Row, ops: seq<Op>, name: string)
    requires name in Names(row.ignored) && name !in Names(row.detected) && !IsPattern(name)
    ensures var after := Run(env, row, ops); name in Names(after.ignored) && name !in Names(after.detected)
  {
    if ops != [] {
      var before, op := Run(env, row, ops[..|ops| - 1]), ops[|ops| - 1];
      IgnoredStays(env, row, ops[..|ops| - 1], name);
      match op
      case Detected(d) =>
        if Due(before, d) && d.fetched.Some? {
          DetectMeans(env, before, d);
          assert Suppresses(env, name, name);
        }
      case Selected(sel) =>
        ApplyPending(before, sel);
        ApplyIgnored(before, sel);
    }
  }

  /** A local alias is never proposed for removal and never disappears, whatever the upstreams send. */
  lemma {:induction false} AliasStays(env: Env, row: Row, ops: seq<Op>, name: string)
    requires name in Local(row) && name in env.mapping && name !in Names(row.removed)
    ensures var after := Run(env, row, ops); name in Local(after) && name !in Names(after.removed)
  {
    if ops != [] {
      var before, op := Run(env, row, ops[..|ops| - 1]), ops[|ops| - 1];
      AliasStays(env, row, ops[..|ops| - 1], name);
      LocalHasNoComma(before);
      match op
      case Detected(d) =>
        if Due(before, d) && d.fetched.Some? { DetectMeans(env, before, d); }
      case Selected(sel) =>
        ApplyPending(before, sel);
        ApplyLocal(before, sel);
    }
  }

  predicate ExactlyOne(a: bool, b: bool, c: bool) { (a || b || c) && !(a && b) && !(a && c) && !(b && c) }

  /**
   Where a pending addition ends: added (adding wins over ignoring), ignored, or still pending.  It is in
   exactly one of these places unless it was on the ignored list already, as only a pattern can be, and
   the selection does not name it: then it stays both ignored and pending.  An added name becomes local
   exactly when it holds no comma.
   */
  lemma PendingEndsOnce(row: Row, sel: Selection, p: string)
    requires p in Names(row.detected)
    ensures var a := ApplyUpdates(row, sel); var after := a.row;
      var unnamed := p !in Names(sel.add) && p !in Names(sel.ignore);
      && (p in a.added <==> p in Names(sel.add))
      && (p in Names(after.detected) <==> unnamed)
      && (p in Names(after.ignored) <==> p !in Names(sel.add) && (p in Names(sel.ignore) || p in Names(row.ignored)))
      && (ExactlyOne(p in a.added, p in Names(after.ignored), p in Names(after.detected)) <==>
          !(unnamed && p in Names(row.ignored)))
      && (p in a.added ==> (p in Local(after) <==> ',' !in p))
  {
    ApplyPending(row, sel);
    ApplyIgnored(row, sel);
    ApplyLocal(row, sel);
    LocalHasNoComma(ApplyUpdates(row, sel).row);
    assert forall x :: x in ApplyUpdates(row, sel).added <==> x in Elems(ApplyUpdates(row, sel).added);
  }

  /** With automatic synchronisation, the next detection proposes nothing exactly if no added name held a comma. */
  lemma AutoSyncSettles(env: Env, row: Row, upstream: seq<string>, t1: int, t2: int)
    requires row.autoSync
    ensures var first := Detect(env, row, Detection(t1, 0, true, true, Some(upstream)));
      Detect(env, first, Check(upstream, t2)).detected == [] <==>
      forall x :: x in AddSet(env, Local(row), Names(upstream), Names(row.ignored)) ==> ',' !in x
  {
    var d, up := Detection(t1, 0, true, true, Some(upstream)), Names(upstream);
    var first := Detect(env, row, d);
    DetectMeans(env, row, d);
    AgainMeans(env, first, upstream, t2);
    LocalHasNoComma(first);
    var add := AddSet(env, Local(row), up, Names(row.ignored));
    PieceFacts(upstream, add);
    if x :| x in add && ',' in x {
      assert x in AddSet(env, Local(first), up, Names(first.ignored));
    } else if add == {} {
      assert first.models == row.models;
    } else {
      assert AddSet(env, Local(first), up, Names(first.ignored)) == {};
    }
  }

  // ---- the stored row, updated in place

  /** A channel whose columns are updated in place; `saved` says whether the database took the write. */
  class ChannelRow {
    var row: Row

    constructor (row: Row)
      ensures this.row == row
    {
      this.row := row;
    }

    /** `checkAndPersistChannelUpstreamModelUpdates`. */
    method CheckAndPersist(env: Env, d: Detection, saved: bool) returns (modelsChanged: bool, autoAdded: nat)
      modifies this
      ensures row == if saved then Detect(env, old(row), d) else old(row)
      ensures modelsChanged ==> saved && autoAdded > 0
      ensures autoAdded > 0 ==> d.allowAutoApply && row.autoSync && d.fetched.Some?
    {
      modelsChanged, autoAdded := false, 0;
      if !Due(row, d) {
        return;
      }
      var updated := row.(lastCheck := d.now);
      if d.fetched.Some? {
        var (pendingAdd, pendingRemove) := CollectPending(env, GetModels(row.models), d.fetched.value, row.ignored);
        if d.allowAutoApply && row.autoSync && |pendingAdd| > 0 {
          var origin := Normalize(GetModels(row.models));
          var merged := MergeModelNames(origin, pendingAdd);
          if |merged| > |origin| {
            updated := updated.(models := Join(merged, ','));
            autoAdded := |merged| - |origin|;
            modelsChanged := saved;
          }
          updated := updated.(detected := []);
        } else {
          updated := updated.(detected := pendingAdd);
        }
        updated := updated.(removed := pendingRemove);
      }
      if saved {
        row := updated;
      }
    }

    /** `applyChannelUpstreamModelUpdates`. */
    method Apply(sel: Selection, saved: bool) returns (applied: Option<Applied>)
      modifies this
      ensures applied == if saved then Some(ApplyUpdates(old(row), sel)) else None
      ensures row == if saved then ApplyUpdates(old(row), sel).row else old(row)
    {
      var pendingAdd, pendingRemove := Normalize(row.detected), Normalize(row.removed);
      var add := Intersect(sel.add, pendingAdd);
      var ignore := Intersect(sel.ignore, pendingAdd);
      var remove := Subtract(Intersect(sel.remove, pendingRemove), add);
      var origin := Normalize(GetModels(row.models));
      var next := ApplySelected(origin, add, remove);
      var ignored := MergeModelNames(row.ignored, ignore);
      if |add| > 0 {
        ignored := Subtract(ignored, add);
      }
      var models := row.models;
      if origin != next {
        models := Join(next, ',');
      }
      var updated := row.(models := models, ignored := ignored, detected := Subtract(pendingAdd, add + ignore),
                          removed := Subtract(pendingRemove, remove), lastCheck := sel.now);
      applied := None;
      if saved {
        row := updated;
        applied := Some(Applied(updated, add, remove, origin != next));
      }
    }
  }
}
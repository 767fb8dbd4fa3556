/**
 Two-phase emergency control of user accounts: an administrator previews a selection, confirms it, and
 one transaction re-selects, updates every selected account and consumes the preview.

 Apply transactions run concurrently.  Each is two steps: it reads (preview, selection, control rows)
 from a snapshot, and it commits later, where the update of `consumed_at` is a compare-and-set on the
 current row.  Control rows may also be written by other parts of the system at any time.
 */
module BatchControl {
  import opened Wrappers
  import opened GoText
  import opened Sequences

  // ---- selecting users

  datatype Registration = Registration(userID: int, ip: string)

  /** The users with a registration in the address range: each once. */
  method CollectUserIDs(records: seq<Registration>, inRange: string -> bool) returns (userIDs: seq<int>)
    ensures Distinct(userIDs)
    ensures forall id :: id in userIDs <==> exists r :: r in records && inRange(r.ip) && r.userID == id
  {
    userIDs := [];
    var seen: set<int> := {};
    for i := 0 to |records|
      invariant Distinct(userIDs)
      invariant forall id :: id in userIDs <==> id in seen
      invariant forall id :: id in seen ==> exists k :: 0 <= k < i && inRange(records[k].ip) && records[k].userID == id
      invariant forall k :: 0 <= k < i && inRange(records[k].ip) ==> records[k].userID in seen
    {
      var record := records[i];
      if !inRange(record.ip) || record.userID in seen {
        continue;
      }
      seen := seen + {record.userID};
      userIDs := userIDs + [record.userID];
    }
  }

  /** `sameD2SBatchUserIDs`: equal lengths, and every right member is a left one. */
  method SameUserIDs(left: seq<int>, right: seq<int>) returns (same: bool)
    ensures same <==> Same(left, right)
    ensures Distinct(right) ==> (same <==> multiset(left) == multiset(right))
  {
    if |left| != |right| {
      assert |multiset(left)| == |left| && |multiset(right)| == |right|;
      return false;
    }
    var members: set<int> := {};
    for i := 0 to |left|
      invariant members == set x | x in left[..i]
    {
      assert left[..i + 1] == left[..i] + [left[i]];
      members := members + {left[i]};
    }
    assert left[..|left|] == left;
    for i := 0 to |right|
      invariant forall k :: 0 <= k < i ==> right[k] in members
    {
      if right[i] !in members {
        NotSame(left, right, i);
        return false;
      }
    }
    same := true;
    if Distinct(right) { SameIsPermutation(left, right); }
  }

  ghost predicate Same(left: seq<int>, right: seq<int>) {
    |left| == |right| && forall x :: x in right ==> x in left
  }

  lemma NotSame(left: seq<int>, right: seq<int>, i: nat)
    requires i < |right| && right[i] !in left
    ensures !Same(left, right) && multiset(left) != multiset(right)
  {
    var x := right[i];
    assert x in right && x in multiset(right) && x !in multiset(left);
  }

  lemma OthersRemain(s: seq<int>, k: nat)
    requires k < |s|
    ensures forall y :: y in s && y != s[k] ==> y in RemoveAt(s, k)
  {
    forall y | y in s && y != s[k] ensures y in RemoveAt(s, k) {
      var j :| 0 <= j < |s| && s[j] == y;
      assert if j < k then RemoveAt(s, k)[j] == y else RemoveAt(s, k)[j - 1] == y;
    }
  }

  /** Pigeonhole: a repetition-free list that fits into one of the same length is a permutation of it. */
  lemma {:induction false} SameIsPermutation(left: seq<int>, right: seq<int>)
    requires Same(left, right) && Distinct(right)
    ensures multiset(left) == multiset(right)
    decreases |right|
  {
    if right != [] {
      assert right[0] in right;
      var k :| 0 <= k < |left| && left[k] == right[0];
      RemoveAtCounts(left, k);
      OthersRemain(left, k);
      RemoveAtCounts(right, 0);
      var rest := RemoveAt(right, 0);
      assert rest == right[1..];
      forall y | y in rest ensures y in RemoveAt(left, k) {
        assert y in right && y != right[0];
      }
      SameIsPermutation(RemoveAt(left, k), rest);
    }
  }

  lemma {:induction false} FreshNumber(s: seq<int>) returns (z: int)
    ensures forall x :: x in s ==> x < z
  {
    if s == [] {
      z := 0;
    } else {
      var last := s[|s| - 1];
      z := FreshNumber(s[..|s| - 1]);
      if z <= last { z := last + 1; }
      assert s == s[..|s| - 1] + [last];
    }
  }

  /** One of two equal entries can be replaced without the comparison noticing. */
  lemma ReplaceRepeat(right: seq<int>, i: nat, j: nat, z: int)
    requires i < j < |right| && right[i] == right[j] && z !in right
    ensures Same(right[j := z], right) && multiset(right[j := z]) != multiset(right)
  {
    var left := right[j := z];
    forall x | x in right ensures x in left {
      var k :| 0 <= k < |right| && right[k] == x;
      assert left[if k == j then i else k] == x;
    }
    assert left[j] == z && z in multiset(left) && z !in multiset(right);
  }

  ghost predicate TestsPermutation(right: seq<int>) {
    forall left :: Same(left, right) ==> multiset(left) == multiset(right)
  }

  /** The comparison is a permutation test exactly for the previewed lists without repetition. */
  lemma ComparisonExactly(right: seq<int>)
    ensures TestsPermutation(right) <==> Distinct(right)
  {
    if Distinct(right) {
      forall left | Same(left, right) ensures multiset(left) == multiset(right) { SameIsPermutation(left, right); }
    } else {
      var i, j :| 0 <= i < j < |right| && right[i] == right[j];
      var z := FreshNumber(right);
      ReplaceRepeat(right, i, j, z);
    }
  }

  // ---- the protocol

  const MATCH_LIMIT := 10000
  const PREVIEW_SECONDS := 300

  datatype Actions = Actions(login: Option<bool>, purchase: Option<bool>, reason: string)

  datatype Operation = PreviewOperation | EmergencyLock | EmergencyUnlock | UnknownApply

  function OperationType(a: Actions): Operation {
    if a.login == Some(true) || a.purchase == Some(true) then EmergencyLock else EmergencyUnlock
  }

  datatype Preview = Preview(admin: int, actions: Actions, userIDs: seq<int>, matchCount: nat,
                             createdAt: int, expiresAt: int, consumedAt: int)

  datatype Control = Control(login: bool, purchase: bool, reason: string, updatedAt: int, updatedBy: int)

  datatype Audit = Audit(operator: int, operation: Operation, time: int, success: bool)

  datatype Request = Request(previewID: string, confirmed: bool, confirmationCount: int, admin: int, now: int)

  /** A transaction that has read and not yet committed. */
  datatype Tx = Tx(request: Request, preview: Preview, users: seq<int>, controls: map<int, Control>)

  datatype Commit = Commit(request: Request, users: seq<int>) {
    const previewID := request.previewID
    const admin := request.admin
    const now := request.now
  }

  /** `commits` is history: one entry for each transaction that committed. */
  datatype DB = DB(previews: map<string, Preview>, controls: map<int, Control>, audits: seq<Audit>,
                   open: map<nat, Tx>, commits: seq<Commit>)

  const EMPTY := DB(map[], map[], [], map[], [])

  datatype Step =
    | MakePreview(id: string, admin: int, actions: Actions, selected: Option<seq<int>>, at: int)
    | BeginApply(tx: nat, request: Request, current: Option<seq<int>>)
    | CommitApply(tx: nat)
    | AbortApply(tx: nat)
    | OtherWrite(user: int, control: Control)

  /** Fresh identifiers, distinct rows from a query on a primary key, and a clock past the epoch. */
  ghost predicate Enabled(db: DB, step: Step) {
    match step
    case MakePreview(id, _, _, selected, at) => id !in db.previews && at > 0
      && (selected.Some? ==> Distinct(selected.value))
    case BeginApply(tx, request, current) => tx !in db.open && request.now > 0
      && (current.Some? ==> Distinct(current.value))
    case CommitApply(tx) => tx in db.open
    case AbortApply(tx) => tx in db.open
    case OtherWrite(_, _) => true
  }

  predicate HasAction(a: Actions) { a.login.Some? || a.purchase.Some? }

  /** What the transaction checks before it writes anything. */
  ghost predicate Accepts(db: DB, r: Request, current: Option<seq<int>>) {
    && r.confirmed && r.confirmationCount >= 0
    && r.previewID in db.previews
    && var p := db.previews[r.previewID];
    && p.admin == r.admin && p.consumedAt == 0 && p.expiresAt > r.now
    && p.matchCount == r.confirmationCount
    && HasAction(p.actions)
    && current.Some? && |current.value| == p.matchCount && Same(current.value, p.userIDs)
  }

  /** The row written for one user: requested flags from the preview, the others from the snapshot. */
  function Updated(snapshot: map<int, Control>, user: int, a: Actions, now: int, admin: int): Control {
    var read := if user in snapshot then snapshot[user] else Control(false, false, "", 0, 0);
    Control(if a.login.Some? then a.login.value else read.login,
            if a.purchase.Some? then a.purchase.value else read.purchase,
            TrimSpace(a.reason), now, admin)
  }

  /** The control table after the transaction's upserts. */
  function Upserts(current: map<int, Control>, snapshot: map<int, Control>, users: seq<int>, a: Actions, now: int,
                   admin: int)
    : (after: map<int, Control>)
    ensures forall u :: u in after <==> u in current || u in users
    ensures forall u :: u in after ==>
              after[u] == if u in users then Updated(snapshot, u, a, now, admin) else current[u]
  {
    map u | u in current.Keys + (set x | x in users) ::
      if u in users then Updated(snapshot, u, a, now, admin) else current[u]
  }

  lemma UpsertNext(current: map<int, Control>, snapshot: map<int, Control>, users: seq<int>, i: nat, a: Actions,
                   now: int, admin: int)
    requires i < |users|
    ensures Upserts(current, snapshot, users[..i + 1], a, now, admin)
         == Upserts(current, snapshot, users[..i], a, now, admin)
              [users[i] := Updated(snapshot, users[i], a, now, admin)]
  {
    assert users[..i + 1] == users[..i] + [users[i]];
  }

  /** The upsert loop of the transaction. */
  method UpsertLoop(current: map<int, Control>, snapshot: map<int, Control>, users: seq<int>, a: Actions, now: int,
                    admin: int)
    returns (after: map<int, Control>)
    ensures after == Upserts(current, snapshot, users, a, now, admin)
  {
    after := current;
    for i := 0 to |users|
      invariant after == Upserts(current, snapshot, users[..i], a, now, admin)
    {
      UpsertNext(current, snapshot, users, i, a, now, admin);
      var control := if users[i] in snapshot then snapshot[users[i]] else Control(false, false, "", 0, 0);
      if a.login.Some? { control := control.(login := a.login.value); }
      if a.purchase.Some? { control := control.(purchase := a.purchase.value); }
      control := control.(reason := TrimSpace(a.reason), updatedAt := now, updatedBy := admin);
      assert control == Updated(snapshot, users[i], a, now, admin);
      after := after[users[i] := control];
    }
    assert users[..|users|] == users;
  }

  function Log(db: DB, operator: int, op: Operation, time: int, success: bool): DB {
    db.(audits := db.audits + [Audit(operator, op, time, success)])
  }

  /** What a refused apply is logged as: the preview's own operation, unless its actions were not looked at. */
  function RefusedOperation(db: DB, r: Request): Operation {
    if !r.confirmed || r.confirmationCount < 0 || r.previewID !in db.previews then UnknownApply
    else
      var p := db.previews[r.previewID];
      var live := p.consumedAt == 0 && p.expiresAt > r.now;
      if p.admin != r.admin || (live && p.matchCount != r.confirmationCount) then UnknownApply
      else OperationType(p.actions)
  }

  ghost function Do(db: DB, step: Step): DB
    requires Enabled(db, step)
  {
    match step
    case MakePreview(id, admin, actions, selected, at) =>
      if !HasAction(actions) || selected.None? || |selected.value| > MATCH_LIMIT then
        Log(db, admin, PreviewOperation, at, false)
      else
        var p := Preview(admin, actions, selected.value, |selected.value|, at, at + PREVIEW_SECONDS, 0);
        Log(db.(previews := db.previews[id := p]), admin, PreviewOperation, at, true)
    case BeginApply(tx, r, current) =>
      if !Accepts(db, r, current) then
        Log(db, r.admin, RefusedOperation(db, r), r.now, false)
      else
        db.(open := db.open[tx := Tx(r, db.previews[r.previewID], current.value, db.controls)])
    case CommitApply(tx) =>
      var t := db.open[tx];
      var closed := db.(open := db.open - {tx});
      var r, actions := t.request, t.preview.actions;
      if r.previewID !in db.previews || db.previews[r.previewID].consumedAt != 0 then
        Log(closed, r.admin, OperationType(actions), r.now, false)
      else
        Log(closed.(previews := db.previews[r.previewID := db.previews[r.previewID].(consumedAt := r.now)],
                    controls := Upserts(db.controls, t.controls, t.users, actions, r.now, r.admin),
                    commits := db.commits + [Commit(r, t.users)]),
            r.admin, OperationType(actions), r.now, true)
    case AbortApply(tx) =>
      var t := db.open[tx];
      Log(db.(open := db.open - {tx}), t.request.admin, OperationType(t.preview.actions), t.request.now, false)
    case OtherWrite(user, control) =>
      db.(controls := db.controls[user := control])
  }

  ghost predicate IsRun(steps: seq<Step>, states: seq<DB>) {
    && |states| == |steps| + 1
    && states[0] == EMPTY
    && forall i :: 0 <= i < |steps| ==> Enabled(states[i], steps[i]) && states[i + 1] == Do(states[i], steps[i])
  }

  // ---- what every run keeps

  ghost predicate PreviewOK(p: Preview) {
    && Distinct(p.userIDs) && p.matchCount == |p.userIDs| <= MATCH_LIMIT
    && p.expiresAt == p.createdAt + PREVIEW_SECONDS && HasAction(p.actions)
  }

  /** The request behind a transaction was made for this preview, by its administrator, before it expired, confirmed
      with the number of its users, and the transaction holds exactly the previewed users. */
  ghost predicate MadeFor(p: Preview, r: Request, users: seq<int>) {
    && p.admin == r.admin && 0 < r.now < p.expiresAt
    && r.confirmed && r.confirmationCount == |p.userIDs|
    && multiset(users) == multiset(p.userIDs)
  }

  ghost predicate TxOK(previews: map<string, Preview>, t: Tx) {
    && t.request.previewID in previews
    && t.preview == previews[t.request.previewID].(consumedAt := 0)
    && MadeFor(t.preview, t.request, t.users)
  }

  ghost predicate CommitOK(previews: map<string, Preview>, c: Commit) {
    && c.previewID in previews
    && previews[c.previewID].consumedAt == c.now
    && MadeFor(previews[c.previewID], c.request, c.users)
  }

  /** The SUCCESS entries that an apply leaves in the audit log. */
  function SuccessfulApplies(audits: seq<Audit>): seq<Audit> {
    if audits == [] then []
    else
      var rest, last := SuccessfulApplies(audits[..|audits| - 1]), audits[|audits| - 1];
      if last.success && last.operation != PreviewOperation then rest + [last] else rest
  }

  ghost predicate AuditOf(previews: map<string, Preview>, c: Commit, a: Audit) {
    c.previewID in previews && a == Audit(c.admin, OperationType(previews[c.previewID].actions), c.now, true)
  }

  ghost predicate Audited(previews: map<string, Preview>, commits: seq<Commit>, applies: seq<Audit>) {
    |applies| == |commits| && forall i :: 0 <= i < |commits| ==> AuditOf(previews, commits[i], applies[i])
  }

  ghost predicate PreviewsOK(previews: map<string, Preview>) {
    forall id :: id in previews ==> PreviewOK(previews[id])
  }

  ghost predicate OpenOK(previews: map<string, Preview>, open: map<nat, Tx>) {
    forall tx :: tx in open ==> TxOK(previews, open[tx])
  }

  /** Each commit is in order, no preview was committed twice, and the consumed previews are those committed. */
  ghost predicate CommitsOK(previews: map<string, Preview>, commits: seq<Commit>) {
    && (forall i :: 0 <= i < |commits| ==> CommitOK(previews, commits[i]))
    && (forall i, j :: 0 <= i < j < |commits| ==> commits[i].previewID != commits[j].previewID)
    && (forall id :: id in previews && previews[id].consumedAt != 0 ==> Committed(commits, id))
  }

  ghost predicate Committed(commits: seq<Commit>, id: string) {
    exists i :: 0 <= i < |commits| && commits[i].previewID == id
  }

  ghost predicate Inv(db: DB) {
    && PreviewsOK(db.previews)
    && OpenOK(db.previews, db.open)
    && CommitsOK(db.previews, db.commits)
    && Audited(db.previews, db.commits, SuccessfulApplies(db.audits))
  }

  lemma LogKeeps(audits: seq<Audit>, a: Audit)
    ensures SuccessfulApplies(audits + [a])
         == SuccessfulApplies(audits) + if a.success && a.operation != PreviewOperation then [a] else []
  {
    assert (audits + [a])[..|audits|] == audits;
  }

  /** Adding a preview under a fresh identifier. */
  lemma NewPreviewKeeps(db: DB, id: string, p: Preview)
    requires Inv(db) && id !in db.previews && PreviewOK(p) && p.consumedAt == 0
    ensures Inv(db.(previews := db.previews[id := p]))
  {
    var previews := db.previews[id := p];
    forall tx | tx in db.open ensures TxOK(previews, db.open[tx]) { assert TxOK(db.previews, db.open[tx]); }
    var applies := SuccessfulApplies(db.audits);
    forall i | 0 <= i < |db.commits|
      ensures CommitOK(previews, db.commits[i]) && AuditOf(previews, db.commits[i], applies[i])
    {
      assert CommitOK(db.previews, db.commits[i]) && AuditOf(db.previews, db.commits[i], applies[i]);
    }
  }

  lemma PreviewKeepsInv(db: DB, step: Step)
    requires Inv(db) && step.MakePreview? && Enabled(db, step)
    ensures Inv(Do(db, step))
  {
    LogKeeps(db.audits, Audit(step.admin, PreviewOperation, step.at, false));
    LogKeeps(db.audits, Audit(step.admin, PreviewOperation, step.at, true));
    if HasAction(step.actions) && step.selected.Some? && |step.selected.value| <= MATCH_LIMIT {
      var users := step.selected.value;
      NewPreviewKeeps(db, step.id, Preview(step.admin, step.actions, users, |users|, step.at,
        step.at + PREVIEW_SECONDS, 0));
    }
  }

  lemma BeginKeepsInv(db: DB, step: Step)
    requires Inv(db) && step.BeginApply? && Enabled(db, step)
    ensures Inv(Do(db, step))
  {
    var r, current := step.request, step.current;
    if Accepts(db, r, current) {
      var p := db.previews[r.previewID];
      assert PreviewOK(p);
      SameIsPermutation(current.value, p.userIDs);
      assert p == p.(consumedAt := 0);
      assert TxOK(db.previews, Tx(r, p, current.value, db.controls));
    } else {
      LogKeeps(db.audits, Audit(r.admin, RefusedOperation(db, r), r.now, false));
    }
  }

  function Consume(previews: map<string, Preview>, id: string, now: int): map<string, Preview>
    requires id in previews
  {
    previews[id := previews[id].(consumedAt := now)]
  }

  /** Consuming a preview leaves what was recorded about the others, and records its own commit. */
  lemma ConsumeKeepsCommits(previews: map<string, Preview>, commits: seq<Commit>, c: Commit)
    requires CommitsOK(previews, commits)
    requires c.previewID in previews && previews[c.previewID].consumedAt == 0
    requires MadeFor(previews[c.previewID], c.request, c.users)
    ensures CommitsOK(Consume(previews, c.previewID, c.now), commits + [c])
  {
    var after, all := Consume(previews, c.previewID, c.now), commits + [c];
    forall i | 0 <= i < |commits| ensures CommitOK(after, commits[i]) && commits[i].previewID != c.previewID {
      assert CommitOK(previews, commits[i]);
    }
    assert CommitOK(after, c);
    forall id | id in after && after[id].consumedAt != 0 ensures Committed(all, id) {
      if id == c.previewID {
        assert all[|commits|].previewID == id;
      } else {
        var i :| 0 <= i < |commits| && commits[i].previewID == id;
        assert all[i].previewID == id;
      }
    }
  }

  lemma ConsumeKeepsAudited(previews: map<string, Preview>, commits: seq<Commit>, applies: seq<Audit>, c: Commit,
                            a: Audit)
    requires Audited(previews, commits, applies) && AuditOf(previews, c, a)
    ensures Audited(Consume(previews, c.previewID, c.now), commits + [c], applies + [a])
  {
    var after := Consume(previews, c.previewID, c.now);
    forall i | 0 <= i < |commits| ensures AuditOf(after, commits[i], applies[i]) {
      assert AuditOf(previews, commits[i], applies[i]);
    }
    assert AuditOf(after, c, a);
  }

  lemma ConsumeKeepsOpen(previews: map<string, Preview>, open: map<nat, Tx>, id: string, now: int, tx: nat)
    requires PreviewsOK(previews) && OpenOK(previews, open) && id in previews
    ensures PreviewsOK(Consume(previews, id, now)) && OpenOK(Consume(previews, id, now), open - {tx})
  {
    var after := Consume(previews, id, now);
    forall other | other in after ensures PreviewOK(after[other]) { assert PreviewOK(previews[other]); }
    forall x | x in open - {tx} ensures TxOK(after, open[x]) { assert TxOK(previews, open[x]); }
  }

  lemma CommitKeepsInv(db: DB, step: Step)
    requires Inv(db) && step.CommitApply? && Enabled(db, step)
    ensures Inv(Do(db, step))
  {
    var t := db.open[step.tx];
    var r, op := t.request, OperationType(t.preview.actions);
    assert TxOK(db.previews, t);
    var ok := db.previews[r.previewID].consumedAt == 0;
    LogKeeps(db.audits, Audit(r.admin, op, r.now, ok));
    if ok {
      var c := Commit(r, t.users);
      ConsumeKeepsOpen(db.previews, db.open, r.previewID, r.now, step.tx);
      ConsumeKeepsCommits(db.previews, db.commits, c);
      ConsumeKeepsAudited(db.previews, db.commits, SuccessfulApplies(db.audits), c, Audit(r.admin, op, r.now, true));
    }
  }

  lemma StepKeepsInv(db: DB, step: Step)
    requires Inv(db) && Enabled(db, step)
    ensures Inv(Do(db, step))
  {
    match step
    case MakePreview(_, _, _, _, _) => PreviewKeepsInv(db, step);
    case BeginApply(_, _, _) => BeginKeepsInv(db, step);
    case CommitApply(_) => CommitKeepsInv(db, step);
    case AbortApply(tx) =>
      var t := db.open[tx];
      LogKeeps(db.audits, Audit(t.request.admin, OperationType(t.preview.actions), t.request.now, false));
    case OtherWrite(_, _) =>
  }

  lemma {:induction false} RunKeepsInv(steps: seq<Step>, states: seq<DB>, i: nat)
    requires IsRun(steps, states) && i < |states|
    ensures Inv(states[i])
  {
    if i > 0 {
      RunKeepsInv(steps, states, i - 1);
      StepKeepsInv(states[i - 1], steps[i - 1]);
    }
  }

  // ---- the guarantees

  lemma SameCount(a: seq<int>, b: seq<int>)
    requires multiset(a) == multiset(b)
    ensures |a| == |b| && forall x :: x in a <==> x in b
  {
    assert |multiset(a)| == |a| && |multiset(b)| == |b|;
    forall x ensures x in a <==> x in b {
      assert x in multiset(a) <==> x in a;
      assert x in multiset(b) <==> x in b;
    }
  }

  /**
   Over every interleaving: a preview is committed at most once; a commit was made by the administrator
   of its preview, before it expired, on a confirmation that states the number of previewed users, for
   exactly those users and never more than the limit; the consumed previews are exactly the committed ones.
   */
  lemma CommitsAreInOrder(steps: seq<Step>, states: seq<DB>, n: nat)
    requires IsRun(steps, states) && n < |states|
    ensures var db := states[n];
      && (forall i, j :: 0 <= i < j < |db.commits| ==> db.commits[i].previewID != db.commits[j].previewID)
      && (forall id :: id in db.previews ==> (db.previews[id].consumedAt != 0 <==> Committed(db.commits, id)))
      && (forall i :: 0 <= i < |db.commits| ==>
            var c := db.commits[i];
            && c.previewID in db.previews
            && c.admin == db.previews[c.previewID].admin && c.now < db.previews[c.previewID].expiresAt
            && c.request.confirmed && c.request.confirmationCount == |db.previews[c.previewID].userIDs|
            && (forall u :: u in c.users <==> u in db.previews[c.previewID].userIDs)
            && |c.users| == db.previews[c.previewID].matchCount <= MATCH_LIMIT)
  {
    RunKeepsInv(steps, states, n);
    var db := states[n];
    forall i | 0 <= i < |db.commits|
      ensures var c := db.commits[i];
        && c.previewID in db.previews && db.previews[c.previewID].consumedAt == c.now > 0
        && c.admin == db.previews[c.previewID].admin && c.now < db.previews[c.previewID].expiresAt
        && c.request.confirmed && c.request.confirmationCount == |db.previews[c.previewID].userIDs|
        && (forall u :: u in c.users <==> u in db.previews[c.previewID].userIDs)
        && |c.users| == db.previews[c.previewID].matchCount <= MATCH_LIMIT
    {
      assert CommitOK(db.previews, db.commits[i]) && PreviewOK(db.previews[db.commits[i].previewID]);
      SameCount(db.commits[i].users, db.previews[db.commits[i].previewID].userIDs);
    }
  }

  /** The SUCCESS entries of the audit log are, in order, one for each commit, and so one for each consumed preview;
      each names the administrator, the time, and a lock exactly when the preview switches some flag on. */
  lemma AuditsMatchCommits(steps: seq<Step>, states: seq<DB>, n: nat)
    requires IsRun(steps, states) && n < |states|
    ensures var db := states[n]; var applies := SuccessfulApplies(db.audits);
      |applies| == |db.commits| && forall i :: 0 <= i < |applies| ==>
        var c, a := db.commits[i], applies[i];
        && c.previewID in db.previews && a.success && a.operator == c.request.admin && a.time == c.request.now
        && var actions := db.previews[c.previewID].actions;
        && (a.operation == EmergencyLock <==> actions.login == Some(true) || actions.purchase == Some(true))
        && (a.operation == EmergencyUnlock <==> actions.login != Some(true) && actions.purchase != Some(true))
  {
    RunKeepsInv(steps, states, n);
    var db := states[n];
    var applies := SuccessfulApplies(db.audits);
    assert forall i :: 0 <= i < |applies| ==> AuditOf(db.previews, db.commits[i], applies[i]);
  }

  /** A preview is stored exactly for some requested flag and a selection within the limit; it lives 300 seconds. */
  lemma PreviewsExactly(steps: seq<Step>, states: seq<DB>, n: nat)
    requires IsRun(steps, states) && n < |steps| && steps[n].MakePreview?
    ensures var s, after := steps[n], states[n + 1].previews;
      && (s.id in after <==> (s.actions.login != None || s.actions.purchase != None)
                             && s.selected != None && |s.selected.value| <= 10000)
      && (s.id in after ==>
            after[s.id] == Preview(s.admin, s.actions, s.selected.value, |s.selected.value|, s.at, s.at + 300, 0))
      && after - {s.id} == states[n].previews
  {
    assert states[n + 1] == Do(states[n], steps[n]);
    assert steps[n].id !in states[n].previews;
  }

  /** An apply opens a transaction exactly when it is confirmed, by the administrator of a live preview, with the number
      of its users, and the selection still gives those users; the transaction then holds that request. */
  lemma BeginsExactly(steps: seq<Step>, states: seq<DB>, n: nat)
    requires IsRun(steps, states) && n < |steps| && steps[n].BeginApply?
    ensures var s, before, after := steps[n], states[n].previews, states[n + 1].open;
      && (s.tx in after <==>
            && s.request.confirmed && s.request.previewID in before
            && var p := before[s.request.previewID];
            && p.admin == s.request.admin && p.consumedAt == 0 && s.request.now < p.expiresAt
            && s.request.confirmationCount == |p.userIDs|
            && s.current != None && multiset(s.current.value) == multiset(p.userIDs))
      && (s.tx in after ==> after[s.tx].request == s.request && after[s.tx].users == s.current.value)
  {
    RunKeepsInv(steps, states, n);
    assert states[n + 1] == Do(states[n], steps[n]);
    var s, before := steps[n], states[n].previews;
    if s.request.previewID in before && s.current.Some? {
      var p := before[s.request.previewID];
      assert PreviewOK(p);
      SameExactly(s.current.value, p.userIDs);
    }
  }

  /** A refused apply only adds a FAILED entry.  The entry names the operation of the preview unless the request is not
      confirmed, the preview is missing or another administrator's, or it is live and the count is wrong. */
  lemma RefusalsAreLogged(steps: seq<Step>, states: seq<DB>, n: nat)
    requires IsRun(steps, states) && n < |steps| && steps[n].BeginApply? && steps[n].tx !in states[n + 1].open
    ensures var r, before, after := steps[n].request, states[n], states[n + 1];
      && after.audits != [] && after == before.(audits := after.audits)
      && var a := after.audits[|after.audits| - 1];
      && after.audits == before.audits + [a] && !a.success && a.operator == r.admin && a.time == r.now
      && (a.operation != UnknownApply <==>
            && r.confirmed && r.confirmationCount >= 0 && r.previewID in before.previews
            && var p := before.previews[r.previewID];
            && p.admin == r.admin && (p.matchCount == r.confirmationCount || p.consumedAt != 0 || p.expiresAt <= r.now))
      && (a.operation != UnknownApply ==> var actions := before.previews[r.previewID].actions;
            a.operation == if actions.login == Some(true) || actions.purchase == Some(true)
              then EmergencyLock else EmergencyUnlock)
  {
    assert states[n + 1] == Do(states[n], steps[n]);
  }

  lemma SameExactly(left: seq<int>, right: seq<int>)
    requires Distinct(right)
    ensures Same(left, right) <==> multiset(left) == multiset(right)
    ensures multiset(left) == multiset(right) ==> |left| == |right|
  {
    if Same(left, right) { SameIsPermutation(left, right); }
    if multiset(left) == multiset(right) { SameCount(left, right); }
  }

  /** An open transaction commits exactly when no transaction has committed its preview so far; the commit is of the
      request and the users it was opened with, and consumes the preview. */
  lemma CommitsExactly(steps: seq<Step>, states: seq<DB>, n: nat)
    requires IsRun(steps, states) && n < |steps| && steps[n].CommitApply?
    ensures var before, after := states[n], states[n + 1]; var t := before.open[steps[n].tx];
      && t.request.previewID in after.previews
      && after.commits == before.commits +
           (if Committed(before.commits, t.request.previewID) then [] else [Commit(t.request, t.users)])
      && Committed(after.commits, t.request.previewID)
      && after.previews[t.request.previewID].consumedAt != 0
  {
    RunKeepsInv(steps, states, n);
    var before := states[n];
    assert states[n + 1] == Do(before, steps[n]);
    var t := before.open[steps[n].tx];
    assert TxOK(before.previews, t);
    CommitsAreInOrder(steps, states, n);
    if !Committed(before.commits, t.request.previewID) {
      assert states[n + 1].commits[|before.commits|].previewID == t.request.previewID;
    }
  }

  /** Until it commits or is aborted, an open transaction stays as it is. */
  lemma {:induction false} StaysOpen(steps: seq<Step>, states: seq<DB>, b: nat, n: nat, tx: nat)
    requires IsRun(steps, states) && b <= n <= |steps| && tx in states[b].open
    requires forall k :: b <= k < n ==> steps[k] != CommitApply(tx) && steps[k] != AbortApply(tx)
    ensures tx in states[n].open && states[n].open[tx] == states[b].open[tx]
  {
    if b < n {
      StaysOpen(steps, states, b, n - 1, tx);
      assert states[n - 1 + 1] == Do(states[n - 1], steps[n - 1]);
    }
  }

  /** A good request, however its transaction is interleaved with others, is committed unless another transaction
      commits the same preview first. */
  lemma GoodApplySucceeds(steps: seq<Step>, states: seq<DB>, b: nat, n: nat)
    requires IsRun(steps, states) && b < n < |steps| && steps[b].BeginApply? && steps[n] == CommitApply(steps[b].tx)
    requires forall k :: b < k < n ==> steps[k] != CommitApply(steps[b].tx) && steps[k] != AbortApply(steps[b].tx)
    requires var r, current := steps[b].request, steps[b].current;
      && r.confirmed && r.previewID in states[b].previews
      && var p := states[b].previews[r.previewID];
      && p.admin == r.admin && p.consumedAt == 0 && r.now < p.expiresAt && r.confirmationCount == |p.userIDs|
      && current != None && multiset(current.value) == multiset(p.userIDs)
    requires !Committed(states[n].commits, steps[b].request.previewID)
    ensures states[n + 1].commits == states[n].commits + [Commit(steps[b].request, steps[b].current.value)]
  {
    BeginsExactly(steps, states, b);
    StaysOpen(steps, states, b + 1, n, steps[b].tx);
    CommitsExactly(steps, states, n);
  }

  /** Every transaction that is open, at any moment of any run, comes from such a confirmation. */
  lemma OpenIsConfirmed(steps: seq<Step>, states: seq<DB>, n: nat, tx: nat)
    requires IsRun(steps, states) && n < |states| && tx in states[n].open
    ensures var db := states[n]; var r := db.open[tx].request;
      && r.confirmed && r.previewID in db.previews
      && r.confirmationCount == |db.previews[r.previewID].userIDs|
      && r.admin == db.previews[r.previewID].admin && r.now < db.previews[r.previewID].expiresAt
  {
    RunKeepsInv(steps, states, n);
    assert TxOK(states[n].previews, states[n].open[tx]);
  }

  /** The step commits: its transaction is open and the compare-and-set finds the preview unconsumed. */
  ghost predicate Commits(db: DB, tx: nat) {
    tx in db.open && db.open[tx].request.previewID in db.previews
    && db.previews[db.open[tx].request.previewID].consumedAt == 0
  }

  /** A step that writes nothing but log entries, new previews and the set of open transactions. */
  ghost predicate Harmless(db: DB, step: Step) {
    !step.OtherWrite? && !(step.CommitApply? && Commits(db, step.tx))
  }

  /** Over any stretch of a run without a commit and without an outside write, whatever applies begin and fail, the
      control rows, the commits and every preview stay as they were. */
  lemma {:induction false} FailedAppliesChangeNothing(steps: seq<Step>, states: seq<DB>, b: nat, n: nat)
    requires IsRun(steps, states) && b <= n <= |steps|
    requires forall k :: b <= k < n ==> Harmless(states[k], steps[k])
    ensures states[n].controls == states[b].controls && states[n].commits == states[b].commits
    ensures forall id :: id in states[b].previews ==>
              id in states[n].previews && states[n].previews[id] == states[b].previews[id]
  {
    if b < n {
      FailedAppliesChangeNothing(steps, states, b, n - 1);
      assert Harmless(states[n - 1], steps[n - 1]) && states[n - 1 + 1] == Do(states[n - 1], steps[n - 1]);
    }
  }

  /** A commit touches exactly the previewed users, and gives each the requested flags, the reason and its stamps. */
  lemma CommitTouchesPreviewedUsers(steps: seq<Step>, states: seq<DB>, n: nat, tx: nat)
    requires IsRun(steps, states) && n < |states| && Commits(states[n], tx)
    ensures var db := states[n]; var t := db.open[tx]; var after := Do(db, CommitApply(tx)).controls;
      var p := db.previews[t.request.previewID];
      && (forall u :: u !in p.userIDs ==>
            (u in after <==> u in db.controls) && (u in after ==> after[u] == db.controls[u]))
      && (forall u :: u in p.userIDs ==>
            && u in after
            && (p.actions.login.Some? ==> after[u].login == p.actions.login.value)
            && (p.actions.purchase.Some? ==> after[u].purchase == p.actions.purchase.value)
            && after[u].reason == TrimSpace(p.actions.reason) && after[u].updatedAt == t.request.now
              && after[u].updatedBy == p.admin)
  {
    RunKeepsInv(steps, states, n);
    var db := states[n];
    var t := db.open[tx];
    assert TxOK(db.previews, t);
    SameCount(t.users, t.preview.userIDs);
  }

  function LoginOf(controls: map<int, Control>, u: int): bool { u in controls && controls[u].login }

  function PurchaseOf(controls: map<int, Control>, u: int): bool { u in controls && controls[u].purchase }

  /** Step `b` opened the transaction, and it has stayed open, as it was read, ever since. */
  ghost predicate OpenedAt(steps: seq<Step>, states: seq<DB>, b: nat, n: nat, tx: nat) {
    && b < n < |states| == |steps| + 1 && steps[b].BeginApply? && steps[b].tx == tx && tx in states[n].open
    && forall k :: b < k <= n ==> tx in states[k].open && states[k].open[tx] == states[n].open[tx]
  }

  /** An open transaction was opened by an earlier step, and holds the control rows of the state it read there. */
  lemma {:induction false} ReadsWhereItBegan(steps: seq<Step>, states: seq<DB>, n: nat, tx: nat) returns (b: nat)
    requires IsRun(steps, states) && n < |states| && tx in states[n].open
    ensures OpenedAt(steps, states, b, n, tx) && states[n].open[tx].controls == states[b].controls
  {
    var before, step := states[n - 1], steps[n - 1];
    assert states[n - 1 + 1] == Do(before, step);
    if step.BeginApply? && step.tx == tx {
      b := n - 1;
    } else {
      b := ReadsWhereItBegan(steps, states, n - 1, tx);
    }
  }

  /** A write to the control row of `u`: by another part of the system, or by a commit for that user. */
  ghost predicate Writes(db: DB, step: Step, u: int) {
    || (step.OtherWrite? && step.user == u)
    || (step.CommitApply? && Commits(db, step.tx) && u in db.open[step.tx].users)
  }

  ghost predicate Unwritten(steps: seq<Step>, states: seq<DB>, b: nat, n: nat, u: int)
    requires b <= n <= |steps| < |states|
  {
    forall k :: b <= k < n ==> !Writes(states[k], steps[k], u)
  }

  ghost predicate SameRow(a: map<int, Control>, b: map<int, Control>, u: int) {
    (u in a <==> u in b) && (u in a ==> a[u] == b[u])
  }

  /** Previews, applies that fail and applies for other users leave a control row alone. */
  lemma StepKeepsRow(db: DB, step: Step, u: int)
    requires Enabled(db, step) && !Writes(db, step, u)
    ensures SameRow(Do(db, step).controls, db.controls, u)
  {
  }

  lemma {:induction false} UnwrittenRowStays(steps: seq<Step>, states: seq<DB>, b: nat, n: nat, u: int)
    requires IsRun(steps, states) && b <= n <= |steps| && Unwritten(steps, states, b, n, u)
    ensures SameRow(states[n].controls, states[b].controls, u)
  {
    if b < n {
      UnwrittenRowStays(steps, states, b, n - 1, u);
      StepKeepsRow(states[n - 1], steps[n - 1], u);
      assert states[n - 1 + 1] == Do(states[n - 1], steps[n - 1]);
    }
  }

  /** The flags of `u` that the actions do not name are the same in both tables. */
  predicate KeepsUnnamed(a: Actions, before: map<int, Control>, after: map<int, Control>, u: int) {
    && (a.login.None? ==> LoginOf(after, u) == LoginOf(before, u))
    && (a.purchase.None? ==> PurchaseOf(after, u) == PurchaseOf(before, u))
  }

  /**
   A commit keeps the flags that its preview does not name exactly when they have, at the commit, the
   values they had in the state where the transaction began; so it keeps them when nobody wrote that
   user's row in between.
   */
  lemma UnrequestedFlagSurvives(steps: seq<Step>, states: seq<DB>, n: nat, tx: nat, u: int) returns (b: nat)
    requires IsRun(steps, states) && n < |states| && Commits(states[n], tx)
    requires u in states[n].previews[states[n].open[tx].request.previewID].userIDs
    ensures OpenedAt(steps, states, b, n, tx)
    ensures var db := states[n]; var a := db.previews[db.open[tx].request.previewID].actions;
      KeepsUnnamed(a, db.controls, Do(db, CommitApply(tx)).controls, u) <==>
      KeepsUnnamed(a, states[b].controls, db.controls, u)
    ensures Unwritten(steps, states, b, n, u) ==>
      KeepsUnnamed(states[n].previews[states[n].open[tx].request.previewID].actions, states[n].controls,
                   Do(states[n], CommitApply(tx)).controls, u)
  {
    b := ReadsWhereItBegan(steps, states, n, tx);
    RunKeepsInv(steps, states, n);
    var t := states[n].open[tx];
    assert TxOK(states[n].previews, t);
    SameCount(t.users, t.preview.userIDs);
    if Unwritten(steps, states, b, n, u) { UnwrittenRowStays(steps, states, b, n, u); }
  }

  /** One user, two previews: one blocks logins, the other purchases. */
  const BLOCK_LOGIN := Preview(1, Actions(Some(true), None, ""), [7], 1, 100, 400, 0)
  const BLOCK_PURCHASE := Preview(1, Actions(None, Some(true), ""), [7], 1, 100, 400, 0)

  const APPLY_LOGIN := Tx(Request("a", true, 1, 1, 110), BLOCK_LOGIN, [7], map[])
  const APPLY_PURCHASE := Tx(Request("b", true, 1, 1, 110), BLOCK_PURCHASE, [7], map[])

  lemma RunExtends(steps: seq<Step>, states: seq<DB>, step: Step)
    requires IsRun(steps, states) && Enabled(states[|steps|], step)
    ensures IsRun(steps + [step], states + [Do(states[|steps|], step)])
  {
  }

  /** Both applies have read, neither has committed. */
  lemma BothBegun() returns (steps: seq<Step>, states: seq<DB>)
    ensures IsRun(steps, states) && |steps| == 4
    ensures states[4].previews == map["a" := BLOCK_LOGIN, "b" := BLOCK_PURCHASE]
    ensures states[4].open == map[0 := APPLY_LOGIN, 1 := APPLY_PURCHASE]
    ensures states[4].commits == []
  {
    var ra, rb := APPLY_LOGIN.request, APPLY_PURCHASE.request;
    steps := [MakePreview("a", 1, BLOCK_LOGIN.actions, Some([7]), 100),
              MakePreview("b", 1, BLOCK_PURCHASE.actions, Some([7]), 100),
              BeginApply(0, ra, Some([7])), BeginApply(1, rb, Some([7]))];
    var s1 := Do(EMPTY, steps[0]);
    assert s1.previews == map["a" := BLOCK_LOGIN];
    assert "b" != "a";
    var s2 := Do(s1, steps[1]);
    assert s2.previews == map["a" := BLOCK_LOGIN, "b" := BLOCK_PURCHASE] && s2.controls == map[] && s2.commits == [];
    assert Accepts(s2, ra, Some([7]));
    var s3 := Do(s2, steps[2]);
    assert s3.open == map[0 := APPLY_LOGIN] && s3.previews == s2.previews;
    assert Accepts(s3, rb, Some([7]));
    states := [EMPTY, s1, s2, s3, Do(s3, steps[3])];
  }

  /** Both commit with success, yet the login block of the first is gone. */
  lemma LostUpdate() returns (steps: seq<Step>, states: seq<DB>)
    ensures IsRun(steps, states) && |steps| == 6 && steps[4] == CommitApply(0) && steps[5] == CommitApply(1)
    ensures |states[6].commits| == 2
    ensures LoginOf(states[5].controls, 7) && !LoginOf(states[6].controls, 7)
  {
    steps, states := BothBegun();
    var s4 := states[4];
    var s5 := Do(s4, CommitApply(0));
    RunExtends(steps, states, CommitApply(0));
    steps, states := steps + [CommitApply(0)], states + [s5];
    assert s5.open[1] == APPLY_PURCHASE && "a" != "b" && s5.previews["b"] == BLOCK_PURCHASE;
    RunExtends(steps, states, CommitApply(1));
    steps, states := steps + [CommitApply(1)], states + [Do(s5, CommitApply(1))];
  }
}

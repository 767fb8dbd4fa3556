/**
 The bounded worker pool behind the channel health checks.

 A feeder goroutine, `n` workers, a closer and the calling goroutine (the reducer) meet over two
 unbuffered Go channels, while the context may be cancelled at any moment.  The pool is modelled as a
 transition system: a rendezvous on an unbuffered channel is one step, and a `select` with several
 ready cases may take any of them.  The state carries the history (`starts`, `produced`, `delivered`)
 that the whole-run theorems speak about; no step reads it.
 */
module WorkerPool {
  import opened Sequences

  // ---- counters of one channel test, and of a whole cycle

  datatype Summary = Summary(tested: nat, succeeded: nat, failed: nat, disabled: nat, enabled: nat) {
    function Plus(other: Summary): Summary {
      Summary(tested + other.tested, succeeded + other.succeeded, failed + other.failed,
              disabled + other.disabled, enabled + other.enabled)
    }

    predicate Consistent() {
      tested == succeeded + failed && disabled <= failed && disabled + enabled <= tested
    }
  }

  const ZERO := Summary(0, 0, 0, 0, 0)

  /** What one probe of a channel reported, and the switches that decide what is done about it. */
  datatype Probe = Probe(
    cancelled: bool,         // the context was cancelled by the time the probe returned
    apiError: bool,          // the probe returned an API error
    errorBans: bool,         // `ShouldDisableChannel` says that error bans the channel
    localError: bool,        // the probe failed before reaching the upstream
    milliseconds: int,
    threshold: int,
    autoDisable: bool,       // `AutomaticDisableChannelEnabled`
    allowDisable: bool,
    channelEnabled: bool,
    channelAutoDisabled: bool,
    autoBan: bool,
    autoEnable: bool)        // `AutomaticEnableChannelEnabled`

  predicate Slow(p: Probe) { p.autoDisable && p.milliseconds > p.threshold }

  predicate Bans(p: Probe) { (p.apiError && p.errorBans) || Slow(p) }

  predicate Fails(p: Probe) { p.apiError || Slow(p) }

  function One(b: bool): nat { if b then 1 else 0 }

  /** What one health check counts. */
  function Counted(p: Probe): Summary {
    if p.cancelled then ZERO
    else
      Summary(1, One(!Fails(p)), One(Fails(p)),
              One(p.allowDisable && p.channelEnabled && p.autoBan && Bans(p)),
              One(!Fails(p) && !p.localError && !p.channelEnabled && p.channelAutoDisabled && p.autoEnable))
  }

  lemma CountedIsConsistent(p: Probe)
    ensures Counted(p).Consistent() && Counted(p).tested <= 1
  {
  }

  /** The counter updates of one health check, statement by statement. */
  method HealthCheck(p: Probe) returns (summary: Summary)
    ensures summary == Counted(p) && summary.Consistent()
    ensures summary.tested == if p.cancelled then 0 else 1
    ensures summary.failed == 1 <==>
              !p.cancelled && (p.apiError || (p.autoDisable && p.milliseconds > p.threshold))
    ensures summary.disabled == 1 <==>
              !p.cancelled && p.allowDisable && p.channelEnabled && p.autoBan
              && ((p.apiError && p.errorBans) || (p.autoDisable && p.milliseconds > p.threshold))
    ensures summary.enabled == 1 <==>
              !p.cancelled && !p.apiError && !(p.autoDisable && p.milliseconds > p.threshold)
              && !p.localError && !p.channelEnabled && p.channelAutoDisabled && p.autoEnable
  {
    summary := ZERO;
    if p.cancelled {
      return;
    }
    summary := summary.(tested := summary.tested + 1);
    var failed, ban := p.apiError, false;
    if p.apiError {
      ban := p.errorBans;
    }
    if p.autoDisable && !ban && p.milliseconds > p.threshold {
      failed, ban := true, true;
    }
    assert failed == Fails(p) && ban == Bans(p);
    if !failed {
      summary := summary.(succeeded := summary.succeeded + 1);
    } else {
      summary := summary.(failed := summary.failed + 1);
    }
    if p.allowDisable && p.channelEnabled && ban && p.autoBan {
      summary := summary.(disabled := summary.disabled + 1);
    }
    if !p.localError && !p.channelEnabled && p.autoEnable && !failed && p.channelAutoDisabled {
      summary := summary.(enabled := summary.enabled + 1);
    }
  }

  // ---- the pool

  /** Where a worker goroutine stands in its loop. */
  datatype Worker =
    | Selecting                            // in the select over the context and `jobs`
    | Received(job: nat)                   // took a channel, about to look at the context
    | Running(job: nat)                    // inside `run`
    | Sending(job: nat, result: Summary)   // blocked on `results <- result`
    | Pausing                              // in the select over the context and the request interval
    | Exited

  datatype Reducer = Receiving | Tallied | Returned

  /** `eligible[i]` says channel `i` is present and not manually disabled; `pause` that the request
      interval is positive. */
  datatype Config = Config(eligible: seq<bool>, workerCount: nat, pause: bool) {
    const total := |eligible|

    /** `min(NormalizeChannelTestConcurrency(c), total)` on a non-empty list. */
    predicate Valid() { 1 <= workerCount <= total }
  }

  datatype Pool = Pool(
    workers: seq<Worker>,
    next: nat,                      // channels the feeder has handed out
    jobsClosed: bool,
    cancelled: bool,
    resultsClosed: bool,
    reducer: Reducer,
    summary: Summary,
    processed: nat,
    reports: seq<nat>,              // first arguments of the calls to `report`
    starts: seq<nat>,               // history: channels passed to `run`, in order
    produced: map<nat, Summary>,    // history: results computed
    delivered: set<nat>)            // history: results received by the reducer

  function Idle(n: nat): (s: seq<Worker>)
    ensures |s| == n && forall w :: 0 <= w < n ==> s[w] == Selecting
  {
    if n == 0 then [] else Idle(n - 1) + [Selecting]
  }

  function Init(c: Config): Pool {
    Pool(Idle(c.workerCount), 0, false, false, false, Receiving, ZERO, 0, [0], [], map[], {})
  }

  /** What a worker does on its own. */
  datatype Act =
    | Leave                         // context done, or `jobs` closed: return
    | Skip                          // channel not eligible: its result is the zero summary
    | Start                         // call `run`
    | Finish(result: Summary)       // `run` returned
    | Resume                        // the request interval is over

  datatype Step =
    | Cancel
    | HandOver(w: nat)              // `jobs <- channel` meets `<-jobs`
    | CloseJobs                     // the feeder ran out of channels or saw the cancellation
    | Work(w: nat, act: Act)
    | Deliver(w: nat)               // `results <- result` meets the reducer's receive
    | Report
    | CloseResults
    | Return

  predicate AllExited(workers: seq<Worker>) {
    forall w :: 0 <= w < |workers| ==> workers[w].Exited?
  }

  predicate IsEligible(c: Config, job: nat) { job < c.total && c.eligible[job] }

  predicate CanAct(c: Config, s: Pool, worker: Worker, act: Act) {
    match act
    case Leave => (worker.Selecting? && (s.cancelled || s.jobsClosed))
      || ((worker.Received? || worker.Pausing?) && s.cancelled)
    case Skip => worker.Received? && !s.cancelled && !IsEligible(c, worker.job)
    case Start => worker.Received? && !s.cancelled && IsEligible(c, worker.job)
    case Finish(_) => worker.Running?
    case Resume => worker.Pausing?
  }

  function Acted(worker: Worker, act: Act): Worker
    requires act.Skip? || act.Start? || act.Finish? ==> Busy(worker)
  {
    match act
    case Leave => Exited
    case Skip => Sending(worker.job, ZERO)
    case Start => Running(worker.job)
    case Finish(result) => Sending(worker.job, result)
    case Resume => Selecting
  }

  predicate Enabled(c: Config, s: Pool, step: Step) {
    match step
    case Cancel => !s.cancelled
    case HandOver(w) => w < |s.workers| && s.workers[w].Selecting? && !s.jobsClosed && s.next < c.total
    case CloseJobs => !s.jobsClosed && (s.next >= c.total || s.cancelled)
    case Work(w, act) => w < |s.workers| && CanAct(c, s, s.workers[w], act)
    case Deliver(w) => w < |s.workers| && s.workers[w].Sending? && !s.resultsClosed && s.reducer.Receiving?
    case Report => s.reducer.Tallied?
    case CloseResults => AllExited(s.workers) && !s.resultsClosed
    case Return => s.reducer.Receiving? && s.resultsClosed
  }

  function Apply(c: Config, s: Pool, step: Step): Pool
    requires Enabled(c, s, step)
  {
    match step
    case Cancel => s.(cancelled := true)
    case HandOver(w) => s.(workers := s.workers[w := Received(s.next)], next := s.next + 1)
    case CloseJobs => s.(jobsClosed := true)
    case Work(w, act) =>
      var after := Acted(s.workers[w], act);
      s.(workers := s.workers[w := after],
         starts := if act.Start? then s.starts + [after.job] else s.starts,
         produced := if after.Sending? then s.produced[after.job := after.result] else s.produced)
    case Deliver(w) =>
      var Sending(job, result) := s.workers[w];
      s.(workers := s.workers[w := if c.pause then Pausing else Selecting],
         reducer := Tallied, summary := s.summary.Plus(result), processed := s.processed + 1,
         delivered := s.delivered + {job})
    case Report => s.(reducer := Receiving, reports := if s.cancelled then s.reports else s.reports + [s.processed])
    case CloseResults => s.(resultsClosed := true)
    case Return => s.(reducer := Returned)
  }

  /** `states` is what the schedule `steps` passes through, from the start. */
  ghost predicate IsRun(c: Config, steps: seq<Step>, states: seq<Pool>) {
    && |states| == |steps| + 1
    && states[0] == Init(c)
    && forall i :: 0 <= i < |steps| ==>
         Enabled(c, states[i], steps[i]) && states[i + 1] == Apply(c, states[i], steps[i])
  }

  // ---- the inductive invariant

  predicate Busy(w: Worker) { w.Received? || w.Running? || w.Sending? }

  predicate Holds(w: Worker, job: nat) { Busy(w) && w.job == job }

  ghost predicate SomeHolds(workers: seq<Worker>, job: nat) {
    exists w :: 0 <= w < |workers| && Holds(workers[w], job)
  }

  ghost predicate SomeRuns(workers: seq<Worker>, job: nat) {
    exists w :: 0 <= w < |workers| && workers[w] == Running(job)
  }

  /** Each job in a worker's hands was handed out, is in nobody else's hands and was not delivered. */
  ghost predicate Exclusive(workers: seq<Worker>, next: nat, delivered: set<nat>) {
    && (forall w :: 0 <= w < |workers| && Busy(workers[w]) ==> workers[w].job < next && workers[w].job !in delivered)
    && (forall v, w :: 0 <= v < w < |workers| && Busy(workers[v]) && Busy(workers[w]) ==>
      workers[v].job != workers[w].job)
    && (forall job :: job in delivered ==> job < next)
  }

  /** What a worker's position says about the results computed so far. */
  predicate ResultKept(w: Worker, produced: map<nat, Summary>) {
    && (w.Sending? ==> w.job in produced && produced[w.job] == w.result)
    && (w.Received? || w.Running? ==> w.job !in produced)
  }

  /** The results computed are those delivered and those waiting to be sent. */
  ghost predicate NothingLost(workers: seq<Worker>, next: nat, produced: map<nat, Summary>, delivered: set<nat>) {
    && (forall job :: job in delivered ==> job in produced)
    && (forall w :: 0 <= w < |workers| ==> ResultKept(workers[w], produced))
    && (forall job :: job in produced ==> job < next && (job in delivered || SomeHolds(workers, job)))
  }

  /** A channel is passed to `run` once; a started run is under way or has produced its result. */
  ghost predicate StartedOnce(c: Config, workers: seq<Worker>, starts: seq<nat>, produced: map<nat, Summary>) {
    && (forall i, j :: 0 <= i < j < |starts| ==> starts[i] != starts[j])
    && (forall job :: job in starts ==> IsEligible(c, job) && (SomeRuns(workers, job) || job in produced))
    && (forall w :: 0 <= w < |workers| && workers[w].Running? ==> workers[w].job in starts)
    && (forall job :: job in produced ==> if IsEligible(c, job) then job in starts else produced[job] == ZERO)
  }

  /** Every channel handed out is delivered or in a worker's hands. */
  ghost predicate Covered(workers: seq<Worker>, next: nat, delivered: set<nat>) {
    forall job: nat :: job < next ==> job in delivered || SomeHolds(workers, job)
  }

  /** The numbers 0, 1, 2, ... below `n`. */
  ghost function UpTo(n: nat): (s: seq<nat>)
    ensures |s| == n && forall i :: 0 <= i < n ==> s[i] == i
  {
    if n == 0 then [] else UpTo(n - 1) + [n - 1]
  }

  /** What holds as long as nobody cancelled. */
  ghost predicate Uncancelled(c: Config, s: Pool) {
    !s.cancelled ==>
      && Covered(s.workers, s.next, s.delivered)
      && (s.jobsClosed ==> s.next == c.total)
      && (s.jobsClosed || forall w :: 0 <= w < |s.workers| ==> !s.workers[w].Exited?)
      && s.reports == UpTo(if s.reducer.Tallied? then s.processed else s.processed + 1)
  }

  ghost predicate Shape(c: Config, s: Pool) {
    && |s.workers| == c.workerCount
    && s.next <= c.total
    && (s.resultsClosed ==> AllExited(s.workers))
    && (s.reducer.Returned? ==> s.resultsClosed)
    && (s.reducer.Tallied? ==> s.processed > 0)
  }

  /** Progress reports only ever grow and never run ahead of what was tallied. */
  ghost predicate Reports(s: Pool) {
    && |s.reports| >= 1 && s.reports[0] == 0
    && (forall i, j :: 0 <= i < j < |s.reports| ==> s.reports[i] < s.reports[j])
    && (forall i :: 0 <= i < |s.reports| ==>
          s.reports[i] <= s.processed && (s.reducer.Tallied? ==> s.reports[i] < s.processed))
  }

  ghost predicate Tally(s: Pool) {
    && s.processed == |s.delivered|
    && s.summary == Total(s.produced, s.delivered, s.next)
  }

  ghost predicate Inv(c: Config, s: Pool) {
    && Shape(c, s)
    && Exclusive(s.workers, s.next, s.delivered)
    && NothingLost(s.workers, s.next, s.produced, s.delivered)
    && StartedOnce(c, s.workers, s.starts, s.produced)
    && Uncancelled(c, s)
    && Reports(s)
    && Tally(s)
  }

  /** Sum of the results of the delivered jobs below `n`, in index order. */
  ghost function Total(produced: map<nat, Summary>, delivered: set<nat>, n: nat): Summary {
    if n == 0 then ZERO
    else
      var rest := Total(produced, delivered, n - 1);
      if n - 1 in delivered && n - 1 in produced then rest.Plus(produced[n - 1]) else rest
  }

  lemma TotalBeyond(produced: map<nat, Summary>, delivered: set<nat>, n: nat)
    requires n !in delivered
    ensures Total(produced, delivered, n + 1) == Total(produced, delivered, n)
  {
  }

  /** A result that is not among the delivered ones does not count. */
  lemma {:induction false} TotalIgnores(produced: map<nat, Summary>, delivered: set<nat>, n: nat, job: nat, r: Summary)
    requires job !in delivered
    ensures Total(produced[job := r], delivered, n) == Total(produced, delivered, n)
  {
    if n > 0 { TotalIgnores(produced, delivered, n - 1, job, r); }
  }

  /** Delivering one more result adds exactly that result, whatever its index. */
  lemma {:induction false} TotalAdds(produced: map<nat, Summary>, delivered: set<nat>, n: nat, job: nat)
    requires job !in delivered && job in produced
    ensures Total(produced, delivered + {job}, n)
         == if job < n then Total(produced, delivered, n).Plus(produced[job]) else Total(produced, delivered, n)
  {
    if n > 0 { TotalAdds(produced, delivered, n - 1, job); }
  }

  // ---- every step keeps the invariant

  lemma InitInv(c: Config)
    requires c.Valid()
    ensures Inv(c, Init(c))
  {
  }

  /** Replacing worker `w` by one that holds the same job, none, or the next one. */
  lemma ExclusiveKept(workers: seq<Worker>, next: nat, delivered: set<nat>, w: nat, x: Worker)
    requires Exclusive(workers, next, delivered) && w < |workers|
    requires Busy(x) ==> Holds(workers[w], x.job) || (!Busy(workers[w]) && x.job == next)
    ensures Exclusive(workers[w := x], if Busy(x) && !Busy(workers[w]) then next + 1 else next, delivered)
  {
    var after := workers[w := x];
    forall u, v | 0 <= u < v < |after| && Busy(after[u]) && Busy(after[v])
      ensures after[u].job != after[v].job
    {
      assert u != w ==> after[u] == workers[u];
      assert v != w ==> after[v] == workers[v];
    }
  }

  lemma ExclusiveDelivered(workers: seq<Worker>, next: nat, delivered: set<nat>, w: nat, x: Worker)
    requires Exclusive(workers, next, delivered) && w < |workers| && Busy(workers[w]) && !Busy(x)
    ensures Exclusive(workers[w := x], next, delivered + {workers[w].job})
  {
    var after := workers[w := x];
    forall v | 0 <= v < |after| && Busy(after[v])
      ensures after[v].job < next && after[v].job !in delivered + {workers[w].job}
    {
      assert v != w && after[v] == workers[v];
    }
    forall u, v | 0 <= u < v < |after| && Busy(after[u]) && Busy(after[v])
      ensures after[u].job != after[v].job
    {
      assert after[u] == workers[u] && after[v] == workers[v];
    }
  }

  lemma HoldersKept(workers: seq<Worker>, w: nat, x: Worker)
    requires w < |workers|
    ensures forall job: nat :: SomeHolds(workers, job) && !Holds(workers[w], job) ==> SomeHolds(workers[w := x], job)
    ensures forall job: nat :: Holds(x, job) ==> SomeHolds(workers[w := x], job)
    ensures forall job: nat :: SomeRuns(workers, job) && workers[w] != Running(job) ==> SomeRuns(workers[w := x], job)
    ensures forall job: nat :: x == Running(job) ==> SomeRuns(workers[w := x], job)
  {
    var after := workers[w := x];
    forall job: nat | SomeHolds(workers, job) && !Holds(workers[w], job) ensures SomeHolds(after, job) {
      var v :| 0 <= v < |workers| && Holds(workers[v], job);
      assert Holds(after[v], job);
    }
    forall job: nat | SomeRuns(workers, job) && workers[w] != Running(job) ensures SomeRuns(after, job) {
      var v :| 0 <= v < |workers| && workers[v] == Running(job);
      assert after[v] == Running(job);
    }
    assert after[w] == x;
  }

  /** The other workers' results are untouched when worker `w` computes one for its own job. */
  lemma OthersKept(workers: seq<Worker>, next: nat, produced: map<nat, Summary>, delivered: set<nat>, w: nat, x: Worker)
    requires Exclusive(workers, next, delivered) && NothingLost(workers, next, produced, delivered) && w < |workers|
    requires x.Sending? && Holds(workers[w], x.job)
    ensures NothingLost(workers[w := x], next, produced[x.job := x.result], delivered)
  {
    HoldersKept(workers, w, x);
    assert Holds(x, x.job);
    var after := workers[w := x];
    forall v | 0 <= v < |after| ensures ResultKept(after[v], produced[x.job := x.result]) {
      if v != w {
        assert after[v] == workers[v] && ResultKept(workers[v], produced);
        assert Busy(workers[v]) ==> workers[v].job != workers[w].job;
      }
    }
  }

  lemma WorkKeepsResults(c: Config, s: Pool, w: nat, act: Act)
    requires Inv(c, s) && Enabled(c, s, Work(w, act))
    ensures var t := Apply(c, s, Work(w, act));
            && Exclusive(t.workers, t.next, t.delivered)
            && NothingLost(t.workers, t.next, t.produced, t.delivered)
  {
    var x := Acted(s.workers[w], act);
    ExclusiveKept(s.workers, s.next, s.delivered, w, x);
    if x.Sending? {
      OthersKept(s.workers, s.next, s.produced, s.delivered, w, x);
    } else {
      assert ResultKept(s.workers[w], s.produced) && ResultKept(x, s.produced);
      HoldersKept(s.workers, w, x);
    }
  }

  lemma HandOverKeepsResults(workers: seq<Worker>, next: nat, produced: map<nat, Summary>, delivered: set<nat>, w: nat)
    requires Exclusive(workers, next, delivered) && NothingLost(workers, next, produced, delivered)
    requires w < |workers| && workers[w].Selecting?
    ensures Exclusive(workers[w := Received(next)], next + 1, delivered)
    ensures NothingLost(workers[w := Received(next)], next + 1, produced, delivered)
  {
    ExclusiveKept(workers, next, delivered, w, Received(next));
    HoldersKept(workers, w, Received(next));
  }

  lemma DeliverKeepsResults(workers: seq<Worker>, next: nat, produced: map<nat, Summary>, delivered: set<nat>,
                            w: nat, x: Worker)
    requires Exclusive(workers, next, delivered) && NothingLost(workers, next, produced, delivered)
    requires w < |workers| && workers[w].Sending? && !Busy(x)
    ensures Exclusive(workers[w := x], next, delivered + {workers[w].job})
    ensures NothingLost(workers[w := x], next, produced, delivered + {workers[w].job})
  {
    ExclusiveDelivered(workers, next, delivered, w, x);
    assert ResultKept(workers[w], produced);
    HoldersKept(workers, w, x);
  }

  lemma StepKeepsResults(c: Config, s: Pool, step: Step)
    requires Inv(c, s) && Enabled(c, s, step)
    ensures var t := Apply(c, s, step);
            && Exclusive(t.workers, t.next, t.delivered)
            && NothingLost(t.workers, t.next, t.produced, t.delivered)
  {
    match step
    case Work(w, act) => WorkKeepsResults(c, s, w, act);
    case HandOver(w) => HandOverKeepsResults(s.workers, s.next, s.produced, s.delivered, w);
    case Deliver(w) =>
      DeliverKeepsResults(s.workers, s.next, s.produced, s.delivered, w, if c.pause then Pausing else Selecting);
    case _ =>
  }

  lemma WorkKeepsStartedOnce(c: Config, s: Pool, w: nat, act: Act)
    requires Inv(c, s) && Enabled(c, s, Work(w, act))
    ensures var t := Apply(c, s, Work(w, act)); StartedOnce(c, t.workers, t.starts, t.produced)
  {
    assert ResultKept(s.workers[w], s.produced);
    HoldersKept(s.workers, w, Acted(s.workers[w], act));
    if act.Start? { StartIsNew(c, s, w); }
  }

  lemma StartedOnceUnmoved(c: Config, workers: seq<Worker>, starts: seq<nat>, produced: map<nat, Summary>, w: nat,
                           x: Worker)
    requires StartedOnce(c, workers, starts, produced) && w < |workers| && !workers[w].Running? && !x.Running?
    ensures StartedOnce(c, workers[w := x], starts, produced)
  {
    HoldersKept(workers, w, x);
  }

  lemma StepKeepsStartedOnce(c: Config, s: Pool, step: Step)
    requires Inv(c, s) && Enabled(c, s, step)
    ensures var t := Apply(c, s, step); StartedOnce(c, t.workers, t.starts, t.produced)
  {
    match step
    case Work(w, act) => WorkKeepsStartedOnce(c, s, w, act);
    case HandOver(w) => StartedOnceUnmoved(c, s.workers, s.starts, s.produced, w, Received(s.next));
    case Deliver(w) =>
      StartedOnceUnmoved(c, s.workers, s.starts, s.produced, w, if c.pause then Pausing else Selecting);
    case _ =>
  }

  lemma StartIsNew(c: Config, s: Pool, w: nat)
    requires Inv(c, s) && w < |s.workers| && s.workers[w].Received?
    ensures s.workers[w].job !in s.starts
  {
    assert ResultKept(s.workers[w], s.produced);
    forall v | 0 <= v < |s.workers| ensures s.workers[v] != Running(s.workers[w].job) {
      assert v < w || w < v || v == w;
    }
  }

  lemma StepKeepsCovered(c: Config, s: Pool, step: Step)
    requires Inv(c, s) && Enabled(c, s, step) && !s.cancelled
    ensures var t := Apply(c, s, step); Covered(t.workers, t.next, t.delivered)
  {
    match step
    case Work(w, act) =>
      var x := Acted(s.workers[w], act);
      HoldersKept(s.workers, w, x);
      assert Busy(x) ==> Holds(x, x.job);
    case HandOver(w) =>
      HoldersKept(s.workers, w, Received(s.next));
      assert Holds(Received(s.next), s.next);
    case Deliver(w) =>
      HoldersKept(s.workers, w, if c.pause then Pausing else Selecting);
    case _ =>
  }

  /** A worker leaves without a cancellation only once `jobs` is closed. */
  lemma StepKeepsWorking(c: Config, s: Pool, step: Step)
    requires Uncancelled(c, s) && Enabled(c, s, step) && !s.cancelled && !step.Cancel?
    ensures var t := Apply(c, s, step);
      t.jobsClosed || forall w :: 0 <= w < |t.workers| ==> !t.workers[w].Exited?
  {
  }

  lemma StepKeepsReported(c: Config, s: Pool, step: Step)
    requires Uncancelled(c, s) && Enabled(c, s, step) && !s.cancelled && !step.Cancel?
    ensures var t := Apply(c, s, step); t.reports == UpTo(if t.reducer.Tallied? then t.processed else t.processed + 1)
  {
  }

  lemma StepKeepsUncancelled(c: Config, s: Pool, step: Step)
    requires Inv(c, s) && Enabled(c, s, step)
    ensures Uncancelled(c, Apply(c, s, step))
  {
    if !s.cancelled && !step.Cancel? {
      StepKeepsCovered(c, s, step);
      StepKeepsWorking(c, s, step);
      StepKeepsReported(c, s, step);
    }
  }

  lemma StepKeepsShape(c: Config, s: Pool, step: Step)
    requires Shape(c, s) && Reports(s) && Enabled(c, s, step)
    ensures Shape(c, Apply(c, s, step)) && Reports(Apply(c, s, step))
  {
  }

  lemma WorkKeepsTally(c: Config, s: Pool, w: nat, act: Act)
    requires Inv(c, s) && Enabled(c, s, Work(w, act))
    ensures Tally(Apply(c, s, Work(w, act)))
  {
    var x := Acted(s.workers[w], act);
    if x.Sending? {
      assert Busy(s.workers[w]) && x.job == s.workers[w].job && x.job !in s.delivered;
      TotalIgnores(s.produced, s.delivered, s.next, x.job, x.result);
    }
  }

  lemma DeliverKeepsTally(c: Config, s: Pool, w: nat)
    requires Inv(c, s) && Enabled(c, s, Deliver(w))
    ensures Tally(Apply(c, s, Deliver(w)))
  {
    var job := s.workers[w].job;
    assert ResultKept(s.workers[w], s.produced);
    assert job < s.next && job !in s.delivered;
    TotalAdds(s.produced, s.delivered, s.next, job);
  }

  lemma StepKeepsTally(c: Config, s: Pool, step: Step)
    requires Inv(c, s) && Enabled(c, s, step)
    ensures Tally(Apply(c, s, step))
  {
    match step
    case HandOver(w) =>
      TotalBeyond(s.produced, s.delivered, s.next);
    case Work(w, act) => WorkKeepsTally(c, s, w, act);
    case Deliver(w) => DeliverKeepsTally(c, s, w);
    case _ =>
  }

  lemma StepKeepsInv(c: Config, s: Pool, step: Step)
    requires Inv(c, s) && Enabled(c, s, step)
    ensures Inv(c, Apply(c, s, step))
  {
    StepKeepsShape(c, s, step);
    StepKeepsResults(c, s, step);
    StepKeepsStartedOnce(c, s, step);
    StepKeepsUncancelled(c, s, step);
    StepKeepsTally(c, s, step);
  }

  /** Every state of every run satisfies the invariant, wherever the cancellation falls. */
  lemma {:induction false} RunKeepsInv(c: Config, steps: seq<Step>, states: seq<Pool>, i: nat)
    requires c.Valid() && IsRun(c, steps, states) && i < |states|
    ensures Inv(c, states[i])
  {
    if i == 0 {
      InitInv(c);
    } else {
      RunKeepsInv(c, steps, states, i - 1);
      StepKeepsInv(c, states[i - 1], steps[i - 1]);
    }
  }

  // ---- liveness

  function Weight(w: Worker): nat {
    match w
    case Exited => 0
    case Selecting => 1
    case Pausing => 2
    case Sending(_, _) => 4
    case Running(_) => 5
    case Received(_) => 6
  }

  function Weights(workers: seq<Worker>): nat {
    if workers == [] then 0 else Weight(workers[0]) + Weights(workers[1..])
  }

  lemma {:induction false} WeightsUpdate(workers: seq<Worker>, w: nat, x: Worker)
    requires w < |workers|
    ensures Weights(workers[w := x]) == Weights(workers) - Weight(workers[w]) + Weight(x)
  {
    if w == 0 {
      assert workers[0 := x][1..] == workers[1..];
    } else {
      assert workers[w := x][1..] == workers[1..][w - 1 := x];
      WeightsUpdate(workers[1..], w - 1, x);
    }
  }

  /** Steps that can still happen, counted from above. */
  function Measure(c: Config, s: Pool): nat
    requires s.next <= c.total
  {
    6 * (c.total - s.next) + Weights(s.workers)
    + (if s.jobsClosed then 0 else 1) + (if s.cancelled then 0 else 1) + (if s.resultsClosed then 0 else 1)
    + (if s.reducer.Receiving? then 1 else if s.reducer.Tallied? then 2 else 0)
  }

  lemma ActLightens(c: Config, s: Pool, worker: Worker, act: Act)
    requires CanAct(c, s, worker, act)
    ensures Weight(Acted(worker, act)) < Weight(worker)
  {
  }

  lemma StepDecreasesMeasure(c: Config, s: Pool, step: Step)
    requires Shape(c, s) && Enabled(c, s, step)
    ensures Apply(c, s, step).next <= c.total
    ensures Measure(c, Apply(c, s, step)) < Measure(c, s)
  {
    match step
    case Work(w, act) =>
      ActLightens(c, s, s.workers[w], act);
      WeightsUpdate(s.workers, w, Acted(s.workers[w], act));
    case HandOver(w) => WeightsUpdate(s.workers, w, Received(s.next));
    case Deliver(w) => WeightsUpdate(s.workers, w, if c.pause then Pausing else Selecting);
    case _ =>
  }

  lemma {:induction false} InitialMeasure(c: Config, n: nat)
    ensures Weights(Idle(n)) == n
  {
    if n > 0 {
      assert Idle(n)[1..] == Idle(n - 1);
      InitialMeasure(c, n - 1);
    }
  }

  lemma {:induction false} MeasureAlongRun(c: Config, steps: seq<Step>, states: seq<Pool>, i: nat)
    requires c.Valid() && IsRun(c, steps, states) && i < |states|
    ensures states[i].next <= c.total
    ensures Measure(c, states[i]) + i <= 6 * c.total + c.workerCount + 4
  {
    if i == 0 {
      InitialMeasure(c, c.workerCount);
    } else {
      MeasureAlongRun(c, steps, states, i - 1);
      RunKeepsInv(c, steps, states, i - 1);
      StepDecreasesMeasure(c, states[i - 1], steps[i - 1]);
    }
  }

  /** No schedule is longer than this bound, so the pool cannot run for ever. */
  lemma RunsAreBounded(c: Config, steps: seq<Step>, states: seq<Pool>)
    requires c.Valid() && IsRun(c, steps, states)
    ensures |steps| <= 6 * c.total + c.workerCount + 4
  {
    MeasureAlongRun(c, steps, states, |steps|);
  }

  /** A worker that has not exited can always move, or the feeder or the reducer can. */
  lemma WorkerCanMove(c: Config, s: Pool, w: nat) returns (step: Step)
    requires c.Valid() && Inv(c, s) && s.reducer.Receiving? && w < |s.workers| && !s.workers[w].Exited?
    ensures Enabled(c, s, step) && !step.Cancel?
  {
    match s.workers[w]
    case Selecting =>
      step := if s.cancelled || s.jobsClosed then Work(w, Leave) else if s.next < c.total then HandOver(w)
        else CloseJobs;
    case Received(job) =>
      step := Work(w, if s.cancelled then Leave else if IsEligible(c, job) then Start else Skip);
    case Running(_) => step := Work(w, Finish(ZERO));
    case Sending(_, _) => step := Deliver(w);
    case Pausing => step := Work(w, Resume);
  }

  /** Deadlock freedom: until the caller has returned, some step other than a cancellation is enabled. */
  lemma Progress(c: Config, s: Pool) returns (step: Step)
    requires c.Valid() && Inv(c, s) && !s.reducer.Returned?
    ensures Enabled(c, s, step) && !step.Cancel?
  {
    if s.reducer.Tallied? {
      step := Report;
    } else if w: nat :| w < |s.workers| && !s.workers[w].Exited? {
      step := WorkerCanMove(c, s, w);
    } else {
      step := if s.resultsClosed then Return else CloseResults;
    }
  }

  /** A schedule that cannot be extended has returned to the caller, with `results` closed. */
  lemma MaximalRunsReturn(c: Config, steps: seq<Step>, states: seq<Pool>)
    requires c.Valid() && IsRun(c, steps, states)
    requires forall step :: Enabled(c, states[|steps|], step) ==> step.Cancel?
    ensures states[|steps|].reducer.Returned? && states[|steps|].resultsClosed
  {
    RunKeepsInv(c, steps, states, |steps|);
    if !states[|steps|].reducer.Returned? {
      var step := Progress(c, states[|steps|]);
    }
  }

  // ---- accounting

  /** Number of runs in flight: started, result not computed yet. */
  ghost function InFlight(s: Pool): set<nat> {
    set job | job in s.starts && job !in s.produced
  }

  ghost function JobsOf(workers: seq<Worker>): set<nat> {
    if workers == [] then {}
    else JobsOf(workers[1..]) + if Busy(workers[0]) then {workers[0].job} else {}
  }

  lemma {:induction false} JobsOfCount(workers: seq<Worker>)
    ensures |JobsOf(workers)| <= |workers|
    ensures forall job: nat :: SomeHolds(workers, job) ==> job in JobsOf(workers)
  {
    if workers != [] {
      JobsOfCount(workers[1..]);
      forall job: nat | SomeHolds(workers, job) ensures job in JobsOf(workers) {
        var w :| 0 <= w < |workers| && Holds(workers[w], job);
        if w > 0 { assert Holds(workers[1..][w - 1], job); }
      }
    }
  }

  lemma SubsetCount(small: set<nat>, large: set<nat>)
    requires small <= large
    ensures |small| <= |large|
  {
    assert large == small + (large - small);
  }

  /** Runs are never repeated, and never more than `workerCount` of them are in flight. */
  lemma ConcurrencyBounded(c: Config, steps: seq<Step>, states: seq<Pool>, i: nat)
    requires c.Valid() && IsRun(c, steps, states) && i < |states|
    ensures forall a, b :: 0 <= a < b < |states[i].starts| ==> states[i].starts[a] != states[i].starts[b]
    ensures forall job :: job in states[i].starts ==> IsEligible(c, job)
    ensures |InFlight(states[i])| <= c.workerCount
  {
    RunKeepsInv(c, steps, states, i);
    var s := states[i];
    forall job | job in InFlight(s) ensures job in JobsOf(s.workers) {
      var w :| 0 <= w < |s.workers| && s.workers[w] == Running(job);
      assert Holds(s.workers[w], job);
      JobsOfCount(s.workers);
    }
    JobsOfCount(s.workers);
    SubsetCount(InFlight(s), JobsOf(s.workers));
  }

  lemma {:induction false} TotalStops(produced: map<nat, Summary>, delivered: set<nat>, n: nat, m: nat)
    requires n <= m && forall job :: job in delivered ==> job < n
    ensures Total(produced, delivered, m) == Total(produced, delivered, n)
  {
    if n < m { TotalStops(produced, delivered, n, m - 1); }
  }

  /**
   When the call returns, every computed result was added exactly once, cancelled or not; without
   cancellation every channel was processed, every eligible one was run, and progress was reported
   for each count from 0 to the total.
   */
  lemma ReturnedAccounting(c: Config, steps: seq<Step>, states: seq<Pool>)
    requires c.Valid() && IsRun(c, steps, states) && states[|steps|].reducer.Returned?
    ensures var s := states[|steps|];
      && s.delivered == s.produced.Keys
      && s.processed == |s.produced.Keys| <= c.total
      && s.summary == Total(s.produced, s.produced.Keys, c.total)
      && (forall job :: job in s.starts ==> job in s.produced)
      && (!s.cancelled ==>
            && s.processed == c.total
            && (forall job: nat :: job in s.produced <==> job < c.total)
            && (forall job: nat :: IsEligible(c, job) ==> job in s.starts)
            && s.reports == UpTo(c.total + 1))
  {
    RunKeepsInv(c, steps, states, |steps|);
    var s := states[|steps|];
    assert forall job :: job in s.produced ==> job in s.delivered;
    TotalStops(s.produced, s.delivered, s.next, c.total);
    SubsetCount(s.delivered, Below(c.total));
    if !s.cancelled {
      assert s.jobsClosed by { assert s.workers[0].Exited?; }
      assert s.delivered == Below(c.total);
    }
  }

  /** Each channel with its test's outcome; the zero summary for one that is not eligible. */
  ghost function Outcomes(c: Config, outcome: seq<Summary>): map<nat, Summary>
    requires |outcome| == c.total
  {
    map job | job in Below(c.total) :: if c.eligible[job] then outcome[job] else ZERO
  }

  lemma SameResults(c: Config, produced: map<nat, Summary>, outcome: seq<Summary>)
    requires |outcome| == c.total && forall job: nat :: job in produced <==> job < c.total
    requires forall job: nat :: job < c.total ==> produced[job] == if c.eligible[job] then outcome[job] else ZERO
    ensures produced == Outcomes(c, outcome)
  {
    assert produced.Keys == Below(c.total) == Outcomes(c, outcome).Keys;
  }

  /** If each channel's test has a fixed outcome, the uncancelled summary does not depend on the schedule. */
  lemma ScheduleIndependent(c: Config, steps: seq<Step>, states: seq<Pool>, outcome: seq<Summary>)
    requires c.Valid() && IsRun(c, steps, states) && |outcome| == c.total
    requires states[|steps|].reducer.Returned? && !states[|steps|].cancelled
    requires forall job :: job in states[|steps|].starts && job in states[|steps|].produced && job < c.total ==>
               states[|steps|].produced[job] == outcome[job]
    ensures states[|steps|].summary == Total(Outcomes(c, outcome), Below(c.total), c.total)
  {
    ReturnedAccounting(c, steps, states);
    var s := states[|steps|];
    forall job: nat | job < c.total ensures s.produced[job] == if c.eligible[job] then outcome[job] else ZERO {
      if !IsEligible(c, job) {
        RunKeepsInv(c, steps, states, |steps|);
        assert StartedOnce(c, s.workers, s.starts, s.produced);
      }
    }
    SameResults(c, s.produced, outcome);
    assert s.produced.Keys == Below(c.total);
  }

  // ---- runs of health checks

  /** Every `run` of the schedule was the health check of its channel, whose probe is `probes[job]`; a probe that saw
      the cancellation returned after it. */
  ghost predicate ChecksHealth(c: Config, steps: seq<Step>, states: seq<Pool>, probes: seq<Probe>)
    requires IsRun(c, steps, states)
  {
    && |probes| == c.total
    && forall k :: 0 <= k < |steps| && steps[k].Work? && steps[k].act.Finish? ==>
         IsCheckOf(states[k].workers[steps[k].w].job, steps[k].act.result, states[k].cancelled, probes)
  }

  predicate IsCheckOf(job: nat, r: Summary, cancelled: bool, probes: seq<Probe>) {
    job < |probes| ==> r == Counted(probes[job]) && (probes[job].cancelled ==> cancelled)
  }

  /** What is kept of that for each result. */
  predicate Probed(c: Config, job: nat, r: Summary, cancelled: bool, probes: seq<Probe>) {
    if job < |probes| && IsEligible(c, job)
    then r == Counted(probes[job]) && (probes[job].cancelled ==> cancelled)
    else r == ZERO
  }

  ghost predicate AllProbed(c: Config, s: Pool, probes: seq<Probe>) {
    forall job :: job in s.produced ==> Probed(c, job, s.produced[job], s.cancelled, probes)
  }

  lemma StepKeepsProbed(c: Config, s: Pool, step: Step, probes: seq<Probe>)
    requires Inv(c, s) && AllProbed(c, s, probes) && Enabled(c, s, step) && |probes| == c.total
    requires step.Work? && step.act.Finish? ==>
               IsCheckOf(s.workers[step.w].job, step.act.result, s.cancelled, probes)
    ensures AllProbed(c, Apply(c, s, step), probes)
  {
    if step.Work? && step.act.Finish? { assert IsEligible(c, s.workers[step.w].job); }
  }

  lemma {:induction false} RunKeepsProbed(c: Config, steps: seq<Step>, states: seq<Pool>, probes: seq<Probe>, i: nat)
    requires c.Valid() && IsRun(c, steps, states) && ChecksHealth(c, steps, states, probes) && i < |states|
    ensures AllProbed(c, states[i], probes)
  {
    if i > 0 {
      RunKeepsProbed(c, steps, states, probes, i - 1);
      RunKeepsInv(c, steps, states, i - 1);
      StepKeepsProbed(c, states[i - 1], steps[i - 1], probes);
    }
  }

  /** How many of the first `n` channels are eligible. */
  function Eligible(c: Config, n: nat): nat
    requires n <= c.total
  {
    if n == 0 then 0 else Eligible(c, n - 1) + One(c.eligible[n - 1])
  }

  lemma PlusConsistent(a: Summary, b: Summary)
    requires a.Consistent() && b.Consistent()
    ensures a.Plus(b).Consistent() && a.Plus(b).tested == a.tested + b.tested
  {
  }

  /** A result adds up, and counts a channel as tested only if it is eligible. */
  predicate Sound(c: Config, job: nat, r: Summary) { r.Consistent() && r.tested <= One(IsEligible(c, job)) }

  lemma ProbedIsSound(c: Config, job: nat, r: Summary, cancelled: bool, probes: seq<Probe>)
    requires Probed(c, job, r, cancelled, probes)
    ensures Sound(c, job, r)
    ensures IsEligible(c, job) && job < |probes| && !cancelled ==> r.tested == 1
  {
    if job < |probes| { CountedIsConsistent(probes[job]); }
  }

  lemma {:induction false} TotalConsistent(c: Config, produced: map<nat, Summary>, delivered: set<nat>, n: nat)
    requires n <= c.total && forall job :: job in produced ==> Sound(c, job, produced[job])
    ensures Total(produced, delivered, n).Consistent() && Total(produced, delivered, n).tested <= Eligible(c, n)
  {
    if n > 0 {
      TotalConsistent(c, produced, delivered, n - 1);
      if n - 1 in delivered && n - 1 in produced {
        assert Sound(c, n - 1, produced[n - 1]);
        PlusConsistent(Total(produced, delivered, n - 1), produced[n - 1]);
      }
    }
  }

  lemma ResultsAreSound(c: Config, s: Pool, probes: seq<Probe>)
    requires AllProbed(c, s, probes) && |probes| == c.total
    ensures forall job :: job in s.produced ==> Sound(c, job, s.produced[job])
    ensures !s.cancelled ==>
              forall job :: job in s.produced && job < c.total ==> s.produced[job].tested == One(c.eligible[job])
  {
    forall job | job in s.produced
      ensures Sound(c, job, s.produced[job])
      ensures !s.cancelled && job < c.total ==> s.produced[job].tested == One(c.eligible[job])
    {
      ProbedIsSound(c, job, s.produced[job], s.cancelled, probes);
    }
  }

  lemma {:induction false} TotalTested(c: Config, produced: map<nat, Summary>, delivered: set<nat>, n: nat)
    requires n <= c.total && forall job: nat :: job < n ==> job in delivered && job in produced
    requires forall job :: job in produced && job < c.total ==> produced[job].tested == One(c.eligible[job])
    ensures Total(produced, delivered, n).tested == Eligible(c, n)
  {
    if n > 0 { TotalTested(c, produced, delivered, n - 1); }
  }

  lemma StateAddsUp(c: Config, s: Pool, probes: seq<Probe>)
    requires Inv(c, s) && AllProbed(c, s, probes) && |probes| == c.total
    ensures s.summary.Consistent() && s.summary.tested <= Eligible(c, c.total)
  {
    TotalStops(s.produced, s.delivered, s.next, c.total);
    ResultsAreSound(c, s, probes);
    TotalConsistent(c, s.produced, s.delivered, c.total);
  }

  lemma ReturnedTests(c: Config, s: Pool, probes: seq<Probe>)
    requires AllProbed(c, s, probes) && |probes| == c.total && !s.cancelled
    requires s.summary == Total(s.produced, s.produced.Keys, c.total)
    requires forall job: nat :: job in s.produced <==> job < c.total
    ensures s.summary.tested == Eligible(c, c.total)
  {
    ResultsAreSound(c, s, probes);
    TotalTested(c, s.produced, s.produced.Keys, c.total);
  }

  /** At every moment of every schedule of health checks the summary adds up, and no more channels are counted as
      tested than are eligible; an uncancelled call that has returned has tested every eligible channel. */
  lemma SummaryAddsUp(c: Config, steps: seq<Step>, states: seq<Pool>, probes: seq<Probe>, i: nat)
    requires c.Valid() && IsRun(c, steps, states) && ChecksHealth(c, steps, states, probes) && i < |states|
    ensures states[i].summary.Consistent() && states[i].summary.tested <= Eligible(c, c.total)
    ensures var s := states[|steps|];
      s.reducer.Returned? && !s.cancelled ==> s.summary.tested == Eligible(c, c.total)
  {
    RunKeepsInv(c, steps, states, i);
    RunKeepsProbed(c, steps, states, probes, i);
    StateAddsUp(c, states[i], probes);
    var s := states[|steps|];
    if s.reducer.Returned? && !s.cancelled {
      ReturnedAccounting(c, steps, states);
      RunKeepsProbed(c, steps, states, probes, |steps|);
      ReturnedTests(c, s, probes);
    }
  }

  // ---- what the counters count

  datatype Counter = Tested | Succeeded | Failed | Disabled | Enabled

  function Read(s: Summary, counter: Counter): nat {
    match counter
    case Tested => s.tested
    case Succeeded => s.succeeded
    case Failed => s.failed
    case Disabled => s.disabled
    case Enabled => s.enabled
  }

  lemma OneMore(all: set<nat>, n: nat)
    ensures |set job | job in all && job < n + 1| == |set job | job in all && job < n| + One(n in all)
  {
    var below, upTo := set job | job in all && job < n, set job | job in all && job < n + 1;
    assert upTo == if n in all then below + {n} else below;
  }

  /** A counter that each delivered result raises by one for the jobs in `all`, and by nothing for the others. */
  lemma {:induction false} TotalCounts(produced: map<nat, Summary>, delivered: set<nat>, n: nat, counter: Counter,
                                       all: set<nat>)
    requires forall job :: job in delivered && job in produced ==> Read(produced[job], counter) == One(job in all)
    requires forall job :: job in all ==> job in delivered && job in produced
    ensures Read(Total(produced, delivered, n), counter) == |set job | job in all && job < n|
  {
    if n == 0 {
      assert (set job: nat | job in all && job < n) == {};
    } else {
      TotalCounts(produced, delivered, n - 1, counter, all);
      OneMore(all, n - 1);
    }
  }

  /** The eligible channels whose result was received and whose probe was not cut off by the cancellation. */
  ghost function Done(c: Config, s: Pool, probes: seq<Probe>): set<nat>
    requires |probes| == c.total
  {
    set job | job in s.delivered && job < c.total && c.eligible[job] && !probes[job].cancelled
  }

  lemma OneOrNone(p: Probe, counter: Counter)
    ensures Read(Counted(p), counter) <= 1 && Read(ZERO, counter) == 0
    ensures p.cancelled ==> Counted(p) == ZERO
  {
  }

  lemma ReadOfResult(c: Config, s: Pool, probes: seq<Probe>, counter: Counter, job: nat)
    requires AllProbed(c, s, probes) && |probes| == c.total && job in s.delivered && job in s.produced
    ensures Read(s.produced[job], counter)
         == One(job in Done(c, s, probes) && Read(Counted(probes[job]), counter) == 1)
  {
    assert Probed(c, job, s.produced[job], s.cancelled, probes);
    if job < c.total { OneOrNone(probes[job], counter); }
  }

  /** `met` are the channels done whose probe raises the counter. */
  lemma CounterCounts(c: Config, s: Pool, probes: seq<Probe>, counter: Counter, met: set<nat>)
    requires Inv(c, s) && AllProbed(c, s, probes) && |probes| == c.total
    requires forall job: nat :: job in met <==>
               job in Done(c, s, probes) && Read(Counted(probes[job]), counter) == 1
    ensures Read(s.summary, counter) == |met|
  {
    forall job | job in s.delivered && job in s.produced ensures Read(s.produced[job], counter) == One(job in met) {
      ReadOfResult(c, s, probes, counter, job);
    }
    TotalCounts(s.produced, s.delivered, s.next, counter, met);
    assert (set job | job in met && job < s.next) == met;
  }

  lemma TestedCounts(c: Config, s: Pool, probes: seq<Probe>)
    requires Inv(c, s) && AllProbed(c, s, probes) && |probes| == c.total
    ensures s.summary.tested == |Done(c, s, probes)|
  {
    CounterCounts(c, s, probes, Tested, Done(c, s, probes));
  }

  lemma OutcomeCounts(c: Config, s: Pool, probes: seq<Probe>)
    requires Inv(c, s) && AllProbed(c, s, probes) && |probes| == c.total
    ensures s.summary.failed == |set job | job in Done(c, s, probes) && (probes[job].apiError
              || (probes[job].autoDisable && probes[job].milliseconds > probes[job].threshold))|
    ensures s.summary.succeeded == |set job | job in Done(c, s, probes) && !(probes[job].apiError
              || (probes[job].autoDisable && probes[job].milliseconds > probes[job].threshold))|
  {
    CounterCounts(c, s, probes, Failed, set job | job in Done(c, s, probes) && (probes[job].apiError
      || (probes[job].autoDisable && probes[job].milliseconds > probes[job].threshold)));
    CounterCounts(c, s, probes, Succeeded, set job | job in Done(c, s, probes) && !(probes[job].apiError
      || (probes[job].autoDisable && probes[job].milliseconds > probes[job].threshold)));
  }

  lemma DisabledCounts(c: Config, s: Pool, probes: seq<Probe>)
    requires Inv(c, s) && AllProbed(c, s, probes) && |probes| == c.total
    ensures s.summary.disabled == |set job | job in Done(c, s, probes)
              && probes[job].allowDisable && probes[job].channelEnabled && probes[job].autoBan
              && ((probes[job].apiError && probes[job].errorBans)
                  || (probes[job].autoDisable && probes[job].milliseconds > probes[job].threshold))|
  {
    CounterCounts(c, s, probes, Disabled, set job | job in Done(c, s, probes)
      && probes[job].allowDisable && probes[job].channelEnabled && probes[job].autoBan
      && ((probes[job].apiError && probes[job].errorBans)
          || (probes[job].autoDisable && probes[job].milliseconds > probes[job].threshold)));
  }

  lemma EnabledCounts(c: Config, s: Pool, probes: seq<Probe>)
    requires Inv(c, s) && AllProbed(c, s, probes) && |probes| == c.total
    ensures s.summary.enabled == |set job | job in Done(c, s, probes)
              && !probes[job].apiError && !(probes[job].autoDisable && probes[job].milliseconds > probes[job].threshold)
              && !probes[job].localError && !probes[job].channelEnabled
              && probes[job].channelAutoDisabled && probes[job].autoEnable|
  {
    CounterCounts(c, s, probes, Counter.Enabled, set job | job in Done(c, s, probes)
      && !probes[job].apiError && !(probes[job].autoDisable && probes[job].milliseconds > probes[job].threshold)
      && !probes[job].localError && !probes[job].channelEnabled
      && probes[job].channelAutoDisabled && probes[job].autoEnable);
  }

  /** An uncancelled call that has returned has received the result of every eligible channel, from a full probe. */
  lemma ReturnedIsDone(c: Config, steps: seq<Step>, states: seq<Pool>, probes: seq<Probe>)
    requires c.Valid() && IsRun(c, steps, states) && ChecksHealth(c, steps, states, probes)
    requires states[|steps|].reducer.Returned? && !states[|steps|].cancelled
    ensures Done(c, states[|steps|], probes) == set job: nat | job < c.total && c.eligible[job]
  {
    ReturnedAccounting(c, steps, states);
    RunKeepsProbed(c, steps, states, probes, |steps|);
    var s := states[|steps|];
    forall job: nat | job < c.total && c.eligible[job] ensures job in Done(c, s, probes) {
      assert Probed(c, job, s.produced[job], s.cancelled, probes);
    }
  }

  /**
   At every moment of every schedule each counter is the number of eligible channels, among those whose result
   was received, whose probe was not cut off by the cancellation and meets the counter's condition; when an
   uncancelled call has returned, those are all the eligible channels.
   */
  lemma CountersExactly(c: Config, steps: seq<Step>, states: seq<Pool>, probes: seq<Probe>, i: nat)
    requires c.Valid() && IsRun(c, steps, states) && ChecksHealth(c, steps, states, probes) && i < |states|
    ensures var done, summary := Done(c, states[i], probes), states[i].summary;
      && summary.tested == |done|
      && summary.failed == |set job | job in done && (probes[job].apiError
           || (probes[job].autoDisable && probes[job].milliseconds > probes[job].threshold))|
      && summary.succeeded == |set job | job in done && !(probes[job].apiError
           || (probes[job].autoDisable && probes[job].milliseconds > probes[job].threshold))|
      && summary.disabled == |set job | job in done
           && probes[job].allowDisable && probes[job].channelEnabled && probes[job].autoBan
           && ((probes[job].apiError && probes[job].errorBans)
               || (probes[job].autoDisable && probes[job].milliseconds > probes[job].threshold))|
      && summary.enabled == |set job | job in done
           && !probes[job].apiError && !(probes[job].autoDisable && probes[job].milliseconds > probes[job].threshold)
           && !probes[job].localError && !probes[job].channelEnabled
           && probes[job].channelAutoDisabled && probes[job].autoEnable|
    ensures states[|steps|].reducer.Returned? && !states[|steps|].cancelled ==>
              Done(c, states[|steps|], probes) == set job: nat | job < c.total && c.eligible[job]
  {
    if states[|steps|].reducer.Returned? && !states[|steps|].cancelled { ReturnedIsDone(c, steps, states, probes); }
    RunKeepsInv(c, steps, states, i);
    RunKeepsProbed(c, steps, states, probes, i);
    TestedCounts(c, states[i], probes);
    OutcomeCounts(c, states[i], probes);
    DisabledCounts(c, states[i], probes);
    EnabledCounts(c, states[i], probes);
  }
}

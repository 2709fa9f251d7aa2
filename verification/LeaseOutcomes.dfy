/** What becomes of a run: how long a lease is given for, and when a failure is retried. */
module LeaseOutcomes {
  import opened Wrappers
  import opened Lease
  import opened LeaseInvariant
  import opened LeaseTheorems

  // ----- settings

  /** The task's own value counts if it is there and not zero, the default otherwise. */
  ghost predicate InForce(own: Option<nat>, default: nat, n: nat) {
    && (own.Some? && own.value > 0 ==> n == own.value)
    && (own.None? || own.value == 0 ==> n == default)
  }

  function ConfigOf(tasks: map<TaskId, TaskConfig>, row: TaskRun): TaskConfig {
    if row.taskId in tasks then tasks[row.taskId] else TaskConfig(None, None)
  }

  /** A claim or heartbeat that takes effect gives the lease for the timeout in force. */
  lemma LeaseTerm(cfg: Settings, s: State, a: Action, run: RunId, timeout: nat)
    requires Enabled(s, a) && run in s.rows
    requires a.Claim? || a.Heartbeat?
    requires a.run == run
    requires a.Claim? ==> s.rows[run].status.Pending?
    requires a.Heartbeat? ==> Holds(s, run, a.call.token)
    requires InForce(ConfigOf(s.tasks, s.rows[run]).timeoutSeconds, cfg.defaultTimeout, timeout)
    ensures var row, now := Apply(cfg, s, a).rows[run], if a.Claim? then a.now else a.call.now;
            && row.status.Running? && row.lastHeartbeatAt == Some(now) && row.leaseExpiresAt == Some(now + timeout)
            && (a.Claim? ==> row.startedAt == Some(now) && row.leaseToken == Some(a.token)
                             && row.attemptCount == s.rows[run].attemptCount + 1)
            && (a.Heartbeat? ==> row.startedAt == s.rows[run].startedAt && row.leaseToken == s.rows[run].leaseToken
                                 && row.attemptCount == s.rows[run].attemptCount)
  {
  }

  /** A failure report reads the limit in force and the row's own attempt count. */
  lemma LimitRead(
      cfg: Settings, s: State, run: RunId, call: Call, retryable: bool, error: string, log: Option<string>, limit: nat)
    requires call in s.calls && Holds(s, run, call.token)
    requires InForce(ConfigOf(s.tasks, s.rows[run]).maxAttempts, cfg.defaultMaxAttempts, limit)
    ensures var s' := Apply(cfg, s, ReadFailure(run, call, retryable, error, log));
            s'.reports == s.reports + {FailureRead(call, run, s.rows[run].attemptCount, limit, retryable, error, log)}
  {
  }

  /** A new run is pending, untried, and due at once. */
  lemma CreatedRunIsDue(cfg: Settings, s: State, run: RunId, task: TaskId, now: Time)
    requires Enabled(s, Create(run, task))
    ensures var s' := Apply(cfg, s, Create(run, task));
            && run in s'.rows && Due(s'.rows[run], now) && s'.rows[run].createdAt == s.clock
            && s'.rows[run].taskId == task && s'.rows[run].attemptCount == 0 && s'.log == s.log
  {
  }

  // ----- retried or given up

  /** When the update of a failure report takes effect, the run goes back to pending exactly
      if the report is retryable and the row's own attempts are below the limit read, and
      fails for good otherwise; one event says which. */
  lemma FailureOutcome(cfg: Settings, s: State, read: FailureRead)
    requires Inv(cfg, s) && Enabled(s, WriteFailure(read)) && Holds(s, read.run, read.call.token)
    ensures var s', now := Apply(cfg, s, WriteFailure(read)), read.call.now;
            var before, row, e := s.rows[read.run], s'.rows[read.run], s'.log[|s.log|];
            var again := read.retryable && before.attemptCount < read.maxAttempts;
            && |s'.log| == |s.log| + 1 && s'.log[..|s.log|] == s.log
            && e.run == read.run && e.at == now && e.attempt == before.attemptCount && e.token == read.call.token
            && row.attemptCount == before.attemptCount >= 1 && row.logOutput == read.log
            && row.leaseToken.None? && row.leaseExpiresAt.None?
            && (again <==> row.status.Pending?) && (again <==> e.kind.Requeued?)
            && (!again <==> row.status.Failed?) && (!again <==> e.kind.GaveUp?)
            && (again ==> row.nextRetryAt == Some(now + Delay(cfg, before.attemptCount))
                          && row.startedAt.None? && row.finishedAt.None? && row.errorMessage.None?)
            && (!again ==> row.finishedAt == Some(now) && row.errorMessage == Some(read.error)
                           && row.startedAt == before.startedAt)
  {
    hide Delay, TokensSound, CallsSound, AttemptsBounded, RowsMatch;
  }

  /** The report behind a release event. */
  ghost predicate ReportOf(e: Event, read: FailureRead) {
    read.run == e.run && read.call.token == e.token && read.attempt == e.attempt
  }

  /** The report was to be retried. */
  ghost predicate ToRetry(read: FailureRead) {
    read.retryable && read.attempt < read.maxAttempts
  }

  ghost predicate Justified(s: State, e: Event) {
    && (e.kind.Requeued? ==> exists read <- s.reports :: ReportOf(e, read) && ToRetry(read))
    && (e.kind.GaveUp? ==> exists read <- s.reports :: ReportOf(e, read) && !ToRetry(read))
  }

  ghost predicate AllJustified(s: State) {
    forall i :: 0 <= i < |s.log| ==> Justified(s, s.log[i])
  }

  lemma JustifiedStep(cfg: Settings, s: State, a: Action)
    requires AllJustified(s) && Enabled(s, a)
    ensures AllJustified(Apply(cfg, s, a))
  {
    hide Delay;
    var s' := Apply(cfg, s, a);
    assert s.reports <= s'.reports;
    forall i | 0 <= i < |s'.log|
      ensures Justified(s', s'.log[i])
    {
      if i < |s.log| {
        assert s'.log[i] == s.log[i] && Justified(s, s.log[i]);
      } else if a.WriteFailure? {
        assert ReportOf(s'.log[i], a.read);
      }
    }
  }

  lemma {:induction false} JustifiedAlways(cfg: Settings, s: State, acts: seq<Action>)
    requires AllJustified(s) && ValidRun(cfg, s, acts)
    ensures AllJustified(Final(cfg, s, acts))
    decreases |acts|
  {
    hide AllJustified, Apply;
    if acts != [] {
      JustifiedStep(cfg, s, acts[0]);
      JustifiedAlways(cfg, Apply(cfg, s, acts[0]), acts[1..]);
    }
  }

  /** Over every run: a run is given up only by a report that was not retryable or had
      reached the limit it read, and requeued only by one that was and had not. */
  lemma ReleasesJustified(cfg: Settings, s: State, acts: seq<Action>, i: nat)
    requires Initial(s) && ValidRun(cfg, s, acts) && i < |Final(cfg, s, acts).log|
    ensures Justified(Final(cfg, s, acts), Final(cfg, s, acts).log[i])
  {
    JustifiedAlways(cfg, s, acts);
  }

  // ----- a fixed limit

  /** Every report on `run` is retryable and reads the limit `m`. */
  ghost predicate ReportsAlike(s: State, run: RunId, m: nat) {
    forall read <- s.reports :: read.run == run ==> read.retryable && read.maxAttempts == m
  }

  lemma {:induction false} EventInLog(log: seq<Event>, run: RunId, k: nat) returns (i: nat)
    requires k < |EventsOf(log, run)|
    ensures i < |log| && log[i] == EventsOf(log, run)[k]
  {
    var n := |log| - 1;
    var front := EventsOf(log[..n], run);
    if k < |front| {
      i := EventInLog(log[..n], run, k);
    } else {
      i := n;
    }
  }

  /** If every report is retryable and reads the same limit, a run that has failed was tried
      as often as the limit says, and once where it says zero. */
  lemma FailedAfterAllAttempts(cfg: Settings, s: State, acts: seq<Action>, run: RunId, m: nat)
    requires Initial(s) && ValidRun(cfg, s, acts) && ReportsAlike(Final(cfg, s, acts), run, m)
    requires run in Final(cfg, s, acts).rows && Final(cfg, s, acts).rows[run].status.Failed?
    ensures Final(cfg, s, acts).rows[run].attemptCount == if m == 0 then 1 else m
  {
    hide RowMatches, EventsOf, Apply, Initial;
    var f := Final(cfg, s, acts);
    var h := EventsOf(f.log, run);
    ReachableRow(cfg, s, acts, run);
    FailedHistory(cfg, f.rows[run], h);
    var last := EventInLog(f.log, run, |h| - 1);
    ReleasesJustified(cfg, s, acts, last);
    var n := f.rows[run].attemptCount;
    EventsOfRun(f.log, run, |h| - 1);
    if n > 1 {
      var before := EventInLog(f.log, run, |h| - 3);
      ReleasesJustified(cfg, s, acts, before);
      EventsOfRun(f.log, run, |h| - 3);
    }
  }

  lemma {:induction false} EventsOfRun(log: seq<Event>, run: RunId, k: nat)
    requires k < |EventsOf(log, run)|
    ensures EventsOf(log, run)[k].run == run
  {
    var n := |log| - 1;
    if k < |EventsOf(log[..n], run)| {
      EventsOfRun(log[..n], run, k);
    }
  }

  lemma FailedHistory(cfg: Settings, row: TaskRun, h: seq<Event>)
    requires RowMatches(cfg, row, h) && row.status.Failed?
    ensures row.attemptCount >= 1 && |h| == 2 * row.attemptCount
    ensures h[|h| - 1].kind.GaveUp? && h[|h| - 1].attempt == row.attemptCount
    ensures row.attemptCount > 1 ==> h[|h| - 3].kind.Requeued? && h[|h| - 3].attempt == row.attemptCount - 1
  {
    hide Delay;
    assert Releases(h[|h| - 1]);
  }

  // ----- the limit fixed by the settings

  ghost predicate LimitIs(cfg: Settings, config: TaskConfig, m: nat) {
    InForce(config.maxAttempts, cfg.defaultMaxAttempts, m)
  }

  /** The task's limit is `m` wherever it is set, and `run` is only ever reported retryable. */
  ghost predicate FixedLimit(cfg: Settings, acts: seq<Action>, run: RunId, task: TaskId, m: nat) {
    forall i :: 0 <= i < |acts| ==>
      && (acts[i].EditTask? && acts[i].task == task ==> LimitIs(cfg, acts[i].config, m))
      && (acts[i].ReadFailure? && acts[i].run == run ==> acts[i].retryable)
      && (acts[i].Create? && acts[i].run == run ==> acts[i].task == task)
  }

  ghost predicate LimitHolds(cfg: Settings, s: State, run: RunId, task: TaskId, m: nat) {
    && (task in s.tasks ==> LimitIs(cfg, s.tasks[task], m))
    && (run in s.rows ==> s.rows[run].taskId == task && task in s.tasks)
    && ReportsAlike(s, run, m)
  }

  lemma {:induction false} LimitStays(
      cfg: Settings, s: State, acts: seq<Action>, run: RunId, task: TaskId, m: nat)
    requires ValidRun(cfg, s, acts) && FixedLimit(cfg, acts, run, task, m) && LimitHolds(cfg, s, run, task, m)
    ensures LimitHolds(cfg, Final(cfg, s, acts), run, task, m)
    decreases |acts|
  {
    hide Delay;
    if acts != [] {
      var a, rest := acts[0], acts[1..];
      assert FixedLimit(cfg, rest, run, task, m) by {
        assert forall i :: 0 <= i < |rest| ==> rest[i] == acts[i + 1];
      }
      LimitStays(cfg, Apply(cfg, s, a), rest, run, task, m);
    }
  }

  /** With a fixed limit and only retryable failures, a run that fails was tried exactly as
      often as its limit says. */
  lemma FixedLimitIsReached(
      cfg: Settings, s: State, acts: seq<Action>, run: RunId, task: TaskId, m: nat)
    requires Initial(s) && ValidRun(cfg, s, acts) && FixedLimit(cfg, acts, run, task, m)
    requires LimitHolds(cfg, s, run, task, m)
    requires run in Final(cfg, s, acts).rows && Final(cfg, s, acts).rows[run].status.Failed?
    ensures Final(cfg, s, acts).rows[run].attemptCount == if m == 0 then 1 else m
  {
    hide Apply, Initial, InForce;
    LimitStays(cfg, s, acts, run, task, m);
    FailedAfterAllAttempts(cfg, s, acts, run, m);
  }
}

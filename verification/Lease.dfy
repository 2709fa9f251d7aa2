/** The lease protocol as a transition system: claims, heartbeats, completions, reaping
    and edits of task limits act on shared task-run rows through guarded updates, in
    any interleaving and with callers that may present any token. */
module Lease {
  import opened Wrappers
  import opened Powers

  type Time = int
  type Token = nat
  type RunId = nat
  type TaskId = nat

  datatype Status = Pending | Running | Success | Failed

  datatype TaskRun = TaskRun(
    taskId: TaskId, createdAt: Time, status: Status,
    startedAt: Option<Time>, finishedAt: Option<Time>,
    logOutput: Option<string>, errorMessage: Option<string>,
    leaseToken: Option<Token>, leaseExpiresAt: Option<Time>, lastHeartbeatAt: Option<Time>,
    attemptCount: nat, nextRetryAt: Option<Time>)

  datatype TaskConfig = TaskConfig(maxAttempts: Option<nat>, timeoutSeconds: Option<nat>)

  datatype Settings = Settings(
    defaultTimeout: nat, defaultMaxAttempts: nat, retryBaseDelay: nat, retryMaxDelay: nat)

  datatype EventKind = Claimed | Requeued | Succeeded | GaveUp

  /** One entry of the append-only event log.  The token is carried so that the log can
      be read as the history of each lease. */
  datatype Event = Event(run: RunId, kind: EventKind, at: Time, attempt: nat, token: Token)

  /** A caller that has entered a reporting function: the token it presents and the
      clock it read on entry. */
  datatype Call = Call(token: Token, now: Time)

  /** A failure report between its read of the row and its guarded update. */
  datatype FailureRead = FailureRead(
    call: Call, run: RunId, attempt: nat, maxAttempts: nat,
    retryable: bool, error: string, log: Option<string>)

  datatype State = State(
    rows: map<RunId, TaskRun>, tasks: map<TaskId, TaskConfig>, log: seq<Event>, clock: Time,
    /** every token generated or presented so far */
    known: set<Token>,
    calls: set<Call>, reports: set<FailureRead>,
    /** the largest effective limit any failure report has read */
    limitRead: nat)

  datatype Action =
    | Tick(elapsed: nat)
    | Create(run: RunId, task: TaskId)
    | EditTask(task: TaskId, config: TaskConfig)
    | Enter(token: Token)
    | Claim(run: RunId, token: Token, now: Time)
    | Heartbeat(run: RunId, call: Call)
    | Succeed(run: RunId, call: Call, log: Option<string>)
    | ReadFailure(run: RunId, call: Call, retryable: bool, error: string, log: Option<string>)
    | WriteFailure(read: FailureRead)

  /** Python's `x or default`: both a missing and a zero value give the default. */
  function OrDefault(x: Option<nat>, default: nat): nat {
    if x.Some? && x.value != 0 then x.value else default
  }

  /** Backoff after the given attempt, numbered from 1. */
  function Delay(cfg: Settings, attempt: nat): nat
    requires attempt >= 1
  {
    var d := cfg.retryBaseDelay * Pow2(attempt - 1);
    if d < cfg.retryMaxDelay then d else cfg.retryMaxDelay
  }

  function NewRun(task: TaskId, now: Time): TaskRun {
    TaskRun(task, now, Pending, None, None, None, None, None, None, None, 0, None)
  }

  /** The guard of every reporting update: the row is running under this very token. */
  predicate Holds(s: State, run: RunId, token: Token) {
    run in s.rows && s.rows[run].status == Running && s.rows[run].leaseToken == Some(token)
  }

  /** The claim query's condition on a row. */
  predicate Due(row: TaskRun, now: Time) {
    row.status.Pending? && (row.nextRetryAt.None? || row.nextRetryAt.value <= now)
  }

  /** The reaper's condition on a row. */
  predicate Expired(row: TaskRun, now: Time) {
    row.status.Running? && row.leaseExpiresAt.Some? && row.leaseExpiresAt.value < now && row.leaseToken.Some?
  }

  predicate Retries(read: FailureRead) {
    read.retryable && read.attempt < read.maxAttempts
  }

  function ClaimedRow(cfg: Settings, row: TaskRun, timeout: Option<nat>, token: Token, now: Time): TaskRun {
    row.(status := Running, startedAt := Some(now), leaseToken := Some(token),
         leaseExpiresAt := Some(now + OrDefault(timeout, cfg.defaultTimeout)),
         lastHeartbeatAt := Some(now), attemptCount := row.attemptCount + 1)
  }

  function SucceededRow(row: TaskRun, now: Time, log: Option<string>): TaskRun {
    row.(status := Success, finishedAt := Some(now), logOutput := log,
         leaseToken := None, leaseExpiresAt := None)
  }

  function RequeuedRow(row: TaskRun, retryAt: Time, log: Option<string>): TaskRun {
    row.(status := Pending, startedAt := None, finishedAt := None, errorMessage := None,
         logOutput := log, leaseToken := None, leaseExpiresAt := None, nextRetryAt := Some(retryAt))
  }

  function FailedRow(row: TaskRun, now: Time, error: string, log: Option<string>): TaskRun {
    row.(status := Failed, finishedAt := Some(now), errorMessage := Some(error),
         logOutput := log, leaseToken := None, leaseExpiresAt := None)
  }

  function Timeout(s: State, row: TaskRun): Option<nat> {
    if row.taskId in s.tasks then s.tasks[row.taskId].timeoutSeconds else None
  }

  function MaxAttempts(cfg: Settings, s: State, row: TaskRun): nat {
    OrDefault(if row.taskId in s.tasks then s.tasks[row.taskId].maxAttempts else None, cfg.defaultMaxAttempts)
  }

  function Put(s: State, row: TaskRun, e: Event): State {
    s.(rows := s.rows[e.run := row], log := s.log + [e])
  }

  /** When a step can be taken: clocks never run backwards, calls are entered before
      they act, and a generated token is one nobody has used or presented before. */
  predicate Enabled(s: State, a: Action) {
    match a
    case Tick(_) => true
    case Create(run, task) => run !in s.rows && task in s.tasks
    case EditTask(_, _) => true
    case Enter(_) => true
    case Claim(_, token, now) => token !in s.known && now <= s.clock
    case Heartbeat(_, call) => call in s.calls
    case Succeed(_, call, _) => call in s.calls
    case ReadFailure(_, call, _, _, _) => call in s.calls
    case WriteFailure(read) => read in s.reports && read.attempt >= 1
  }

  /** The effect of a step.  A guarded update whose guard fails changes no row and logs
      nothing. */
  function Apply(cfg: Settings, s: State, a: Action): State
    requires Enabled(s, a)
  {
    match a
    case Tick(elapsed) => s.(clock := s.clock + elapsed)
    case Create(run, task) => s.(rows := s.rows[run := NewRun(task, s.clock)])
    case EditTask(task, config) => s.(tasks := s.tasks[task := config])
    case Enter(token) => s.(known := s.known + {token}, calls := s.calls + {Call(token, s.clock)})
    case Claim(run, token, now) =>
      var s' := s.(known := s.known + {token});
      if run in s.rows && s.rows[run].status == Pending then
        var row := s.rows[run];
        Put(s', ClaimedRow(cfg, row, Timeout(s, row), token, now),
            Event(run, Claimed, now, row.attemptCount + 1, token))
      else s'
    case Heartbeat(run, call) =>
      if Holds(s, run, call.token) then
        var row := s.rows[run];
        s.(rows := s.rows[run := row.(
             lastHeartbeatAt := Some(call.now),
             leaseExpiresAt := Some(call.now + OrDefault(Timeout(s, row), cfg.defaultTimeout)))])
      else s
    case Succeed(run, call, log) =>
      if Holds(s, run, call.token) then
        var row := s.rows[run];
        Put(s, SucceededRow(row, call.now, log), Event(run, Succeeded, call.now, row.attemptCount, call.token))
      else s
    case ReadFailure(run, call, retryable, error, log) =>
      if Holds(s, run, call.token) then
        var row := s.rows[run];
        var limit := MaxAttempts(cfg, s, row);
        s.(reports := s.reports + {FailureRead(call, run, row.attemptCount, limit, retryable, error, log)},
           limitRead := if limit > s.limitRead then limit else s.limitRead)
      else s
    case WriteFailure(read) =>
      if Holds(s, read.run, read.call.token) then
        var row, now := s.rows[read.run], read.call.now;
        if Retries(read) then
          Put(s, RequeuedRow(row, now + Delay(cfg, read.attempt), read.log),
              Event(read.run, Requeued, now, read.attempt, read.call.token))
        else
          Put(s, FailedRow(row, now, read.error, read.log),
              Event(read.run, GaveUp, now, read.attempt, read.call.token))
      else s
  }

  // ----- runs

  ghost predicate ValidRun(cfg: Settings, s: State, acts: seq<Action>)
    decreases |acts|
  {
    acts == [] || (Enabled(s, acts[0]) && ValidRun(cfg, Apply(cfg, s, acts[0]), acts[1..]))
  }

  ghost function Final(cfg: Settings, s: State, acts: seq<Action>): State
    requires ValidRun(cfg, s, acts)
    decreases |acts|
  {
    if acts == [] then s else Final(cfg, Apply(cfg, s, acts[0]), acts[1..])
  }

  lemma RunNothing(cfg: Settings, s: State)
    ensures ValidRun(cfg, s, []) && Final(cfg, s, []) == s
  {
  }

  lemma {:induction false} RunOneMore(cfg: Settings, s: State, acts: seq<Action>, a: Action)
    requires ValidRun(cfg, s, acts) && Enabled(Final(cfg, s, acts), a)
    ensures ValidRun(cfg, s, acts + [a])
    ensures Final(cfg, s, acts + [a]) == Apply(cfg, Final(cfg, s, acts), a)
    decreases |acts|
  {
    hide Apply;
    var more := acts + [a];
    if acts == [] {
      assert more == [a] && more[1..] == [];
    } else {
      assert more[0] == acts[0] && more[1..] == acts[1..] + [a];
      RunOneMore(cfg, Apply(cfg, s, acts[0]), acts[1..], a);
    }
  }

  lemma {:induction false} RunConcat(cfg: Settings, s: State, a: seq<Action>, b: seq<Action>)
    requires ValidRun(cfg, s, a) && ValidRun(cfg, Final(cfg, s, a), b)
    ensures ValidRun(cfg, s, a + b)
    ensures Final(cfg, s, a + b) == Final(cfg, Final(cfg, s, a), b)
    decreases |a|
  {
    hide Apply;
    if a == [] {
      assert a + b == b;
    } else {
      assert (a + b)[0] == a[0] && (a + b)[1..] == a[1..] + b;
      RunConcat(cfg, Apply(cfg, s, a[0]), a[1..], b);
    }
  }

  /** No run exists yet and no token has been seen. */
  ghost predicate Initial(s: State) {
    s.rows == map[] && s.log == [] && s.known == {} && s.calls == {} && s.reports == {} && s.limitRead == 0
  }

  // ----- reading the log

  /** The events of one run, in order. */
  function EventsOf(log: seq<Event>, run: RunId): seq<Event> {
    if log == [] then []
    else EventsOf(log[..|log| - 1], run) + if log[|log| - 1].run == run then [log[|log| - 1]] else []
  }

  lemma EventsOfSnoc(log: seq<Event>, e: Event, run: RunId)
    ensures EventsOf(log + [e], run) == EventsOf(log, run) + if e.run == run then [e] else []
  {
    assert (log + [e])[..|log|] == log;
  }
}

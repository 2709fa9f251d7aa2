/** What the lease protocol guarantees over whole runs. */
module LeaseTheorems {
  import opened Wrappers
  import opened Lease
  import opened LeaseInvariant

  // ----- fencing

  /** The token a step presents to a row, for the steps that report on a lease. */
  function Presented(a: Action): Option<(RunId, Token)> {
    match a
    case Heartbeat(run, call) => Some((run, call.token))
    case Succeed(run, call, _) => Some((run, call.token))
    case ReadFailure(run, call, _, _, _) => Some((run, call.token))
    case WriteFailure(read) => Some((read.run, read.call.token))
    case _ => None
  }

  /** A report takes effect only under the row's current token, and then on that row alone. */
  lemma StaleTokenIsInert(cfg: Settings, s: State, a: Action)
    requires Enabled(s, a) && Presented(a).Some?
    ensures var (run, token) := Presented(a).value;
            !Holds(s, run, token) ==> Apply(cfg, s, a) == s
    ensures var (run, token) := Presented(a).value;
            forall id <- s.rows :: id != run ==> id in Apply(cfg, s, a).rows && Apply(cfg, s, a).rows[id] == s.rows[id]
  {
  }

  /** Each lease token is released at most once over any run, and claimed at most once. */
  lemma OneReleasePerToken(cfg: Settings, s: State, acts: seq<Action>, i: nat, j: nat)
    requires Initial(s) && ValidRun(cfg, s, acts)
    requires i < |Final(cfg, s, acts).log| && j < |Final(cfg, s, acts).log|
    requires var log := Final(cfg, s, acts).log;
             log[i].token == log[j].token && (Releases(log[i]) <==> Releases(log[j]))
    ensures i == j
  {
    InvInitially(cfg, s);
    InvAlways(cfg, s, acts);
  }

  /** Once released, a token never again moves a row: it is nobody's lease in any later state. */
  lemma ReleasedTokenIsDead(cfg: Settings, s: State, acts: seq<Action>, i: nat, run: RunId)
    requires Initial(s) && ValidRun(cfg, s, acts)
    requires i < |Final(cfg, s, acts).log| && Releases(Final(cfg, s, acts).log[i])
    ensures !Holds(Final(cfg, s, acts), run, Final(cfg, s, acts).log[i].token)
  {
    InvInitially(cfg, s);
    InvAlways(cfg, s, acts);
  }

  // ----- stale reads

  /** When the guarded update of a failure report takes effect, the attempt count it
      read is still the row's, so the retry decision and the delay are those of the
      current row. */
  lemma StaleReadStillRight(cfg: Settings, s: State, acts: seq<Action>, read: FailureRead)
    requires Initial(s) && ValidRun(cfg, s, acts)
    requires read in Final(cfg, s, acts).reports && Holds(Final(cfg, s, acts), read.run, read.call.token)
    ensures var row := Final(cfg, s, acts).rows[read.run];
            row.attemptCount == read.attempt
            && (Retries(read) <==> read.retryable && row.attemptCount < read.maxAttempts)
  {
    InvInitially(cfg, s);
    InvAlways(cfg, s, acts);
  }

  // ----- reachable rows

  lemma ReachableRow(cfg: Settings, s: State, acts: seq<Action>, id: RunId)
    requires Initial(s) && ValidRun(cfg, s, acts) && id in Final(cfg, s, acts).rows
    ensures RowMatches(cfg, Final(cfg, s, acts).rows[id], EventsOf(Final(cfg, s, acts).log, id))
  {
    hide RowMatches, EventsOf, Apply, TokensSound, CallsSound, ReadsSound, AttemptsBounded;
    InvInitially(cfg, s);
    InvAlways(cfg, s, acts);
  }

  // ----- the table's own constraints

  ghost predicate StatusConstraint(row: TaskRun) {
    || (row.status.Pending? && row.startedAt.None? && row.finishedAt.None? && row.errorMessage.None?)
    || (row.status.Running? && row.startedAt.Some? && row.finishedAt.None?)
    || (row.status.Success? && row.startedAt.Some? && row.finishedAt.Some? && row.errorMessage.None?)
    || (row.status.Failed? && row.startedAt.Some? && row.finishedAt.Some? && row.errorMessage.Some?)
  }

  ghost predicate LeaseConstraint(row: TaskRun) {
    || (row.status.Running? && row.leaseToken.Some? && row.leaseExpiresAt.Some?)
    || (!row.status.Running? && row.leaseToken.None? && row.leaseExpiresAt.None?)
  }

  ghost predicate FinishedAfterStarted(row: TaskRun) {
    row.finishedAt.None? || row.startedAt.None? || row.finishedAt.value >= row.startedAt.value
  }

  lemma MatchingRowMeetsConstraints(cfg: Settings, row: TaskRun, h: seq<Event>)
    requires RowMatches(cfg, row, h)
    ensures StatusConstraint(row) && LeaseConstraint(row) && FinishedAfterStarted(row)
  {
    if row.finishedAt.Some? {
      assert Releases(h[|h| - 1]);
    }
  }

  /** Every reachable row meets the three CHECK constraints of its table. */
  lemma ConstraintsAlwaysHold(cfg: Settings, s: State, acts: seq<Action>, id: RunId)
    requires Initial(s) && ValidRun(cfg, s, acts) && id in Final(cfg, s, acts).rows
    ensures var row := Final(cfg, s, acts).rows[id];
            StatusConstraint(row) && LeaseConstraint(row) && FinishedAfterStarted(row)
  {
    hide *;
    ReachableRow(cfg, s, acts, id);
    MatchingRowMeetsConstraints(cfg, Final(cfg, s, acts).rows[id], EventsOf(Final(cfg, s, acts).log, id));
  }

  // ----- the log determines the row

  /** Replaying a run's events from a new row: every event must fit the state it finds. */
  function Replay(h: seq<Event>): Option<(Status, nat)> {
    if h == [] then Some((Pending, 0))
    else
      match (Replay(h[..|h| - 1]), h[|h| - 1].kind)
      case (Some((Pending, n)), Claimed) => Some((Running, n + 1))
      case (Some((Running, n)), Requeued) => Some((Pending, n))
      case (Some((Running, n)), Succeeded) => Some((Success, n))
      case (Some((Running, n)), GaveUp) => Some((Failed, n))
      case _ => None
  }

  lemma ShapePrefix(h: seq<Event>)
    requires Shape(h) && h != []
    ensures Shape(h[..|h| - 1])
  {
    var p := h[..|h| - 1];
    forall i | 0 <= i < |p|
      ensures p[i] == h[i]
    {
    }
  }

  lemma {:induction false} ReplayShape(h: seq<Event>)
    requires Shape(h)
    ensures Replay(h) == Some((StatusAfter(h), (|h| + 1) / 2))
  {
    if h != [] {
      ShapePrefix(h);
      ReplayShape(h[..|h| - 1]);
    }
  }

  function ClaimCount(h: seq<Event>): nat {
    if h == [] then 0 else ClaimCount(h[..|h| - 1]) + if h[|h| - 1].kind.Claimed? then 1 else 0
  }

  lemma {:induction false} ClaimCountShape(h: seq<Event>)
    requires Shape(h)
    ensures ClaimCount(h) == (|h| + 1) / 2
  {
    if h != [] {
      ShapePrefix(h);
      ClaimCountShape(h[..|h| - 1]);
    }
  }

  /** A run's events are (claimed requeued)* with at most one more claim, itself followed
      by at most one final event. */
  ghost predicate Grammar(h: seq<Event>) {
    forall i :: 0 <= i < |h| ==>
      && (i % 2 == 0 ==> h[i].kind.Claimed?)
      && (i % 2 == 1 && i < |h| - 1 ==> h[i].kind.Requeued?)
      && (i % 2 == 1 ==> !h[i].kind.Claimed?)
  }

  lemma MatchingRowReplays(cfg: Settings, row: TaskRun, h: seq<Event>)
    requires RowMatches(cfg, row, h)
    ensures Grammar(h) && Replay(h) == Some((row.status, row.attemptCount)) && ClaimCount(h) == row.attemptCount
  {
    ReplayShape(h);
    ClaimCountShape(h);
  }

  /** In every reachable state the log alone tells each run's status and attempt count:
      its events follow the grammar, replaying them gives the row, and the number of
      claims is the attempt count. */
  lemma LogDeterminesRow(cfg: Settings, s: State, acts: seq<Action>, id: RunId)
    requires Initial(s) && ValidRun(cfg, s, acts) && id in Final(cfg, s, acts).rows
    ensures var row, h := Final(cfg, s, acts).rows[id], EventsOf(Final(cfg, s, acts).log, id);
            && Grammar(h)
            && Replay(h) == Some((row.status, row.attemptCount))
            && ClaimCount(h) == row.attemptCount
  {
    hide *;
    ReachableRow(cfg, s, acts, id);
    MatchingRowReplays(cfg, Final(cfg, s, acts).rows[id], EventsOf(Final(cfg, s, acts).log, id));
  }

  /** The log only grows. */
  lemma {:induction false} LogAppendOnly(cfg: Settings, s: State, acts: seq<Action>)
    requires ValidRun(cfg, s, acts)
    ensures s.log <= Final(cfg, s, acts).log
    decreases |acts|
  {
    if acts != [] {
      var s' := Apply(cfg, s, acts[0]);
      assert s.log <= s'.log;
      LogAppendOnly(cfg, s', acts[1..]);
    }
  }

  // ----- bounded work

  function AtLeastOne(m: nat): nat {
    if m == 0 then 1 else m
  }

  /** Attempts never exceed the largest limit ever read, however the limit is edited. */
  lemma AttemptsWithinLimits(cfg: Settings, s: State, acts: seq<Action>, id: RunId)
    requires Initial(s) && ValidRun(cfg, s, acts) && id in Final(cfg, s, acts).rows
    ensures Final(cfg, s, acts).rows[id].attemptCount <= AtLeastOne(Final(cfg, s, acts).limitRead)
  {
    InvInitially(cfg, s);
    InvAlways(cfg, s, acts);
  }

  /** No limit in force is above `m`. */
  ghost predicate LimitsAtMost(cfg: Settings, s: State, m: nat) {
    && s.limitRead <= m && cfg.defaultMaxAttempts <= m
    && forall t <- s.tasks :: s.tasks[t].maxAttempts.Some? ==> s.tasks[t].maxAttempts.value <= m
  }

  ghost predicate EditsAtMost(acts: seq<Action>, m: nat) {
    forall i :: 0 <= i < |acts| && acts[i].EditTask? && acts[i].config.maxAttempts.Some?
      ==> acts[i].config.maxAttempts.value <= m
  }

  lemma {:induction false} LimitsStay(cfg: Settings, s: State, acts: seq<Action>, m: nat)
    requires ValidRun(cfg, s, acts) && LimitsAtMost(cfg, s, m) && EditsAtMost(acts, m)
    ensures LimitsAtMost(cfg, Final(cfg, s, acts), m)
    decreases |acts|
  {
    if acts != [] {
      LimitsStep(cfg, s, acts[0], m);
      LimitsStay(cfg, Apply(cfg, s, acts[0]), acts[1..], m);
    }
  }

  lemma LimitsStep(cfg: Settings, s: State, a: Action, m: nat)
    requires Enabled(s, a) && LimitsAtMost(cfg, s, m)
    requires a.EditTask? && a.config.maxAttempts.Some? ==> a.config.maxAttempts.value <= m
    ensures LimitsAtMost(cfg, Apply(cfg, s, a), m)
  {
  }

  /** Under limits of at most `m` a run makes at most 2*max(1, m) transitions in all, and
      one that makes them all is finished. */
  lemma TransitionsBounded(cfg: Settings, s: State, acts: seq<Action>, m: nat, id: RunId)
    requires Initial(s) && ValidRun(cfg, s, acts) && LimitsAtMost(cfg, s, m) && EditsAtMost(acts, m)
    requires id in Final(cfg, s, acts).rows
    ensures |EventsOf(Final(cfg, s, acts).log, id)| <= 2 * AtLeastOne(m)
    ensures |EventsOf(Final(cfg, s, acts).log, id)| == 2 * AtLeastOne(m) ==> Terminal(Final(cfg, s, acts), id)
  {
    hide EventsOf, RowMatches, Apply, TokensSound, CallsSound, ReadsSound;
    InvInitially(cfg, s);
    InvAlways(cfg, s, acts);
    LimitsStay(cfg, s, acts, m);
    var f := Final(cfg, s, acts);
    BoundedHistory(cfg, f.rows[id], EventsOf(f.log, id), m);
  }

  lemma BoundedHistory(cfg: Settings, row: TaskRun, h: seq<Event>, m: nat)
    requires RowMatches(cfg, row, h)
    requires row.attemptCount <= AtLeastOne(m)
    requires row.status.Pending? && row.attemptCount > 0 ==> row.attemptCount < m
    ensures |h| <= 2 * AtLeastOne(m)
    ensures |h| == 2 * AtLeastOne(m) ==> row.status.Success? || row.status.Failed?
  {
    hide Delay;
    if h != [] {
      assert h[|h| - 1].kind.Claimed? <==> (|h| - 1) % 2 == 0;
    }
  }

  ghost predicate Terminal(s: State, id: RunId) {
    id in s.rows && (s.rows[id].status.Success? || s.rows[id].status.Failed?)
  }

  /** A finished run never changes again. */
  lemma {:induction false} TerminalForever(cfg: Settings, s: State, acts: seq<Action>, id: RunId)
    requires ValidRun(cfg, s, acts) && Terminal(s, id)
    ensures Terminal(Final(cfg, s, acts), id) && Final(cfg, s, acts).rows[id] == s.rows[id]
    ensures EventsOf(Final(cfg, s, acts).log, id) == EventsOf(s.log, id)
    decreases |acts|
  {
    if acts != [] {
      TerminalStep(cfg, s, acts[0], id);
      TerminalForever(cfg, Apply(cfg, s, acts[0]), acts[1..], id);
    }
  }

  lemma TerminalStep(cfg: Settings, s: State, a: Action, id: RunId)
    requires Enabled(s, a) && Terminal(s, id)
    ensures Terminal(Apply(cfg, s, a), id) && Apply(cfg, s, a).rows[id] == s.rows[id]
    ensures EventsOf(Apply(cfg, s, a).log, id) == EventsOf(s.log, id)
  {
    hide EventsOf, Delay;
    var s' := Apply(cfg, s, a);
    if s'.log != s.log {
      var e := s'.log[|s.log|];
      assert s'.log == s.log + [e];
      EventsOfSnoc(s.log, e, id);
    }
  }
}

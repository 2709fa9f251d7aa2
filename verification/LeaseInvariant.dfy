/** What every reachable state of the lease protocol satisfies. */
module LeaseInvariant {
  import opened Wrappers
  import opened Lease

  // ----- one run and its history

  /** Claims at the even places, releases at the odd ones; only the last release may be
      final.  Attempts are numbered, a release carries the token of its claim and does
      not come before it. */
  ghost predicate Shape(h: seq<Event>) {
    && (forall i :: 0 <= i < |h| ==> (h[i].kind.Claimed? <==> i % 2 == 0))
    && (forall i :: 0 <= i < |h| - 1 && i % 2 == 1 ==> h[i].kind.Requeued?)
    && (forall i :: 0 <= i < |h| ==> h[i].attempt == i / 2 + 1)
    && (forall i, j :: 0 <= i < j < |h| && j == i + 1 && j % 2 == 1 ==>
          h[i].token == h[j].token && h[i].at <= h[j].at)
  }

  /** The state a history leads to. */
  function StatusAfter(h: seq<Event>): Status {
    if h == [] then Pending
    else match h[|h| - 1].kind
      case Claimed => Running
      case Requeued => Pending
      case Succeeded => Success
      case GaveUp => Failed
  }

  ghost predicate RowMatches(cfg: Settings, row: TaskRun, h: seq<Event>) {
    && Shape(h)
    && row.status == StatusAfter(h)
    && row.attemptCount == (|h| + 1) / 2
    && (row.status.Running? <==> row.leaseToken.Some?)
    && (row.status.Running? <==> row.leaseExpiresAt.Some?)
    && (row.status.Failed? <==> row.errorMessage.Some?)
    && (row.status.Pending? <==> row.startedAt.None?)
    && (row.status.Success? || row.status.Failed? <==> row.finishedAt.Some?)
    && (row.status.Running? ==> row.leaseToken == Some(h[|h| - 1].token) && row.startedAt == Some(h[|h| - 1].at))
    && (row.finishedAt.Some? ==>
          |h| >= 2 && row.startedAt == Some(h[|h| - 2].at) && row.finishedAt == Some(h[|h| - 1].at))
    && (row.status.Pending? && h != [] ==>
          row.nextRetryAt == Some(h[|h| - 1].at + Delay(cfg, h[|h| - 1].attempt)))
    && (h == [] ==> row.nextRetryAt.None?)
  }

  ghost predicate RowsMatch(cfg: Settings, s: State) {
    && (forall id <- s.rows :: RowMatches(cfg, s.rows[id], EventsOf(s.log, id)))
    && (forall i :: 0 <= i < |s.log| ==> s.log[i].run in s.rows)
  }

  // ----- tokens

  predicate Releases(e: Event) {
    !e.kind.Claimed?
  }

  ghost predicate TokensSound(s: State) {
    && (forall i :: 0 <= i < |s.log| ==> s.log[i].token in s.known)
    && (forall i, j :: 0 <= i < j < |s.log| && s.log[i].kind.Claimed? && s.log[j].kind.Claimed?
          ==> s.log[i].token != s.log[j].token)
    && (forall i, j :: 0 <= i < j < |s.log| && Releases(s.log[i]) && Releases(s.log[j])
          ==> s.log[i].token != s.log[j].token)
    && (forall id <- s.rows :: s.rows[id].leaseToken.Some? ==> s.rows[id].leaseToken.value in s.known)
    && (forall id <- s.rows, i | 0 <= i < |s.log| && Releases(s.log[i]) ::
          s.rows[id].leaseToken != Some(s.log[i].token))
    && (forall p <- s.rows, q <- s.rows :: p != q && s.rows[p].leaseToken.Some?
          ==> s.rows[p].leaseToken != s.rows[q].leaseToken)
  }

  // ----- callers

  /** A caller entered after the claim of the token it presents, if there is one. */
  ghost predicate CallsSound(s: State) {
    && (forall i :: 0 <= i < |s.log| ==> s.log[i].at <= s.clock)
    && (forall c <- s.calls :: c.now <= s.clock && c.token in s.known)
    && (forall c <- s.calls, i | 0 <= i < |s.log| && s.log[i].kind.Claimed? && s.log[i].token == c.token ::
          s.log[i].at <= c.now)
  }

  /** What a failure report has read still holds while its token does. */
  ghost predicate ReadsSound(s: State) {
    forall r <- s.reports ::
      && r.call in s.calls && r.attempt >= 1 && r.maxAttempts <= s.limitRead
      && (Holds(s, r.run, r.call.token) ==> s.rows[r.run].attemptCount == r.attempt)
  }

  ghost predicate AttemptsBounded(s: State) {
    forall id <- s.rows ::
      var n := s.rows[id].attemptCount;
      && (n <= 1 || n <= s.limitRead)
      && (s.rows[id].status.Pending? ==> n == 0 || n < s.limitRead)
  }

  ghost predicate Inv(cfg: Settings, s: State) {
    RowsMatch(cfg, s) && TokensSound(s) && CallsSound(s) && ReadsSound(s) && AttemptsBounded(s)
  }

  // ----- rows follow their histories

  lemma RowsMatchPut(cfg: Settings, s: State, row: TaskRun, e: Event)
    requires RowsMatch(cfg, s) && e.run in s.rows
    requires RowMatches(cfg, row, EventsOf(s.log, e.run) + [e])
    ensures RowsMatch(cfg, Put(s, row, e))
  {
    hide RowMatches;
    var s' := Put(s, row, e);
    forall id <- s'.rows
      ensures RowMatches(cfg, s'.rows[id], EventsOf(s'.log, id))
    {
      EventsOfSnoc(s.log, e, id);
      if id != e.run {
        assert EventsOf(s'.log, id) == EventsOf(s.log, id);
      }
    }
  }

  lemma ClaimMatches(cfg: Settings, row: TaskRun, h: seq<Event>, timeout: Option<nat>, e: Event)
    requires RowMatches(cfg, row, h) && row.status.Pending?
    requires e.kind.Claimed? && e.attempt == row.attemptCount + 1
    ensures RowMatches(cfg, ClaimedRow(cfg, row, timeout, e.token, e.at), h + [e])
  {
    hide Delay;
    assert |h| % 2 == 0;
  }

  lemma RunningIsOdd(cfg: Settings, row: TaskRun, h: seq<Event>)
    requires RowMatches(cfg, row, h) && row.status.Running?
    ensures |h| % 2 == 1 && row.attemptCount == (|h| + 1) / 2
    ensures row.leaseToken == Some(h[|h| - 1].token)
  {
    hide Delay;
    assert h[|h| - 1].kind.Claimed?;
  }

  lemma ShapeRelease(h: seq<Event>, e: Event)
    requires Shape(h) && |h| % 2 == 1 && Releases(e) && e.attempt == (|h| + 1) / 2
    requires e.token == h[|h| - 1].token && h[|h| - 1].at <= e.at
    ensures Shape(h + [e])
  {
    var g := h + [e];
    forall i | 0 <= i < |g|
      ensures g[i] == if i < |h| then h[i] else e
    {
    }
  }

  /** The row after a release event. */
  function ReleasedRow(cfg: Settings, row: TaskRun, e: Event, error: string, log: Option<string>): TaskRun
    requires e.attempt >= 1
  {
    match e.kind
    case Requeued => RequeuedRow(row, e.at + Delay(cfg, e.attempt), log)
    case GaveUp => FailedRow(row, e.at, error, log)
    case _ => SucceededRow(row, e.at, log)
  }

  lemma ReleaseMatches(cfg: Settings, row: TaskRun, h: seq<Event>, e: Event, error: string, log: Option<string>)
    requires RowMatches(cfg, row, h) && row.status.Running?
    requires Releases(e) && row.leaseToken == Some(e.token) && e.attempt == row.attemptCount >= 1
    requires h[|h| - 1].at <= e.at
    ensures RowMatches(cfg, ReleasedRow(cfg, row, e, error, log), h + [e])
  {
    hide Delay, Shape;
    RunningIsOdd(cfg, row, h);
    ShapeRelease(h, e);
  }

  /** The claim behind a running row, as an entry of the whole log. */
  lemma {:induction false} LastEventInLog(log: seq<Event>, run: RunId) returns (i: nat)
    requires EventsOf(log, run) != []
    ensures i < |log| && log[i] == EventsOf(log, run)[|EventsOf(log, run)| - 1]
  {
    if log[|log| - 1].run == run {
      i := |log| - 1;
    } else {
      i := LastEventInLog(log[..|log| - 1], run);
    }
  }

  /** Whoever holds a lease entered after it was claimed. */
  lemma HolderEnteredLater(cfg: Settings, s: State, run: RunId, call: Call)
    requires RowsMatch(cfg, s) && CallsSound(s) && Holds(s, run, call.token) && call in s.calls
    ensures EventsOf(s.log, run) != []
    ensures EventsOf(s.log, run)[|EventsOf(s.log, run)| - 1].at <= call.now
  {
    var h := EventsOf(s.log, run);
    assert RowMatches(cfg, s.rows[run], h);
    var i := LastEventInLog(s.log, run);
  }

  lemma RowsMatchStep(cfg: Settings, s: State, a: Action)
    requires RowsMatch(cfg, s) && CallsSound(s) && ReadsSound(s) && Enabled(s, a)
    ensures RowsMatch(cfg, Apply(cfg, s, a))
  {
    match a
    case Create(run, task) => CreateMatches(cfg, s, run, task);
    case Claim(run, token, now) => ClaimStepMatches(cfg, s, run, token, now);
    case Heartbeat(run, call) => HeartbeatMatches(cfg, s, run, call);
    case Succeed(run, call, log) => SucceedMatches(cfg, s, run, call, log);
    case WriteFailure(read) => WriteMatches(cfg, s, read);
    case _ =>
  }

  lemma {:induction false} NoEventsWithoutRow(log: seq<Event>, run: RunId)
    requires forall i :: 0 <= i < |log| ==> log[i].run != run
    ensures EventsOf(log, run) == []
  {
    if log != [] {
      NoEventsWithoutRow(log[..|log| - 1], run);
    }
  }

  lemma CreateMatches(cfg: Settings, s: State, run: RunId, task: TaskId)
    requires RowsMatch(cfg, s) && run !in s.rows
    ensures RowsMatch(cfg, s.(rows := s.rows[run := NewRun(task, s.clock)]))
  {
    NoEventsWithoutRow(s.log, run);
  }

  lemma ClaimStepMatches(cfg: Settings, s: State, run: RunId, token: Token, now: Time)
    requires RowsMatch(cfg, s) && Enabled(s, Claim(run, token, now))
    ensures RowsMatch(cfg, Apply(cfg, s, Claim(run, token, now)))
  {
    hide RowMatches, EventsOf, ClaimedRow;
    if run in s.rows && s.rows[run].status == Pending {
      var row, h := s.rows[run], EventsOf(s.log, run);
      var e := Event(run, Claimed, now, row.attemptCount + 1, token);
      ClaimMatches(cfg, row, h, Timeout(s, row), e);
      RowsMatchPut(cfg, s.(known := s.known + {token}), ClaimedRow(cfg, row, Timeout(s, row), token, now), e);
    }
  }

  lemma RenewedMatches(cfg: Settings, row: TaskRun, h: seq<Event>, beat: Time, expiry: Time)
    requires RowMatches(cfg, row, h) && row.status.Running?
    ensures RowMatches(cfg, row.(lastHeartbeatAt := Some(beat), leaseExpiresAt := Some(expiry)), h)
  {
  }

  lemma HeartbeatMatches(cfg: Settings, s: State, run: RunId, call: Call)
    requires RowsMatch(cfg, s) && Enabled(s, Heartbeat(run, call))
    ensures RowsMatch(cfg, Apply(cfg, s, Heartbeat(run, call)))
  {
    hide RowMatches, EventsOf;
    if Holds(s, run, call.token) {
      var row := s.rows[run];
      RenewedMatches(cfg, row, EventsOf(s.log, run), call.now,
                     call.now + OrDefault(Timeout(s, row), cfg.defaultTimeout));
    }
  }

  lemma HolderAttempts(cfg: Settings, row: TaskRun, h: seq<Event>)
    requires RowMatches(cfg, row, h) && row.status.Running?
    ensures row.attemptCount >= 1
  {
  }

  lemma SucceedMatches(cfg: Settings, s: State, run: RunId, call: Call, log: Option<string>)
    requires RowsMatch(cfg, s) && CallsSound(s) && Enabled(s, Succeed(run, call, log))
    ensures RowsMatch(cfg, Apply(cfg, s, Succeed(run, call, log)))
  {
    hide RowMatches, EventsOf, SucceededRow;
    if Holds(s, run, call.token) {
      var row, h := s.rows[run], EventsOf(s.log, run);
      var e := Event(run, Succeeded, call.now, row.attemptCount, call.token);
      HolderEnteredLater(cfg, s, run, call);
      HolderAttempts(cfg, row, h);
      ReleaseMatches(cfg, row, h, e, "", log);
      RowsMatchPut(cfg, s, SucceededRow(row, call.now, log), e);
    }
  }

  lemma WriteMatches(cfg: Settings, s: State, read: FailureRead)
    requires RowsMatch(cfg, s) && CallsSound(s) && ReadsSound(s) && Enabled(s, WriteFailure(read))
    ensures RowsMatch(cfg, Apply(cfg, s, WriteFailure(read)))
  {
    hide RowMatches, EventsOf, RequeuedRow, FailedRow, Delay;
    if Holds(s, read.run, read.call.token) {
      var row, h, now := s.rows[read.run], EventsOf(s.log, read.run), read.call.now;
      HolderEnteredLater(cfg, s, read.run, read.call);
      var e := Event(read.run, if Retries(read) then Requeued else GaveUp, now, read.attempt, read.call.token);
      ReleaseMatches(cfg, row, h, e, read.error, read.log);
      RowsMatchPut(cfg, s, ReleasedRow(cfg, row, e, read.error, read.log), e);
    }
  }

  // ----- the other parts

  lemma TokensClaim(s: State, row: TaskRun, e: Event)
    requires TokensSound(s) && e.run in s.rows && e.kind.Claimed?
    requires e.token !in s.known && row.leaseToken == Some(e.token)
    ensures TokensSound(Put(s.(known := s.known + {e.token}), row, e))
  {
  }

  lemma TokensRelease(s: State, row: TaskRun, e: Event)
    requires TokensSound(s) && e.run in s.rows && Releases(e)
    requires s.rows[e.run].leaseToken == Some(e.token) && row.leaseToken.None?
    ensures TokensSound(Put(s, row, e))
  {
  }

  /** Steps that leave the log and every lease token alone. */
  lemma TokensKept(s: State, s': State)
    requires TokensSound(s) && s'.log == s.log && s.known <= s'.known && s.rows.Keys <= s'.rows.Keys
    requires forall id <- s'.rows ::
      s'.rows[id].leaseToken == if id in s.rows then s.rows[id].leaseToken else None
    ensures TokensSound(s')
  {
  }

  lemma TokensSoundStep(cfg: Settings, s: State, a: Action)
    requires TokensSound(s) && Enabled(s, a)
    ensures TokensSound(Apply(cfg, s, a))
  {
    hide TokensSound;
    var s' := Apply(cfg, s, a);
    match a
    case Claim(run, token, now) =>
      if run in s.rows && s.rows[run].status == Pending {
        TokensClaim(s, s'.rows[run], s'.log[|s.log|]);
      } else {
        TokensKept(s, s');
      }
    case Succeed(run, call, log) =>
      if Holds(s, run, call.token) {
        TokensRelease(s, s'.rows[run], s'.log[|s.log|]);
      }
    case WriteFailure(read) =>
      if Holds(s, read.run, read.call.token) {
        TokensRelease(s, s'.rows[read.run], s'.log[|s.log|]);
      }
    case _ => TokensKept(s, s');
  }

  lemma CallsSoundStep(cfg: Settings, s: State, a: Action)
    requires TokensSound(s) && CallsSound(s) && ReadsSound(s) && Enabled(s, a)
    ensures CallsSound(Apply(cfg, s, a))
  {
  }

  lemma ReadsSoundStep(cfg: Settings, s: State, a: Action)
    requires RowsMatch(cfg, s) && TokensSound(s) && CallsSound(s) && ReadsSound(s) && Enabled(s, a)
    ensures ReadsSound(Apply(cfg, s, a))
  {
    hide EventsOf, Delay, Shape;
  }

  lemma AttemptsBoundedStep(cfg: Settings, s: State, a: Action)
    requires ReadsSound(s) && AttemptsBounded(s) && Enabled(s, a)
    ensures AttemptsBounded(Apply(cfg, s, a))
  {
  }

  lemma InvStep(cfg: Settings, s: State, a: Action)
    requires Inv(cfg, s) && Enabled(s, a)
    ensures Inv(cfg, Apply(cfg, s, a))
  {
    hide RowsMatch, TokensSound, CallsSound, ReadsSound, AttemptsBounded, Apply;
    RowsMatchStep(cfg, s, a);
    TokensSoundStep(cfg, s, a);
    CallsSoundStep(cfg, s, a);
    ReadsSoundStep(cfg, s, a);
    AttemptsBoundedStep(cfg, s, a);
  }

  /** The invariant holds after every run, from any state with no runs yet. */
  lemma {:induction false} InvAlways(cfg: Settings, s: State, acts: seq<Action>)
    requires Inv(cfg, s) && ValidRun(cfg, s, acts)
    ensures Inv(cfg, Final(cfg, s, acts))
    decreases |acts|
  {
    hide Inv, Apply;
    if acts != [] {
      InvStep(cfg, s, acts[0]);
      InvAlways(cfg, Apply(cfg, s, acts[0]), acts[1..]);
    }
  }

  lemma InvInitially(cfg: Settings, s: State)
    requires Initial(s)
    ensures Inv(cfg, s)
  {
  }

  lemma RunningHasAttempt(cfg: Settings, s: State, run: RunId)
    requires Inv(cfg, s) && run in s.rows && s.rows[run].status.Running?
    ensures s.rows[run].attemptCount >= 1
  {
    HolderAttempts(cfg, s.rows[run], EventsOf(s.log, run));
  }

  /** As long as its lease is current, a report has read the row's attempt count. */
  lemma ReadStillRight(cfg: Settings, s: State, read: FailureRead)
    requires Inv(cfg, s) && read in s.reports && Holds(s, read.run, read.call.token)
    ensures s.rows[read.run].attemptCount == read.attempt
  {
  }
}

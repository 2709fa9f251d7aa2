/** The engine in its imperative form: a store of task runs and the functions that
    claim, renew, complete, requeue and reap them, each proved to be a sequence of
    protocol steps. */
module LeaseEngine {
  import opened Wrappers
  import opened Lease
  import opened LeaseInvariant
  import opened LeaseBackoff
  import opened LeaseOutcomes

  datatype Outcome = Done | LeaseLost

  ghost function DueRuns(s: State, now: Time): set<RunId> {
    set id | id in s.rows && Due(s.rows[id], now)
  }

  /** The steps of one failure report made without interruption. */
  ghost function FailureReport(
    cfg: Settings, s: State, run: RunId, token: Token, error: string, retryable: bool, log: Option<string>): State
    requires Inv(cfg, s)
  {
    var s1 := Apply(cfg, s, Enter(token));
    InvStep(cfg, s, Enter(token));
    var call := Call(token, s.clock);
    var s2 := Apply(cfg, s1, ReadFailure(run, call, retryable, error, log));
    InvStep(cfg, s1, ReadFailure(run, call, retryable, error, log));
    if Holds(s1, run, token) then
      var row := s1.rows[run];
      var read := FailureRead(call, run, row.attemptCount, MaxAttempts(cfg, s1, row), retryable, error, log);
      assert read in s2.reports;
      Apply(cfg, s2, WriteFailure(read))
    else s2
  }

  /** `claimed` is the first `batch` of the due runs in order of creation. */
  ghost predicate OldestFirst(s: State, now: Time, batch: nat, claimed: seq<RunId>) {
    && (forall i :: 0 <= i < |claimed| ==> claimed[i] in DueRuns(s, now))
    && (forall i, j :: 0 <= i < j < |claimed| ==>
          claimed[i] != claimed[j] && s.rows[claimed[i]].createdAt <= s.rows[claimed[j]].createdAt)
    && (forall i, id | 0 <= i < |claimed| && id in DueRuns(s, now) && id !in claimed ::
          s.rows[claimed[i]].createdAt <= s.rows[id].createdAt)
    && |claimed| <= batch
    && (|claimed| < batch ==> forall id <- DueRuns(s, now) :: id in claimed)
  }

  /** The run goes back to pending if it is to be tried `again`, and fails for good
      otherwise; one event says so, and no other row changes. */
  ghost predicate RunEnds(
    before: map<RunId, TaskRun>, after: map<RunId, TaskRun>, log: seq<Event>, log': seq<Event>, run: RunId, again: bool)
  {
    && run in before && run in after && after == before[run := after[run]]
    && after[run].status == (if again then Pending else Failed)
    && after[run].attemptCount == before[run].attemptCount
    && |log'| == |log| + 1 && log'[..|log|] == log
    && log'[|log|].run == run && log'[|log|].kind == (if again then Requeued else GaveUp)
  }

  /** A run taken off its worker is tried again exactly if its attempts are below the limit
      in force, and is given up otherwise. */
  ghost predicate Reaped(cfg: Settings, tasks: map<TaskId, TaskConfig>, before: TaskRun, after: TaskRun) {
    && after.attemptCount == before.attemptCount
    && forall limit: nat :: InForce(ConfigOf(tasks, before).maxAttempts, cfg.defaultMaxAttempts, limit) ==>
         after.status == if before.attemptCount < limit then Pending else Failed
  }

  /** A claimed run: leased under the token for the timeout in force, one attempt more. */
  ghost predicate Leased(
    cfg: Settings, tasks: map<TaskId, TaskConfig>, before: TaskRun, after: TaskRun, token: Token, now: Time)
  {
    && before.status.Pending?
    && exists timeout: nat ::
         && InForce(ConfigOf(tasks, before).timeoutSeconds, cfg.defaultTimeout, timeout)
         && after == before.(status := Running, startedAt := Some(now), leaseToken := Some(token),
                             leaseExpiresAt := Some(now + timeout), lastHeartbeatAt := Some(now),
                             attemptCount := before.attemptCount + 1)
  }

  predicate Announces(e: Event, run: RunId, token: Token, now: Time) {
    e.kind.Claimed? && e.run == run && e.token == token && e.at == now
  }

  /** The claimed runs are leased in order, each with its event, and nothing else changes. */
  ghost predicate BatchLeased(
    cfg: Settings, s: State, f: State, claimed: seq<RunId>, tokens: seq<Token>, now: Time)
    requires |claimed| <= |tokens|
  {
    && f.rows.Keys == s.rows.Keys && f.tasks == s.tasks && f.clock == s.clock
    && |f.log| == |s.log| + |claimed| && f.log[..|s.log|] == s.log
    && (forall id <- s.rows :: id !in claimed ==> f.rows[id] == s.rows[id])
    && forall i :: 0 <= i < |claimed| ==>
         && claimed[i] in s.rows
         && Leased(cfg, s.tasks, s.rows[claimed[i]], f.rows[claimed[i]], tokens[i], now)
         && Announces(f.log[|s.log| + i], claimed[i], tokens[i], now)
  }

  lemma ClaimLeases(cfg: Settings, s: State, run: RunId, token: Token, now: Time)
    requires Enabled(s, Claim(run, token, now)) && run in s.rows && s.rows[run].status.Pending?
    ensures var s' := Apply(cfg, s, Claim(run, token, now));
            && s'.rows == s.rows[run := s'.rows[run]] && s'.tasks == s.tasks && s'.clock == s.clock
            && Leased(cfg, s.tasks, s.rows[run], s'.rows[run], token, now)
            && |s'.log| == |s.log| + 1 && s'.log[..|s.log|] == s.log && Announces(s'.log[|s.log|], run, token, now)
  {
    var own := ConfigOf(s.tasks, s.rows[run]).timeoutSeconds;
    assert InForce(own, cfg.defaultTimeout, OrDefault(own, cfg.defaultTimeout));
  }

  lemma {:induction false} BatchEffect(cfg: Settings, s: State, claimed: seq<RunId>, tokens: seq<Token>, now: Time)
    requires |claimed| <= |tokens| && ValidRun(cfg, s, Claims(claimed, tokens, now))
    requires forall i :: 0 <= i < |claimed| ==> claimed[i] in s.rows && s.rows[claimed[i]].status.Pending?
    requires forall i, j :: 0 <= i < j < |claimed| ==> claimed[i] != claimed[j]
    ensures BatchLeased(cfg, s, Final(cfg, s, Claims(claimed, tokens, now)), claimed, tokens, now)
    decreases |claimed|
  {
    hide Apply, Leased, Enabled, Announces;
    var acts := Claims(claimed, tokens, now);
    if claimed != [] {
      var s' := Apply(cfg, s, acts[0]);
      ClaimLeases(cfg, s, claimed[0], tokens[0], now);
      assert acts[1..] == Claims(claimed[1..], tokens[1..], now);
      BatchEffect(cfg, s', claimed[1..], tokens[1..], now);
      BatchCons(cfg, s, s', Final(cfg, s, acts), claimed, tokens, now);
    }
  }

  lemma BatchCons(
      cfg: Settings, s: State, mid: State, f: State, claimed: seq<RunId>, tokens: seq<Token>, now: Time)
    requires 0 < |claimed| <= |tokens| && claimed[0] in s.rows
    requires forall i, j :: 0 <= i < j < |claimed| ==> claimed[i] != claimed[j]
    requires claimed[0] in mid.rows && mid.rows == s.rows[claimed[0] := mid.rows[claimed[0]]]
    requires mid.tasks == s.tasks && mid.clock == s.clock
    requires Leased(cfg, s.tasks, s.rows[claimed[0]], mid.rows[claimed[0]], tokens[0], now)
    requires |mid.log| == |s.log| + 1 && mid.log[..|s.log|] == s.log
    requires Announces(mid.log[|s.log|], claimed[0], tokens[0], now)
    requires BatchLeased(cfg, mid, f, claimed[1..], tokens[1..], now)
    ensures BatchLeased(cfg, s, f, claimed, tokens, now)
  {
    hide Leased, Announces;
    var rest, others := claimed[1..], tokens[1..];
    assert f.log[..|s.log|] == f.log[..|mid.log|][..|s.log|];
    assert f.log[|s.log|] == f.log[..|mid.log|][|s.log|];
    forall i | 0 <= i < |claimed|
      ensures claimed[i] in s.rows
      ensures Leased(cfg, s.tasks, s.rows[claimed[i]], f.rows[claimed[i]], tokens[i], now)
      ensures Announces(f.log[|s.log| + i], claimed[i], tokens[i], now)
    {
      if i > 0 {
        assert rest[i - 1] == claimed[i] && others[i - 1] == tokens[i];
      } else {
        assert claimed[0] !in rest;
      }
    }
  }

  /** The claim steps of a batch. */
  ghost function Claims(claimed: seq<RunId>, tokens: seq<Token>, now: Time): seq<Action>
    requires |claimed| <= |tokens|
  {
    seq(|claimed|, i requires 0 <= i < |claimed| => Claim(claimed[i], tokens[i], now))
  }

  class TaskRunStore {
    const cfg: Settings
    var rows: map<RunId, TaskRun>
    var tasks: map<TaskId, TaskConfig>
    var log: seq<Event>
    var clock: Time
    ghost var known: set<Token>
    ghost var calls: set<Call>
    ghost var reports: set<FailureRead>
    ghost var limitRead: nat

    ghost function State(): State
      reads this
    {
      Lease.State(rows, tasks, log, clock, known, calls, reports, limitRead)
    }

    constructor (cfg: Settings, tasks: map<TaskId, TaskConfig>, clock: Time)
      ensures this.cfg == cfg && this.tasks == tasks && this.clock == clock
      ensures Initial(State()) && Inv(cfg, State())
    {
      this.cfg, this.tasks, this.clock := cfg, tasks, clock;
      rows, log, known, calls, reports, limitRead := map[], [], {}, {}, {}, 0;
      new;
      InvInitially(cfg, State());
    }

    ghost method Enter(token: Token)
      requires Inv(cfg, State())
      modifies this`known, this`calls
      ensures State() == Apply(cfg, old(State()), Lease.Enter(token)) && Inv(cfg, State())
    {
      InvStep(cfg, State(), Lease.Enter(token));
      known, calls := known + {token}, calls + {Call(token, clock)};
    }

    method Heartbeat(run: RunId, token: Token) returns (r: Outcome)
      requires Inv(cfg, State())
      modifies this
      ensures State() == Apply(cfg, Apply(cfg, old(State()), Lease.Enter(token)),
                               Lease.Heartbeat(run, Call(token, old(clock))))
      ensures Inv(cfg, State())
      ensures r.Done? <==> old(Holds(State(), run, token))
      ensures r.Done? ==> run in old(rows) && log == old(log)
      ensures r.Done? ==> forall n: nat ::
        InForce(ConfigOf(tasks, old(rows)[run]).timeoutSeconds, cfg.defaultTimeout, n) ==>
        rows == old(rows)[run := old(rows)[run].(lastHeartbeatAt := Some(clock), leaseExpiresAt := Some(clock + n))]
      ensures r.LeaseLost? ==> rows == old(rows) && log == old(log)
    {
      hide Inv;
      Enter(token);
      InvStep(cfg, State(), Lease.Heartbeat(run, Call(token, clock)));
      if run in rows && rows[run].status == Running && rows[run].leaseToken == Some(token) {
        var row := rows[run];
        var timeout := if row.taskId in tasks then tasks[row.taskId].timeoutSeconds else None;
        var expiry := clock + OrDefault(timeout, cfg.defaultTimeout);
        rows := rows[run := row.(lastHeartbeatAt := Some(clock), leaseExpiresAt := Some(expiry))];
        return Done;
      }
      return LeaseLost;
    }

    method CompleteSuccess(run: RunId, token: Token, logOutput: Option<string>) returns (r: Outcome)
      requires Inv(cfg, State())
      modifies this
      ensures State() == Apply(cfg, Apply(cfg, old(State()), Lease.Enter(token)),
                               Succeed(run, Call(token, old(clock)), logOutput))
      ensures Inv(cfg, State())
      ensures r.Done? <==> old(Holds(State(), run, token))
      ensures r.Done? ==> run in old(rows)
      ensures r.Done? ==> rows == old(rows)[run := old(rows)[run].(
        status := Success, finishedAt := Some(clock), logOutput := logOutput,
        leaseToken := None, leaseExpiresAt := None)]
      ensures r.Done? ==> log == old(log) + [Event(run, Succeeded, clock, old(rows)[run].attemptCount, token)]
      ensures r.LeaseLost? ==> rows == old(rows) && log == old(log)
    {
      hide Inv;
      Enter(token);
      InvStep(cfg, State(), Succeed(run, Call(token, clock), logOutput));
      if run in rows && rows[run].status == Running && rows[run].leaseToken == Some(token) {
        var row := rows[run];
        rows := rows[run := row.(status := Success, finishedAt := Some(clock), logOutput := logOutput,
                                 leaseToken := None, leaseExpiresAt := None)];
        log := log + [Event(run, Succeeded, clock, row.attemptCount, token)];
        return Done;
      }
      return LeaseLost;
    }

    /** The guarded update that ends a failure report, after its read. */
    method WriteFailure(read: FailureRead) returns (r: Outcome)
      requires Inv(cfg, State()) && read in reports && read.attempt >= 1
      modifies this`rows, this`log
      ensures State() == Apply(cfg, old(State()), Lease.WriteFailure(read)) && Inv(cfg, State())
      ensures r.Done? <==> old(Holds(State(), read.run, read.call.token))
      ensures r.Done? ==> read.run in old(rows) && RunEnds(
        old(rows), rows, old(log), log, read.run, read.retryable && old(rows)[read.run].attemptCount < read.maxAttempts)
      ensures r.LeaseLost? ==> rows == old(rows) && log == old(log)
    {
      hide Inv, Delay;
      InvStep(cfg, State(), Lease.WriteFailure(read));
      var run, now := read.run, read.call.now;
      if run !in rows || rows[run].leaseToken != Some(read.call.token) || rows[run].status != Running {
        return LeaseLost;
      }
      ReadStillRight(cfg, State(), read);
      var row := rows[run];
      if read.retryable && read.attempt < read.maxAttempts {
        rows := rows[run := row.(status := Pending, startedAt := None, finishedAt := None, errorMessage := None,
                                 logOutput := read.log, leaseToken := None, leaseExpiresAt := None,
                                 nextRetryAt := Some(now + Delay(cfg, read.attempt)))];
        log := log + [Event(run, Requeued, now, read.attempt, read.call.token)];
      } else {
        rows := rows[run := row.(status := Failed, finishedAt := Some(now), errorMessage := Some(read.error),
                                 logOutput := read.log, leaseToken := None, leaseExpiresAt := None)];
        log := log + [Event(run, GaveUp, now, read.attempt, read.call.token)];
      }
      return Done;
    }

    method CompleteFailure(run: RunId, token: Token, error: string, retryable: bool, logOutput: Option<string>)
      returns (r: Outcome)
      requires Inv(cfg, State())
      modifies this
      ensures State() == FailureReport(cfg, old(State()), run, token, error, retryable, logOutput)
      ensures Inv(cfg, State())
      ensures r.Done? <==> old(Holds(State(), run, token))
      ensures r.Done? ==> run in old(rows) && forall limit: nat ::
        InForce(ConfigOf(tasks, old(rows)[run]).maxAttempts, cfg.defaultMaxAttempts, limit) ==>
          RunEnds(old(rows), rows, old(log), log, run, retryable && old(rows)[run].attemptCount < limit)
      ensures r.LeaseLost? ==> rows == old(rows) && log == old(log)
      ensures tasks == old(tasks) && clock == old(clock)
    {
      hide Inv, Delay;
      Enter(token);
      var call := Call(token, clock);
      InvStep(cfg, State(), ReadFailure(run, call, retryable, error, logOutput));
      if run !in rows || rows[run].leaseToken != Some(token) || rows[run].status != Running {
        return LeaseLost;
      }
      var row := rows[run];
      var limit := OrDefault(if row.taskId in tasks then tasks[row.taskId].maxAttempts else None,
                             cfg.defaultMaxAttempts);
      var read := FailureRead(call, run, row.attemptCount, limit, retryable, error, logOutput);
      reports, limitRead := reports + {read}, if limit > limitRead then limit else limitRead;
      RunningHasAttempt(cfg, State(), run);
      r := WriteFailure(read);
    }

    /** The oldest due run not yet taken, if any. */
    method NextCandidate(now: Time, taken: seq<RunId>) returns (next: Option<RunId>)
      ensures next.Some? ==> next.value in rows && Due(rows[next.value], now) && next.value !in taken
      ensures next.Some? ==> forall id <- rows :: Due(rows[id], now) && id !in taken ==>
                rows[next.value].createdAt <= rows[id].createdAt
      ensures next.None? ==> forall id <- rows :: Due(rows[id], now) ==> id in taken
    {
      next := None;
      var rest := rows.Keys;
      while rest != {}
        invariant rest <= rows.Keys
        invariant next.Some? ==> next.value in rows && Due(rows[next.value], now) && next.value !in taken
        invariant next.Some? ==> forall id <- rows.Keys - rest :: Due(rows[id], now) && id !in taken ==>
                    rows[next.value].createdAt <= rows[id].createdAt
        invariant next.None? ==> forall id <- rows.Keys - rest :: Due(rows[id], now) ==> id in taken
      {
        var id :| id in rest;
        rest := rest - {id};
        if Due(rows[id], now) && id !in taken
           && (next.None? || rows[id].createdAt < rows[next.value].createdAt) {
          next := Some(id);
        }
      }
    }

    /** The candidate query: due runs, oldest first, at most `batch`. */
    method Candidates(now: Time, batch: nat) returns (candidates: seq<RunId>)
      ensures OldestFirst(State(), now, batch, candidates)
    {
      candidates := [];
      while |candidates| < batch
        invariant |candidates| <= batch
        invariant forall i :: 0 <= i < |candidates| ==> candidates[i] in DueRuns(State(), now)
        invariant forall i, j :: 0 <= i < j < |candidates| ==>
          candidates[i] != candidates[j] && rows[candidates[i]].createdAt <= rows[candidates[j]].createdAt
        invariant forall i, id | 0 <= i < |candidates| && id in DueRuns(State(), now) && id !in candidates ::
          rows[candidates[i]].createdAt <= rows[id].createdAt
      {
        var next := NextCandidate(now, candidates);
        if next.None? {
          return;
        }
        assert next.value in DueRuns(State(), now);
        candidates := candidates + [next.value];
      }
    }

    /** `claim_batch`.  The fresh tokens it would generate are passed in. */
    method ClaimBatch(batch: nat, tokens: seq<Token>) returns (claimed: seq<RunId>)
      requires Inv(cfg, State()) && |tokens| >= batch
      requires forall i :: 0 <= i < |tokens| ==> tokens[i] !in known
      requires forall i, j :: 0 <= i < j < |tokens| ==> tokens[i] != tokens[j]
      modifies this`rows, this`log, this`known
      ensures Inv(cfg, State())
      ensures OldestFirst(old(State()), clock, batch, claimed)
      ensures ValidRun(cfg, old(State()), Claims(claimed, tokens, clock))
      ensures State() == Final(cfg, old(State()), Claims(claimed, tokens, clock))
      ensures BatchLeased(cfg, old(State()), State(), claimed, tokens, clock)
      ensures LockingRun(cfg, old(State()), Claims(claimed, tokens, clock))
      ensures RowAtomicRun(cfg, old(State()), Claims(claimed, tokens, clock))
    {
      hide Inv, ValidRun, Final, OldestFirst, RowAtomicRun, LockingRun, BatchLeased;
      var now := clock;
      var candidates := Candidates(now, batch);
      CandidatesPending(State(), now, batch, candidates);
      claimed := [];
      RunNothing(cfg, State());
      assert Claims([], tokens, now) == [];
      for i := 0 to |candidates|
        invariant Inv(cfg, State()) && clock == now && claimed == candidates[..i]
        invariant ValidRun(cfg, old(State()), Claims(claimed, tokens, now))
        invariant State() == Final(cfg, old(State()), Claims(claimed, tokens, now))
        invariant forall j :: i <= j < |candidates| ==> candidates[j] in rows && rows[candidates[j]].status.Pending?
        invariant forall j :: i <= j < |tokens| ==> tokens[j] !in known
      {
        var id, token := candidates[i], tokens[i];
        InvStep(cfg, State(), Claim(id, token, now));
        RunOneMore(cfg, old(State()), Claims(claimed, tokens, now), Claim(id, token, now));
        assert Claims(claimed + [id], tokens, now) == Claims(claimed, tokens, now) + [Claim(id, token, now)];
        var row := rows[id];
        var timeout := if row.taskId in tasks then tasks[row.taskId].timeoutSeconds else None;
        known := known + {token};
        if row.status != Pending {
          continue;
        }
        rows := rows[id := row.(status := Running, startedAt := Some(now), leaseToken := Some(token),
                                leaseExpiresAt := Some(now + OrDefault(timeout, cfg.defaultTimeout)),
                                lastHeartbeatAt := Some(now), attemptCount := row.attemptCount + 1)];
        log := log + [Event(id, Claimed, now, row.attemptCount + 1, token)];
        claimed := claimed + [id];
      }
      assert claimed == candidates;
      BatchEffect(cfg, old(State()), claimed, tokens, now);
      BatchLocks(cfg, old(State()), batch, claimed, tokens, now);
      LockedClaimsAreDue(cfg, old(State()), Claims(claimed, tokens, now));
    }

    /** The reaper's scan: runs whose lease has expired, with the tokens read off them. */
    method ScanExpired(now: Time) returns (expired: seq<(RunId, Token)>)
      ensures forall i :: 0 <= i < |expired| ==>
        && expired[i].0 in rows && Expired(rows[expired[i].0], now)
        && rows[expired[i].0].leaseToken == Some(expired[i].1)
      ensures forall i, j :: 0 <= i < j < |expired| ==> expired[i].0 != expired[j].0
      ensures forall id <- rows :: Expired(rows[id], now) ==> exists i :: 0 <= i < |expired| && expired[i].0 == id
    {
      expired := [];
      var rest := rows.Keys;
      while rest != {}
        invariant rest <= rows.Keys
        invariant forall i :: 0 <= i < |expired| ==>
          && expired[i].0 in rows && expired[i].0 !in rest && Expired(rows[expired[i].0], now)
          && rows[expired[i].0].leaseToken == Some(expired[i].1)
        invariant forall i, j :: 0 <= i < j < |expired| ==> expired[i].0 != expired[j].0
        invariant forall id <- rows.Keys - rest :: Expired(rows[id], now) ==>
          exists i :: 0 <= i < |expired| && expired[i].0 == id
      {
        var id :| id in rest;
        rest := rest - {id};
        if Expired(rows[id], now) {
          ghost var before := expired;
          expired := expired + [(id, rows[id].leaseToken.value)];
          assert expired[|before|].0 == id;
          assert forall i :: 0 <= i < |before| ==> expired[i] == before[i];
        }
      }
    }

    /** `reap_expired_runs`, undisturbed: every run whose lease had expired is taken off
        its worker, requeued or failed with its attempts unchanged, and no other run is touched. */
    method ReapExpiredRuns() returns (recovered: nat)
      requires Inv(cfg, State())
      modifies this
      ensures Inv(cfg, State()) && rows.Keys == old(rows.Keys) && clock == old(clock)
      ensures forall id <- rows :: !Expired(rows[id], clock)
      ensures forall id <- rows ::
        if old(Expired(rows[id], clock)) then Reaped(cfg, tasks, old(rows)[id], rows[id]) else rows[id] == old(rows)[id]
      ensures tasks == old(tasks)
      ensures recovered == |log| - |old(log)|
    {
      hide Inv, FailureReport, Reaped, InForce, RunEnds;
      var expired := ScanExpired(clock);
      recovered := 0;
      for k := 0 to |expired|
        invariant Inv(cfg, State()) && rows.Keys == old(rows.Keys) && clock == old(clock)
        invariant forall i :: k <= i < |expired| ==> rows[expired[i].0] == old(rows[expired[i].0])
        invariant forall i :: 0 <= i < k ==>
          Reaped(cfg, tasks, old(rows)[expired[i].0], rows[expired[i].0]) && !rows[expired[i].0].status.Running?
        invariant tasks == old(tasks)
        invariant forall id <- rows :: (forall i :: 0 <= i < k ==> expired[i].0 != id) ==> rows[id] == old(rows[id])
        invariant recovered == |log| - |old(log)|
      {
        var (run, token) := expired[k];
        ReportEffect(cfg, State(), run, token, REAPED, true, None);
        ghost var were, said := rows, log;
        var r := CompleteFailure(run, token, REAPED, true, None);
        OneReaped(cfg, tasks, were, rows, said, log, run);
        if r.Done? {
          recovered := recovered + 1;
        }
      }
    }
  }

  lemma OneReaped(
      cfg: Settings, tasks: map<TaskId, TaskConfig>, before: map<RunId, TaskRun>, after: map<RunId, TaskRun>,
      log: seq<Event>, log': seq<Event>, run: RunId)
    requires run in before && run in after
    requires forall limit: nat :: InForce(ConfigOf(tasks, before[run]).maxAttempts, cfg.defaultMaxAttempts, limit) ==>
      RunEnds(before, after, log, log', run, before[run].attemptCount < limit)
    ensures Reaped(cfg, tasks, before[run], after[run]) && !after[run].status.Running?
  {
    var limit := OrDefault(ConfigOf(tasks, before[run]).maxAttempts, cfg.defaultMaxAttempts);
    assert InForce(ConfigOf(tasks, before[run]).maxAttempts, cfg.defaultMaxAttempts, limit);
  }

  const REAPED := "Execution timed out: lease expired without a heartbeat (worker likely crashed or lost connectivity)."

  /** An uninterrupted failure report under the current token takes the run off its
      worker, keeps its attempts, logs one event and touches no other row. */
  lemma ReportEffect(
      cfg: Settings, s: State, run: RunId, token: Token, error: string, retryable: bool, log: Option<string>)
    requires Inv(cfg, s) && Holds(s, run, token)
    ensures var s' := FailureReport(cfg, s, run, token, error, retryable, log);
            && s'.rows.Keys == s.rows.Keys && s'.clock == s.clock && |s'.log| == |s.log| + 1
            && (s'.rows[run].status.Pending? || s'.rows[run].status.Failed?)
            && s'.rows[run].attemptCount == s.rows[run].attemptCount
            && forall id <- s.rows :: id != run ==> s'.rows[id] == s.rows[id]
  {
    hide Inv, Delay;
  }

  /** A batch claims each row as it was selected: the claims before it are of other rows. */
  lemma BatchLocks(
      cfg: Settings, s: State, batch: nat, claimed: seq<RunId>, tokens: seq<Token>, now: Time)
    requires |claimed| <= |tokens| && OldestFirst(s, now, batch, claimed)
    requires ValidRun(cfg, s, Claims(claimed, tokens, now))
    ensures LockingRun(cfg, s, Claims(claimed, tokens, now))
  {
    hide ValidRun;
    var acts := Claims(claimed, tokens, now);
    forall j | 0 <= j < |acts| && acts[j].Claim?
      ensures exists i :: LockedSince(cfg, s, acts, i, j)
    {
      assert claimed[j] in DueRuns(s, now);
      assert StateAt(cfg, s, acts, 0) == s;
      assert LockedSince(cfg, s, acts, 0, j);
    }
  }

  lemma CandidatesPending(s: State, now: Time, batch: nat, candidates: seq<RunId>)
    requires OldestFirst(s, now, batch, candidates)
    ensures |candidates| <= batch
    ensures forall i :: 0 <= i < |candidates| ==>
      candidates[i] in s.rows && s.rows[candidates[i]].status.Pending?
    ensures forall i, j :: 0 <= i < j < |candidates| ==> candidates[i] != candidates[j]
  {
    forall i | 0 <= i < |candidates|
      ensures candidates[i] in s.rows && s.rows[candidates[i]].status.Pending?
    {
      assert candidates[i] in DueRuns(s, now);
    }
  }
}

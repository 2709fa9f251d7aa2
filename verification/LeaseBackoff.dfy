/** Retry backoff.  A claim rechecks only that the row is pending, so what makes it wait is
    the lock it holds on the row from selection to update. */
module LeaseBackoff {
  import opened Wrappers
  import opened Powers
  import opened Sequences
  import opened Lease
  import opened LeaseInvariant
  import opened LeaseTheorems

  // ----- histories that back off

  /** The event `b` comes no sooner than the backoff after the failure `a`. */
  ghost predicate WaitsOut(cfg: Settings, a: Event, b: Event) {
    a.attempt >= 1 && a.at + Delay(cfg, a.attempt) <= b.at
  }

  /** Each claim after the first waits out the delay of the failure before it. */
  ghost predicate BacksOff(cfg: Settings, h: seq<Event>) {
    forall i, j :: 0 <= i < j < |h| && j == i + 1 && i % 2 == 1 ==> WaitsOut(cfg, h[i], h[j])
  }

  ghost predicate AllBackOff(cfg: Settings, s: State) {
    forall id <- s.rows :: BacksOff(cfg, EventsOf(s.log, id))
  }

  // ----- claims under the row lock

  /** What is claimed is still due. */
  ghost predicate RowAtomic(s: State, a: Action) {
    (a.Claim? && a.run in s.rows && s.rows[a.run].status.Pending? && s.rows[a.run].nextRetryAt.Some?)
      ==> s.rows[a.run].nextRetryAt.value <= a.now
  }

  ghost predicate RowAtomicRun(cfg: Settings, s: State, acts: seq<Action>)
    requires ValidRun(cfg, s, acts)
    decreases |acts|
  {
    acts == [] || (RowAtomic(s, acts[0]) && RowAtomicRun(cfg, Apply(cfg, s, acts[0]), acts[1..]))
  }

  /** The state before the i-th step. */
  ghost function StateAt(cfg: Settings, s: State, acts: seq<Action>, i: nat): State
    requires ValidRun(cfg, s, acts) && i <= |acts|
    decreases i
  {
    if i == 0 then s else StateAt(cfg, Apply(cfg, s, acts[0]), acts[1..], i - 1)
  }

  /** The steps that may write the row of `run`; each of them waits for its lock. */
  predicate Touches(a: Action, run: RunId) {
    match a
    case Claim(r, _, _) => r == run
    case Heartbeat(r, _) => r == run
    case Succeed(r, _, _) => r == run
    case WriteFailure(read) => read.run == run
    case _ => false
  }

  /** The row claimed by the j-th step was selected as due before the i-th, and locked
      since: nobody else wrote it in between. */
  ghost predicate LockedSince(cfg: Settings, s: State, acts: seq<Action>, i: nat, j: nat)
    requires ValidRun(cfg, s, acts)
  {
    && i <= j < |acts| && acts[j].Claim?
    && acts[j].run in StateAt(cfg, s, acts, i).rows
    && Due(StateAt(cfg, s, acts, i).rows[acts[j].run], acts[j].now)
    && forall k :: i <= k < j ==> !Touches(acts[k], acts[j].run)
  }

  /** Every claim holds the lock of its row from selection to update. */
  ghost predicate LockingRun(cfg: Settings, s: State, acts: seq<Action>)
    requires ValidRun(cfg, s, acts)
  {
    forall j :: 0 <= j < |acts| && acts[j].Claim? ==> exists i :: LockedSince(cfg, s, acts, i, j)
  }

  lemma {:induction false} StateAtStep(cfg: Settings, s: State, acts: seq<Action>, i: nat)
    requires ValidRun(cfg, s, acts) && i < |acts|
    ensures Enabled(StateAt(cfg, s, acts, i), acts[i])
    ensures StateAt(cfg, s, acts, i + 1) == Apply(cfg, StateAt(cfg, s, acts, i), acts[i])
    decreases i
  {
    hide Apply, Enabled;
    if i > 0 {
      StateAtStep(cfg, Apply(cfg, s, acts[0]), acts[1..], i - 1);
    }
  }

  lemma {:induction false} LockedRowKept(cfg: Settings, s: State, acts: seq<Action>, i: nat, j: nat, run: RunId)
    requires ValidRun(cfg, s, acts) && i <= j <= |acts| && run in StateAt(cfg, s, acts, i).rows
    requires forall k :: i <= k < j ==> !Touches(acts[k], run)
    ensures run in StateAt(cfg, s, acts, j).rows
    ensures StateAt(cfg, s, acts, j).rows[run] == StateAt(cfg, s, acts, i).rows[run]
    decreases j
  {
    hide StateAt;
    if i < j {
      LockedRowKept(cfg, s, acts, i, j - 1, run);
      StateAtStep(cfg, s, acts, j - 1);
    }
  }

  lemma {:induction false} StateAtConcat(cfg: Settings, s: State, a: seq<Action>, b: seq<Action>, i: nat)
    requires ValidRun(cfg, s, a) && ValidRun(cfg, Final(cfg, s, a), b) && i <= |a| + |b|
    ensures ValidRun(cfg, s, a + b)
    ensures StateAt(cfg, s, a + b, i)
         == if i <= |a| then StateAt(cfg, s, a, i) else StateAt(cfg, Final(cfg, s, a), b, i - |a|)
    ensures StateAt(cfg, s, a, |a|) == Final(cfg, s, a)
    decreases |a|
  {
    hide Apply;
    RunConcat(cfg, s, a, b);
    if a == [] {
      assert a + b == b;
    } else {
      assert (a + b)[0] == a[0] && (a + b)[1..] == a[1..] + b;
      StateAtConcat(cfg, Apply(cfg, s, a[0]), a[1..], b, if i == 0 then 0 else i - 1);
    }
  }

  lemma LockedSinceConcat(cfg: Settings, s: State, a: seq<Action>, b: seq<Action>, i: nat, j: nat)
    requires ValidRun(cfg, s, a) && ValidRun(cfg, Final(cfg, s, a), b)
    ensures ValidRun(cfg, s, a + b)
    ensures LockedSince(cfg, s, a, i, j) ==> LockedSince(cfg, s, a + b, i, j)
    ensures LockedSince(cfg, Final(cfg, s, a), b, i, j) ==> LockedSince(cfg, s, a + b, |a| + i, |a| + j)
  {
    hide StateAt, Apply, Final, Due;
    RunConcat(cfg, s, a, b);
    if LockedSince(cfg, s, a, i, j) {
      StateAtConcat(cfg, s, a, b, i);
    }
    if LockedSince(cfg, Final(cfg, s, a), b, i, j) {
      StateAtConcat(cfg, s, a, b, |a| + i);
      StateAtStart(cfg, Final(cfg, s, a), b);
      assert forall k :: 0 <= k < |b| ==> (a + b)[|a| + k] == b[k];
      forall k | |a| + i <= k < |a| + j
        ensures !Touches((a + b)[k], b[j].run)
      {
        assert (a + b)[k] == b[k - |a|];
      }
    }
  }

  lemma StateAtStart(cfg: Settings, s: State, acts: seq<Action>)
    requires ValidRun(cfg, s, acts)
    ensures StateAt(cfg, s, acts, 0) == s
  {
  }

  /** Runs that lock can be put one after another, so batches of claims may alternate with
      any other steps. */
  lemma LockingConcat(cfg: Settings, s: State, a: seq<Action>, b: seq<Action>)
    requires ValidRun(cfg, s, a) && LockingRun(cfg, s, a)
    requires ValidRun(cfg, Final(cfg, s, a), b) && LockingRun(cfg, Final(cfg, s, a), b)
    ensures ValidRun(cfg, s, a + b) && LockingRun(cfg, s, a + b)
  {
    hide LockedSince, Apply;
    RunConcat(cfg, s, a, b);
    forall j | 0 <= j < |a + b| && (a + b)[j].Claim?
      ensures exists i :: LockedSince(cfg, s, a + b, i, j)
    {
      if j < |a| {
        var i :| LockedSince(cfg, s, a, i, j);
        LockedSinceConcat(cfg, s, a, b, i, j);
      } else {
        assert b[j - |a|].Claim?;
        var i :| LockedSince(cfg, Final(cfg, s, a), b, i, j - |a|);
        LockedSinceConcat(cfg, s, a, b, i, j - |a|);
        assert LockedSince(cfg, s, a + b, |a| + i, j);
      }
    }
  }

  /** Locking makes every claim a claim of a row that is due. */
  lemma LockedClaimsAreDue(cfg: Settings, s: State, acts: seq<Action>)
    requires ValidRun(cfg, s, acts) && LockingRun(cfg, s, acts)
    ensures RowAtomicRun(cfg, s, acts)
  {
    hide StateAt, Apply, ValidRun;
    forall j | 0 <= j < |acts|
      ensures RowAtomic(StateAt(cfg, s, acts, j), acts[j])
    {
      if acts[j].Claim? {
        var i :| LockedSince(cfg, s, acts, i, j);
        LockedRowKept(cfg, s, acts, i, j, acts[j].run);
      }
    }
    RowAtomicStepByStep(cfg, s, acts);
  }

  lemma {:induction false} RowAtomicStepByStep(cfg: Settings, s: State, acts: seq<Action>)
    requires ValidRun(cfg, s, acts)
    requires forall j :: 0 <= j < |acts| ==> RowAtomic(StateAt(cfg, s, acts, j), acts[j])
    ensures RowAtomicRun(cfg, s, acts)
    decreases |acts|
  {
    hide Apply, RowAtomic;
    if acts != [] {
      var s', rest := Apply(cfg, s, acts[0]), acts[1..];
      assert RowAtomic(StateAt(cfg, s, acts, 0), acts[0]);
      forall j | 0 <= j < |rest|
        ensures RowAtomic(StateAt(cfg, s', rest, j), rest[j])
      {
        assert RowAtomic(StateAt(cfg, s, acts, j + 1), acts[j + 1]);
      }
      RowAtomicStepByStep(cfg, s', rest);
    }
  }

  lemma BacksOffNext(cfg: Settings, h: seq<Event>, e: Event)
    requires BacksOff(cfg, h)
    requires h != [] && |h| % 2 == 0 ==> WaitsOut(cfg, h[|h| - 1], e)
    ensures BacksOff(cfg, h + [e])
  {
    hide WaitsOut;
    var g := h + [e];
    forall i, j | 0 <= i < j < |g| && j == i + 1 && i % 2 == 1
      ensures WaitsOut(cfg, g[i], g[j])
    {
      assert g[i] == h[i];
      if j < |h| {
        assert g[j] == h[j];
      } else {
        assert g[j] == e && |h| % 2 == 0;
      }
    }
  }

  lemma AllBackOffStep(cfg: Settings, s: State, a: Action)
    requires Inv(cfg, s) && AllBackOff(cfg, s) && Enabled(s, a) && RowAtomic(s, a)
    ensures AllBackOff(cfg, Apply(cfg, s, a))
  {
    hide BacksOff, Delay, TokensSound, CallsSound, ReadsSound, AttemptsBounded, RowMatches, EventsOf;
    var s' := Apply(cfg, s, a);
    forall id <- s'.rows
      ensures BacksOff(cfg, EventsOf(s'.log, id))
    {
      if id !in s.rows {
        NoEventsWithoutRow(s.log, id);
        BacksOffNothing(cfg);
      } else if s'.log != s.log {
        var e := s'.log[|s.log|];
        assert s'.log == s.log + [e];
        EventsOfSnoc(s.log, e, id);
        if e.run == id {
          AppendBacksOff(cfg, s, a, e);
        } else {
          assert EventsOf(s'.log, id) == EventsOf(s.log, id);
        }
      }
    }
  }

  lemma BacksOffNothing(cfg: Settings)
    ensures BacksOff(cfg, [])
  {
  }

  lemma PendingRowDue(cfg: Settings, row: TaskRun, h: seq<Event>)
    requires RowMatches(cfg, row, h) && h != [] && |h| % 2 == 0 && row.status.Pending?
    ensures h[|h| - 1].attempt >= 1
    ensures row.nextRetryAt == Some(h[|h| - 1].at + Delay(cfg, h[|h| - 1].attempt))
  {
  }

  lemma AppendBacksOff(cfg: Settings, s: State, a: Action, e: Event)
    requires Inv(cfg, s) && Enabled(s, a) && RowAtomic(s, a)
    requires Apply(cfg, s, a).log == s.log + [e] && e.run in s.rows
    requires BacksOff(cfg, EventsOf(s.log, e.run))
    ensures BacksOff(cfg, EventsOf(s.log, e.run) + [e])
  {
    hide Delay, TokensSound, CallsSound, ReadsSound, AttemptsBounded, BacksOff, EventsOf, RowMatches;
    var h, row := EventsOf(s.log, e.run), s.rows[e.run];
    assert e == Apply(cfg, s, a).log[|s.log|];
    if a.Claim? {
      if h != [] && |h| % 2 == 0 {
        PendingRowDue(cfg, row, h);
      }
    } else {
      RunningIsOdd(cfg, row, h);
    }
    BacksOffNext(cfg, h, e);
  }

  /** Row locking is exactly what the backoff needs: a claim of a requeued run is on time
      if and only if the run was still due when the claim was written. */
  lemma OnTimeIffRowAtomic(cfg: Settings, s: State, run: RunId, token: Token, now: Time)
    requires Inv(cfg, s) && run in s.rows && s.rows[run].status.Pending? && EventsOf(s.log, run) != []
    ensures var last := EventsOf(s.log, run)[|EventsOf(s.log, run)| - 1];
            && last.attempt >= 1
            && (RowAtomic(s, Claim(run, token, now)) <==> last.at + Delay(cfg, last.attempt) <= now)
  {
    hide Delay, TokensSound, CallsSound, ReadsSound, AttemptsBounded, EventsOf, RowMatches;
    var h := EventsOf(s.log, run);
    PendingRowEven(cfg, s.rows[run], h);
    PendingRowDue(cfg, s.rows[run], h);
  }

  /** A pending run is offered to the next claim as soon as it is new or has waited out the
      delay of its last failure, and not before. */
  lemma DueIffWaited(cfg: Settings, row: TaskRun, h: seq<Event>, now: Time)
    requires RowMatches(cfg, row, h) && row.status.Pending?
    ensures h != [] ==> h[|h| - 1].attempt >= 1
    ensures Due(row, now) <==> h == [] || h[|h| - 1].at + Delay(cfg, h[|h| - 1].attempt) <= now
  {
    hide Delay;
    if h != [] {
      PendingRowEven(cfg, row, h);
      PendingRowDue(cfg, row, h);
    }
  }

  lemma PendingRowEven(cfg: Settings, row: TaskRun, h: seq<Event>)
    requires RowMatches(cfg, row, h) && h != [] && row.status.Pending?
    ensures |h| % 2 == 0
  {
    assert h[|h| - 1].kind.Requeued?;
  }

  lemma {:induction false} AllBackOffAlways(cfg: Settings, s: State, acts: seq<Action>)
    requires Inv(cfg, s) && AllBackOff(cfg, s) && ValidRun(cfg, s, acts) && RowAtomicRun(cfg, s, acts)
    ensures AllBackOff(cfg, Final(cfg, s, acts))
    decreases |acts|
  {
    hide Inv, Apply, AllBackOff;
    if acts != [] {
      InvStep(cfg, s, acts[0]);
      AllBackOffStep(cfg, s, acts[0]);
      AllBackOffAlways(cfg, Apply(cfg, s, acts[0]), acts[1..]);
    }
  }

  lemma ReachableRowBacksOff(cfg: Settings, s: State, acts: seq<Action>, id: RunId)
    requires Initial(s) && ValidRun(cfg, s, acts) && LockingRun(cfg, s, acts)
    requires id in Final(cfg, s, acts).rows
    ensures BacksOff(cfg, EventsOf(Final(cfg, s, acts).log, id))
  {
    hide BacksOff, EventsOf, Apply, Inv, LockingRun, RowAtomicRun;
    InvInitially(cfg, s);
    LockedClaimsAreDue(cfg, s, acts);
    AllBackOffAlways(cfg, s, acts);
  }

  lemma HistoryWaits(cfg: Settings, h: seq<Event>, k: nat)
    requires Shape(h) && BacksOff(cfg, h) && k >= 1 && |h| > 2 * k
    ensures h[2 * k].kind.Claimed? && h[2 * k].attempt == k + 1
    ensures h[2 * k - 1].kind.Requeued? && h[2 * k - 1].attempt == k
    ensures h[2 * k - 1].at + Delay(cfg, k) <= h[2 * k].at
  {
    hide Delay;
    assert h[2 * k - 1].attempt == k;
    assert WaitsOut(cfg, h[2 * k - 1], h[2 * k]);
  }

  /** The (k+1)-th claim of a run comes no sooner than the backoff after its k-th failure. */
  lemma ClaimsWait(cfg: Settings, s: State, acts: seq<Action>, id: RunId, k: nat)
    requires Initial(s) && ValidRun(cfg, s, acts) && LockingRun(cfg, s, acts)
    requires id in Final(cfg, s, acts).rows && k >= 1
    requires |EventsOf(Final(cfg, s, acts).log, id)| > 2 * k
    ensures var h := EventsOf(Final(cfg, s, acts).log, id);
            && h[2 * k].kind.Claimed? && h[2 * k].attempt == k + 1
            && h[2 * k - 1].kind.Requeued? && h[2 * k - 1].attempt == k
            && h[2 * k - 1].at + Delay(cfg, k) <= h[2 * k].at
  {
    hide EventsOf, Shape, BacksOff, Delay, Apply, Initial, LockingRun;
    ReachableRow(cfg, s, acts, id);
    ReachableRowBacksOff(cfg, s, acts, id);
    HistoryWaits(cfg, EventsOf(Final(cfg, s, acts).log, id), k);
  }

  /** Delays start at the base, never shrink from one attempt to a later one, and never
      pass the cap. */
  lemma DelaysGrowToCap(cfg: Settings, j: nat, k: nat)
    requires 1 <= j <= k
    ensures Delay(cfg, j) <= Delay(cfg, k) <= cfg.retryMaxDelay
    ensures cfg.retryBaseDelay <= cfg.retryMaxDelay ==> Delay(cfg, 1) == cfg.retryBaseDelay
  {
    Pow2Mono(j - 1, k - 1);
    assert cfg.retryBaseDelay * Pow2(j - 1) <= cfg.retryBaseDelay * Pow2(k - 1);
  }

  /** Each delay is twice the one before it, until the cap is reached. */
  lemma DelayDoubles(cfg: Settings, k: nat)
    requires k >= 1
    ensures Delay(cfg, 1) == if cfg.retryBaseDelay < cfg.retryMaxDelay then cfg.retryBaseDelay else cfg.retryMaxDelay
    ensures var twice := 2 * Delay(cfg, k);
            Delay(cfg, k + 1) == if twice < cfg.retryMaxDelay then twice else cfg.retryMaxDelay
  {
    var d := cfg.retryBaseDelay * Pow2(k - 1);
    assert cfg.retryBaseDelay * Pow2(k) == 2 * d;
  }

  /** Total backoff before the given attempt. */
  function TotalWait(cfg: Settings, attempt: nat): nat
    requires attempt >= 1
  {
    if attempt == 1 then 0 else TotalWait(cfg, attempt - 1) + Delay(cfg, attempt - 1)
  }

  /** The total is the sum of the delays after the attempts before. */
  lemma {:induction false} TotalWaitIsSum(cfg: Settings, attempt: nat)
    requires attempt >= 1
    ensures TotalWait(cfg, attempt)
         == Sum(seq(attempt - 1, k requires 0 <= k < attempt - 1 => Delay(cfg, k + 1)))
  {
    hide Delay;
    if attempt > 1 {
      TotalWaitIsSum(cfg, attempt - 1);
      var front := seq(attempt - 2, k requires 0 <= k < attempt - 2 => Delay(cfg, k + 1));
      SumSnoc(front, Delay(cfg, attempt - 1));
      assert seq(attempt - 1, k requires 0 <= k < attempt - 1 => Delay(cfg, k + 1))
          == front + [Delay(cfg, attempt - 1)];
    }
  }

  lemma {:induction false} WaitAddsUp(cfg: Settings, h: seq<Event>, k: nat)
    requires Shape(h) && BacksOff(cfg, h) && k >= 1 && |h| > 2 * (k - 1)
    ensures h[0].at + TotalWait(cfg, k) <= h[2 * (k - 1)].at
  {
    hide Delay;
    if k > 1 {
      WaitAddsUp(cfg, h, k - 1);
      assert h[2 * k - 3].attempt == k - 1;
      assert h[2 * k - 4].at <= h[2 * k - 3].at;
      assert WaitsOut(cfg, h[2 * k - 3], h[2 * k - 2]);
    }
  }

  lemma FailedHistoryWaits(cfg: Settings, row: TaskRun, h: seq<Event>)
    requires RowMatches(cfg, row, h) && BacksOff(cfg, h) && row.status.Failed?
    ensures row.attemptCount >= 1 && h != [] && row.finishedAt.Some?
    ensures h[0].at + TotalWait(cfg, row.attemptCount) <= row.finishedAt.value
  {
    hide Delay, TotalWait;
    assert Releases(h[|h| - 1]);
    assert |h| == 2 * row.attemptCount;
    WaitAddsUp(cfg, h, row.attemptCount);
  }

  /** A run that finally fails at attempt `m` has been alive at least the sum of all the
      delays before that attempt. */
  lemma FailureWaitedLongEnough(cfg: Settings, s: State, acts: seq<Action>, id: RunId)
    requires Initial(s) && ValidRun(cfg, s, acts) && LockingRun(cfg, s, acts)
    requires id in Final(cfg, s, acts).rows && Final(cfg, s, acts).rows[id].status.Failed?
    ensures var row, h := Final(cfg, s, acts).rows[id], EventsOf(Final(cfg, s, acts).log, id);
            && row.attemptCount >= 1 && h != [] && row.finishedAt.Some?
            && h[0].at + TotalWait(cfg, row.attemptCount) <= row.finishedAt.value
  {
    hide *;
    ReachableRow(cfg, s, acts, id);
    ReachableRowBacksOff(cfg, s, acts, id);
    FailedHistoryWaits(cfg, Final(cfg, s, acts).rows[id], EventsOf(Final(cfg, s, acts).log, id));
  }
}

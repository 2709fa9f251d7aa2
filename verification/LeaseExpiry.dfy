/** Expiry and renewal.  The reaper acts on a scan that may be out of date, and the guard of
    its update looks at token and status only. */
module LeaseExpiry {
  import opened Wrappers
  import opened Lease
  import opened LeaseInvariant

  // ----- renewals decide the expiry

  /** The step renews the lease of `run` held under `token`. */
  predicate Renews(s: State, a: Action, run: RunId, token: Token) {
    a.Heartbeat? && a.run == run && a.call.token == token && Holds(s, run, token)
  }

  /** The expiry set by the last heartbeat of the run that takes effect, if one does. */
  ghost function LastRenewal(cfg: Settings, s: State, acts: seq<Action>, run: RunId, token: Token): Option<Time>
    requires ValidRun(cfg, s, acts)
    decreases |acts|
  {
    if acts == [] then None
    else
      var later := LastRenewal(cfg, Apply(cfg, s, acts[0]), acts[1..], run, token);
      if later.Some? then later
      else if Renews(s, acts[0], run, token) then
        Some(acts[0].call.now + OrDefault(Timeout(s, s.rows[run]), cfg.defaultTimeout))
      else None
  }

  /** A token once seen is not given out again, so a lease lost is lost for good. */
  lemma {:induction false} LostForGood(cfg: Settings, s: State, acts: seq<Action>, run: RunId, token: Token)
    requires ValidRun(cfg, s, acts) && token in s.known && !Holds(s, run, token)
    ensures !Holds(Final(cfg, s, acts), run, token)
    decreases |acts|
  {
    if acts != [] {
      LostForGood(cfg, Apply(cfg, s, acts[0]), acts[1..], run, token);
    }
  }

  /** A step that leaves the lease in place moves its expiry only by renewing it. */
  lemma HeldStep(cfg: Settings, s: State, a: Action, run: RunId, token: Token)
    requires Enabled(s, a) && token in s.known && Holds(s, run, token) && Holds(Apply(cfg, s, a), run, token)
    ensures token in Apply(cfg, s, a).known
    ensures Apply(cfg, s, a).rows[run].leaseExpiresAt
         == if Renews(s, a, run, token)
            then Some(a.call.now + OrDefault(Timeout(s, s.rows[run]), cfg.defaultTimeout))
            else s.rows[run].leaseExpiresAt
  {
    hide Delay;
  }

  /** While a lease is held, its expiry is the one of the last renewal. */
  lemma {:induction false} ExpiryFollowsRenewals(
      cfg: Settings, s: State, acts: seq<Action>, run: RunId, token: Token)
    requires ValidRun(cfg, s, acts) && token in s.known
    requires Holds(s, run, token) && Holds(Final(cfg, s, acts), run, token)
    ensures Final(cfg, s, acts).rows[run].leaseExpiresAt
         == if LastRenewal(cfg, s, acts, run, token).Some? then LastRenewal(cfg, s, acts, run, token)
            else s.rows[run].leaseExpiresAt
    decreases |acts|
  {
    hide Apply;
    if acts != [] {
      var s' := Apply(cfg, s, acts[0]);
      KnownStays(cfg, s, acts[0]);
      if !Holds(s', run, token) {
        LostForGood(cfg, s', acts[1..], run, token);
      }
      HeldStep(cfg, s, acts[0], run, token);
      ExpiryFollowsRenewals(cfg, s', acts[1..], run, token);
    }
  }

  lemma KnownStays(cfg: Settings, s: State, a: Action)
    requires Enabled(s, a)
    ensures s.known <= Apply(cfg, s, a).known
  {
  }

  lemma {:induction false} ClockAdvances(cfg: Settings, s: State, acts: seq<Action>)
    requires ValidRun(cfg, s, acts)
    ensures s.clock <= Final(cfg, s, acts).clock
    decreases |acts|
  {
    if acts != [] {
      ClockAdvances(cfg, Apply(cfg, s, acts[0]), acts[1..]);
    }
  }

  // ----- the reaper

  /** Over every run: a lease that had expired when the reaper scanned it, and is still held
      under the scanned token when the reaper writes, is expired at that moment if and only
      if no heartbeat took effect in between, or the last that did set an expiry that has
      passed again. */
  lemma ReapedStillExpiredIff(
      cfg: Settings, s: State, before: seq<Action>, between: seq<Action>, run: RunId, token: Token, scan: Time)
    requires Initial(s) && ValidRun(cfg, s, before) && ValidRun(cfg, Final(cfg, s, before), between)
    requires var scanned := Final(cfg, s, before);
             && Holds(scanned, run, token) && scan <= scanned.clock && Expired(scanned.rows[run], scan)
             && Holds(Final(cfg, scanned, between), run, token)
    ensures var scanned := Final(cfg, s, before);
            var f, renewal := Final(cfg, scanned, between), LastRenewal(cfg, scanned, between, run, token);
            Expired(f.rows[run], f.clock) <==> renewal.None? || renewal.value < f.clock
  {
    hide Apply, RowsMatch, CallsSound, ReadsSound, AttemptsBounded, LastRenewal;
    InvInitially(cfg, s);
    InvAlways(cfg, s, before);
    ExpiryFollowsRenewals(cfg, Final(cfg, s, before), between, run, token);
    ClockAdvances(cfg, Final(cfg, s, before), between);
  }

  /** A lease renewed in time is taken away all the same, whether the heartbeat lands
      before or after the reaper's failure report reads the row: wherever a lease has
      expired at the scan, it may be in force again at the update and be reclaimed. */
  lemma RenewalDoesNotStopReaper(cfg: Settings, s: State, run: RunId, token: Token, beatFirst: bool)
    returns (between: seq<Action>, update: Action)
    requires Inv(cfg, s) && Holds(s, run, token) && Expired(s.rows[run], s.clock)
    ensures ValidRun(cfg, s, between)
    ensures var f := Final(cfg, s, between);
            && Holds(f, run, token) && !Expired(f.rows[run], f.clock)
            && update.WriteFailure? && update.read.run == run && update.read.call.token == token
            && Enabled(f, update)
            && var after := Apply(cfg, f, update);
               run in after.rows && !after.rows[run].status.Running? && |after.log| == |f.log| + 1
  {
    hide Delay, Inv, ValidRun, Final;
    var call, row := Call(token, s.clock), s.rows[run];
    var beat, read := Heartbeat(run, call), ReadFailure(run, call, true, "lease expired", None);
    var first, second := if beatFirst then beat else read, if beatFirst then read else beat;
    RunningHasAttempt(cfg, s, run);
    RunNothing(cfg, s);
    RunOneMore(cfg, s, [], Enter(token));
    RunOneMore(cfg, s, [] + [Enter(token)], first);
    RunOneMore(cfg, s, [] + [Enter(token)] + [first], second);
    between := [] + [Enter(token)] + [first] + [second];
    update := WriteFailure(
      FailureRead(call, run, row.attemptCount, MaxAttempts(cfg, s, row), true, "lease expired", None));
  }

  /** Such a scan occurs: a run from the empty store to a lease past its end. */
  lemma ExpiredLeaseReachable(cfg: Settings, s: State) returns (acts: seq<Action>)
    requires Initial(s)
    ensures ValidRun(cfg, s, acts) && Inv(cfg, Final(cfg, s, acts))
    ensures var f := Final(cfg, s, acts); Holds(f, 0, 7) && Expired(f.rows[0], f.clock)
  {
    hide Delay, Inv, ValidRun, Final;
    var edit, claim := EditTask(0, TaskConfig(None, Some(10))), Claim(0, 7, s.clock);
    InvInitially(cfg, s);
    RunNothing(cfg, s);
    RunOneMore(cfg, s, [], edit);
    RunOneMore(cfg, s, [] + [edit], Create(0, 0));
    RunOneMore(cfg, s, [] + [edit] + [Create(0, 0)], claim);
    RunOneMore(cfg, s, [] + [edit] + [Create(0, 0)] + [claim], Tick(20));
    acts := [] + [edit] + [Create(0, 0)] + [claim] + [Tick(20)];
    InvAlways(cfg, s, acts);
  }

  /** A whole run from the empty store: expired at the scan, renewed, in force at the
      update, and reclaimed. */
  lemma LiveLeaseReclaimed(cfg: Settings, s: State, beatFirst: bool)
    returns (before: seq<Action>, between: seq<Action>, update: Action)
    requires Initial(s)
    ensures ValidRun(cfg, s, before) && ValidRun(cfg, Final(cfg, s, before), between)
    ensures var scanned := Final(cfg, s, before);
            Holds(scanned, 0, 7) && Expired(scanned.rows[0], scanned.clock)
    ensures var f := Final(cfg, Final(cfg, s, before), between);
            && Holds(f, 0, 7) && !Expired(f.rows[0], f.clock)
            && update.WriteFailure? && update.read.call.token == 7 && Enabled(f, update)
            && 0 in Apply(cfg, f, update).rows && !Apply(cfg, f, update).rows[0].status.Running?
  {
    hide Inv, ValidRun, Final, Apply, Initial;
    before := ExpiredLeaseReachable(cfg, s);
    between, update := RenewalDoesNotStopReaper(cfg, Final(cfg, s, before), 0, 7, beatFirst);
  }

  /** In any interleaving, whatever lease a failure report was made about is over once its
      update has been tried, and stays over. */
  lemma ReportEndsLease(cfg: Settings, s: State, read: FailureRead, acts: seq<Action>)
    requires Inv(cfg, s) && Enabled(s, WriteFailure(read))
    requires ValidRun(cfg, Apply(cfg, s, WriteFailure(read)), acts)
    ensures !Holds(Final(cfg, Apply(cfg, s, WriteFailure(read)), acts), read.run, read.call.token)
  {
    hide Delay, RowsMatch, TokensSound, AttemptsBounded, ValidRun;
    LostForGood(cfg, Apply(cfg, s, WriteFailure(read)), acts, read.run, read.call.token);
  }

  // ----- a fresh lease

  /** The step gives or renews the lease of `a.run`. */
  predicate Grants(s: State, a: Action) {
    || (a.Claim? && a.run in s.rows && s.rows[a.run].status.Pending?)
    || (a.Heartbeat? && Holds(s, a.run, a.call.token))
  }

  function GrantedToken(a: Action): Token
    requires a.Claim? || a.Heartbeat?
  {
    if a.Claim? then a.token else a.call.token
  }

  /** How long the step promises to leave the holder alone. */
  function GrantedUntil(cfg: Settings, s: State, a: Action): Time
    requires Grants(s, a)
  {
    (if a.Claim? then a.now else a.call.now) + OrDefault(Timeout(s, s.rows[a.run]), cfg.defaultTimeout)
  }

  /** However long it is held, a lease given or renewed does not look expired to any scan
      up to the end it was given, unless the last heartbeat since then set an earlier one:
      by having entered before, or under a shorter timeout. */
  lemma FreshLeaseOutlastsTimeout(cfg: Settings, s: State, a: Action, acts: seq<Action>, scan: Time)
    requires Inv(cfg, s) && Enabled(s, a) && Grants(s, a) && scan <= GrantedUntil(cfg, s, a)
    requires ValidRun(cfg, Apply(cfg, s, a), acts)
    requires Holds(Final(cfg, Apply(cfg, s, a), acts), a.run, GrantedToken(a))
    ensures var s' := Apply(cfg, s, a);
            var renewal := LastRenewal(cfg, s', acts, a.run, GrantedToken(a));
            Expired(Final(cfg, s', acts).rows[a.run], scan) <==> renewal.Some? && renewal.value < scan
  {
    hide RowsMatch, CallsSound, ReadsSound, AttemptsBounded, LastRenewal, ValidRun;
    ExpiryFollowsRenewals(cfg, Apply(cfg, s, a), acts, a.run, GrantedToken(a));
  }

  /** Heartbeats that overtake each other shorten a lease: the one that entered first and
      lands last sets the end back. */
  lemma LateHeartbeatShortens(cfg: Settings, s: State, run: RunId, early: Call, late: Call)
    requires early in s.calls && late in s.calls && early.token == late.token && early.now < late.now
    requires Holds(s, run, early.token)
    ensures var renewed := Apply(cfg, s, Heartbeat(run, late));
            var s' := Apply(cfg, renewed, Heartbeat(run, early));
            && Holds(s', run, early.token)
            && s'.rows[run].leaseExpiresAt.Some? && renewed.rows[run].leaseExpiresAt.Some?
            && renewed.rows[run].leaseExpiresAt.value - s'.rows[run].leaseExpiresAt.value == late.now - early.now
  {
  }
}

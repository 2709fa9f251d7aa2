/** The life of an output artifact: human decisions on its run, which read the row without
    a lock and write it later, purge transactions that hold the row's lock while they
    delete the file, and crashes that leave a deletion half done. */
module Retention {
  import opened Wrappers

  type Time = int
  type RunId = nat
  type Path = nat

  datatype Status = PendingReview | Approved | Rejected | RolledBack

  datatype Run = Run(
    status: Status, approvedAt: Option<Time>, rejectedAt: Option<Time>, rolledBackAt: Option<Time>,
    path: Path, outputDeletedAt: Option<Time>)

  /** The decision timestamp that belongs to the current status, never an older one. */
  function DecisionTimestamp(r: Run): Option<Time> {
    match r.status
    case Approved => r.approvedAt
    case Rejected => r.rejectedAt
    case RolledBack => r.rolledBackAt
    case PendingReview => None
  }

  /** The eligibility query for a given cutoff. */
  predicate Eligible(r: Run, cutoff: Time) {
    && r.status != PendingReview && r.outputDeletedAt.None?
    && DecisionTimestamp(r).Some? && DecisionTimestamp(r).value <= cutoff
  }

  datatype Outcome = Completed | AlreadyMissing | DeletionFailed

  /** One audit event, with the facts its claim was based on. */
  datatype PurgeEvent = PurgeEvent(
    run: RunId, outcome: Outcome, dryRun: bool, cutoff: Time, decidedAt: Option<Time>, at: Time)

  /** A purge transaction holding a row's lock: before or after its unlink. */
  datatype Purge = Claimed(cutoff: Time) | Unlinked(cutoff: Time, existed: bool)

  datatype Verdict = Approval | Rejection | Reversal

  /** The status an endpoint insists on when it reads the row. */
  function Required(v: Verdict): Status {
    if v.Reversal? then Approved else PendingReview
  }

  /** The write of an endpoint, by primary key: it does not look at the status again. */
  function Decided(r: Run, v: Verdict, now: Time): Run {
    match v
    case Approval => r.(status := Approved, approvedAt := Some(now))
    case Rejection => r.(status := Rejected, rejectedAt := Some(now))
    case Reversal => r.(status := RolledBack, rolledBackAt := Some(now))
  }

  type RequestId = nat

  /** A decision request between its read of the row, which passed, and its write. */
  datatype Request = Request(run: RunId, verdict: Verdict, readAt: Time)

  datatype State = State(
    runs: map<RunId, Run>, files: set<Path>, used: set<Path>, locks: map<RunId, Purge>,
    requests: map<RequestId, Request>, asked: set<RequestId>,
    events: seq<PurgeEvent>, clock: Time)

  datatype Action =
    | Tick(elapsed: nat)
    | Create(run: RunId, path: Path)
    | ReadDecision(request: RequestId, run: RunId, verdict: Verdict)
    | WriteDecision(request: RequestId, run: RunId, now: Time)
    | ClaimPurge(run: RunId, cutoff: Time)
    | Unlink(run: RunId)
    | UnlinkFails(run: RunId)
    | CommitPurge(run: RunId)
    | Crash(run: RunId)
    | DryRun(run: RunId, cutoff: Time)
    | DryRunFails(run: RunId, cutoff: Time)
    | RemoveFile(path: Path)

  /** Output paths are derived from fresh run identifiers, so none is written twice; the
      write of a decision waits for the row lock and carries a clock reading made since
      its read; a pass works with a cutoff a full window old. */
  predicate Enabled(window: nat, s: State, a: Action) {
    match a
    case Tick(_) => true
    case Create(run, path) => run !in s.runs && path !in s.used
    case ReadDecision(request, run, _) => run in s.runs && request !in s.asked
    case WriteDecision(request, run, now) =>
      && run in s.runs && run !in s.locks && request in s.requests
      && s.requests[request].run == run && s.requests[request].readAt <= now <= s.clock
    case ClaimPurge(run, cutoff) =>
      run in s.runs && run !in s.locks && cutoff + window <= s.clock && Eligible(s.runs[run], cutoff)
    case Unlink(run) => run in s.runs && run in s.locks && s.locks[run].Claimed?
    case UnlinkFails(run) => run in s.runs && run in s.locks && s.locks[run].Claimed?
    case CommitPurge(run) => run in s.runs && run in s.locks && s.locks[run].Unlinked?
    case Crash(run) => run in s.locks
    case DryRun(run, cutoff) =>
      run in s.runs && run !in s.locks && cutoff + window <= s.clock && Eligible(s.runs[run], cutoff)
    case DryRunFails(run, cutoff) =>
      run in s.runs && run !in s.locks && cutoff + window <= s.clock && Eligible(s.runs[run], cutoff)
    case RemoveFile(_) => true
  }

  function Apply(window: nat, s: State, a: Action): State
    requires Enabled(window, s, a)
  {
    match a
    case Tick(elapsed) => s.(clock := s.clock + elapsed)
    case Create(run, path) =>
      s.(runs := s.runs[run := Run(PendingReview, None, None, None, path, None)],
         files := s.files + {path}, used := s.used + {path})
    case ReadDecision(request, run, verdict) =>
      var s' := s.(asked := s.asked + {request});
      if s.runs[run].status == Required(verdict)
      then s'.(requests := s.requests[request := Request(run, verdict, s.clock)])
      else s'
    case WriteDecision(request, run, now) =>
      s.(runs := s.runs[run := Decided(s.runs[run], s.requests[request].verdict, now)],
         requests := s.requests - {request})
    case ClaimPurge(run, cutoff) => s.(locks := s.locks[run := Claimed(cutoff)])
    case Unlink(run) =>
      var path := s.runs[run].path;
      s.(files := s.files - {path}, locks := s.locks[run := Unlinked(s.locks[run].cutoff, path in s.files)])
    case UnlinkFails(run) =>
      s.(locks := s.locks - {run},
         events := s.events + [PurgeEvent(run, DeletionFailed, false, s.locks[run].cutoff,
                                          DecisionTimestamp(s.runs[run]), s.clock)])
    case CommitPurge(run) =>
      var r, p := s.runs[run], s.locks[run];
      if r.outputDeletedAt.None? then
        s.(runs := s.runs[run := r.(outputDeletedAt := Some(s.clock))], locks := s.locks - {run},
           events := s.events + [PurgeEvent(run, if p.existed then Completed else AlreadyMissing, false,
                                            p.cutoff, DecisionTimestamp(r), s.clock)])
      else s.(locks := s.locks - {run})
    case Crash(run) => s.(locks := s.locks - {run})
    case DryRun(run, cutoff) =>
      var r := s.runs[run];
      s.(events := s.events + [PurgeEvent(run, if r.path in s.files then Completed else AlreadyMissing, true,
                                          cutoff, DecisionTimestamp(r), s.clock)])
    case DryRunFails(run, cutoff) =>
      s.(events := s.events + [PurgeEvent(run, DeletionFailed, true, cutoff,
                                          DecisionTimestamp(s.runs[run]), s.clock)])
    case RemoveFile(path) => s.(files := s.files - {path})
  }

  /** One run under review, as the approve, reject and rollback endpoints change it when
      nothing comes between read and write.  A request that finds another status is a
      conflict and changes nothing. */
  class ReviewedRun {
    var run: Run

    constructor (path: Path)
      ensures run == Run(PendingReview, None, None, None, path, None)
    {
      run := Run(PendingReview, None, None, None, path, None);
    }

    method Approve(now: Time) returns (ok: bool)
      modifies this
      ensures ok <==> old(run).status.PendingReview?
      ensures run == if ok then Decided(old(run), Approval, now) else old(run)
      ensures ok ==> run == old(run).(status := Status.Approved, approvedAt := Some(now))
      ensures ok ==> DecisionTimestamp(run) == Some(now)
    {
      ok := run.status == PendingReview;
      if ok {
        run := run.(status := Status.Approved, approvedAt := Some(now));
      }
    }

    method Reject(now: Time) returns (ok: bool)
      modifies this
      ensures ok <==> old(run).status.PendingReview?
      ensures run == if ok then Decided(old(run), Rejection, now) else old(run)
      ensures ok ==> run == old(run).(status := Status.Rejected, rejectedAt := Some(now))
      ensures ok ==> DecisionTimestamp(run) == Some(now)
    {
      ok := run.status == PendingReview;
      if ok {
        run := run.(status := Status.Rejected, rejectedAt := Some(now));
      }
    }

    method Rollback(now: Time) returns (ok: bool)
      modifies this
      ensures ok <==> old(run).status.Approved?
      ensures run == if ok then Decided(old(run), Reversal, now) else old(run)
      ensures ok ==> run == old(run).(status := Status.RolledBack, rolledBackAt := Some(now))
      ensures ok ==> DecisionTimestamp(run) == Some(now) && run.approvedAt == old(run).approvedAt
    {
      ok := run.status == Status.Approved;
      if ok {
        run := run.(status := Status.RolledBack, rolledBackAt := Some(now));
      }
    }
  }

  ghost predicate ValidRun(window: nat, s: State, acts: seq<Action>)
    decreases |acts|
  {
    acts == [] || (Enabled(window, s, acts[0]) && ValidRun(window, Apply(window, s, acts[0]), acts[1..]))
  }

  ghost function Final(window: nat, s: State, acts: seq<Action>): State
    requires ValidRun(window, s, acts)
    decreases |acts|
  {
    if acts == [] then s else Final(window, Apply(window, s, acts[0]), acts[1..])
  }

  lemma RunFirst(window: nat, s: State, a: Action, rest: seq<Action>)
    requires Enabled(window, s, a) && ValidRun(window, Apply(window, s, a), rest)
    ensures ValidRun(window, s, [a] + rest)
    ensures Final(window, s, [a] + rest) == Final(window, Apply(window, s, a), rest)
  {
    assert ([a] + rest)[1..] == rest;
  }

  lemma {:induction false} RunConcat(window: nat, s: State, a: seq<Action>, b: seq<Action>)
    requires ValidRun(window, s, a)
    ensures ValidRun(window, s, a + b) <==> ValidRun(window, Final(window, s, a), b)
    ensures ValidRun(window, s, a + b) ==>
              Final(window, s, a + b) == Final(window, Final(window, s, a), b)
    decreases |a|
  {
    hide Apply;
    if a == [] {
      assert a + b == b;
    } else {
      assert (a + b)[0] == a[0] && (a + b)[1..] == a[1..] + b;
      RunConcat(window, Apply(window, s, a[0]), a[1..], b);
    }
  }

  ghost predicate Initial(s: State) {
    && s.runs == map[] && s.files == {} && s.used == {} && s.locks == map[] && s.events == []
    && s.requests == map[] && s.asked == {}
  }

  /** An event that finalised an artifact. */
  predicate Finalises(e: PurgeEvent) {
    !e.dryRun && !e.outcome.DeletionFailed?
  }

  ghost predicate RunSound(s: State, id: RunId)
    requires id in s.runs
  {
    var r := s.runs[id];
    && r.path in s.used
    && (r.outputDeletedAt.Some? ==> r.path !in s.files && id !in s.locks)
    && (id in s.locks ==> Eligible(r, s.locks[id].cutoff) && (s.locks[id].Unlinked? ==> r.path !in s.files))
    && (r.status.Approved? ==> r.approvedAt.Some?)
    && (r.status.Rejected? ==> r.rejectedAt.Some?)
    && (r.status.RolledBack? ==> r.approvedAt.Some? && r.rolledBackAt.Some?)
    && (r.status.PendingReview? ==> r.outputDeletedAt.None?)
  }

  ghost predicate Finalised(events: seq<PurgeEvent>, id: RunId) {
    exists i :: 0 <= i < |events| && Finalises(events[i]) && events[i].run == id
  }

  ghost predicate EventsSound(window: nat, s: State) {
    && (forall i :: 0 <= i < |s.events| ==>
          var e := s.events[i];
          && e.run in s.runs && e.decidedAt.Some? && e.decidedAt.value <= e.cutoff
          && e.cutoff + window <= e.at <= s.clock)
    && (forall i, j :: 0 <= i < j < |s.events| && Finalises(s.events[i]) && Finalises(s.events[j])
          ==> s.events[i].run != s.events[j].run)
    && (forall i :: 0 <= i < |s.events| && Finalises(s.events[i]) ==>
          s.events[i].run in s.runs && s.runs[s.events[i].run].outputDeletedAt == Some(s.events[i].at))
    && (forall id <- s.runs :: s.runs[id].outputDeletedAt.Some? ==> Finalised(s.events, id))
  }

  ghost predicate RequestsSound(s: State) {
    forall q <- s.requests ::
      var req := s.requests[q];
      && q in s.asked && req.run in s.runs && req.readAt <= s.clock
      && (req.verdict.Reversal? ==> s.runs[req.run].approvedAt.Some?)
  }

  ghost predicate Inv(window: nat, s: State) {
    && RequestsSound(s)
    && s.files <= s.used
    && (forall id <- s.runs :: RunSound(s, id))
    && (forall id <- s.locks :: id in s.runs && s.locks[id].cutoff + window <= s.clock)
    && EventsSound(window, s)
  }

  lemma RunSoundStep(window: nat, s: State, a: Action, id: RunId)
    requires Inv(window, s) && Enabled(window, s, a) && id in Apply(window, s, a).runs
    ensures RunSound(Apply(window, s, a), id)
  {
    hide EventsSound;
    if id in s.runs {
      assert RunSound(s, id);
    }
  }

  lemma LocksSoundStep(window: nat, s: State, a: Action)
    requires Inv(window, s) && Enabled(window, s, a)
    ensures var s' := Apply(window, s, a);
            s'.files <= s'.used && forall id <- s'.locks :: id in s'.runs && s'.locks[id].cutoff + window <= s'.clock
  {
    hide EventsSound, RunSound, RequestsSound;
  }

  lemma RequestsSoundStep(window: nat, s: State, a: Action)
    requires Inv(window, s) && Enabled(window, s, a)
    ensures RequestsSound(Apply(window, s, a))
  {
    hide EventsSound;
  }

  lemma FinalisedMore(events: seq<PurgeEvent>, e: PurgeEvent, id: RunId)
    requires Finalised(events, id) || (Finalises(e) && e.run == id)
    ensures Finalised(events + [e], id)
  {
    var more := events + [e];
    assert more[|events|] == e;
    if Finalised(events, id) {
      var i :| 0 <= i < |events| && Finalises(events[i]) && events[i].run == id;
      assert more[i] == events[i];
    }
  }

  /** A step that logs nothing deletes nothing. */
  lemma EventsKept(window: nat, s: State, s': State)
    requires EventsSound(window, s) && s'.events == s.events && s.clock <= s'.clock
    requires s.runs.Keys <= s'.runs.Keys
    requires forall id <- s'.runs ::
      s'.runs[id].outputDeletedAt == if id in s.runs then s.runs[id].outputDeletedAt else None
    ensures EventsSound(window, s')
  {
  }

  /** A step that logs an event, and deletes exactly when the event says so. */
  lemma EventsMore(window: nat, s: State, s': State, e: PurgeEvent)
    requires EventsSound(window, s) && s'.events == s.events + [e] && s.clock == s'.clock == e.at
    requires s.runs.Keys == s'.runs.Keys && e.run in s.runs
    requires e.decidedAt.Some? && e.decidedAt.value <= e.cutoff && e.cutoff + window <= e.at
    requires forall id <- s.runs :: id != e.run || !Finalises(e) ==>
      s'.runs[id].outputDeletedAt == s.runs[id].outputDeletedAt
    requires Finalises(e) ==> s.runs[e.run].outputDeletedAt.None? && s'.runs[e.run].outputDeletedAt == Some(e.at)
    ensures EventsSound(window, s')
  {
    hide Finalised;
    forall id <- s'.runs | s'.runs[id].outputDeletedAt.Some?
      ensures Finalised(s'.events, id)
    {
      FinalisedMore(s.events, e, id);
    }
  }

  lemma EventsSoundStep(window: nat, s: State, a: Action)
    requires Inv(window, s) && Enabled(window, s, a)
    ensures EventsSound(window, Apply(window, s, a))
  {
    hide EventsSound;
    var s' := Apply(window, s, a);
    if s'.events == s.events {
      EventsKept(window, s, s');
    } else {
      EventsMore(window, s, s', s'.events[|s.events|]);
    }
  }

  lemma InvStep(window: nat, s: State, a: Action)
    requires Inv(window, s) && Enabled(window, s, a)
    ensures Inv(window, Apply(window, s, a))
  {
    hide EventsSound, RunSound, RequestsSound, Apply;
    LocksSoundStep(window, s, a);
    forall id <- Apply(window, s, a).runs {
      RunSoundStep(window, s, a, id);
    }
    RequestsSoundStep(window, s, a);
    EventsSoundStep(window, s, a);
  }

  lemma {:induction false} InvAlways(window: nat, s: State, acts: seq<Action>)
    requires Inv(window, s) && ValidRun(window, s, acts)
    ensures Inv(window, Final(window, s, acts))
    decreases |acts|
  {
    hide Inv, Apply;
    if acts != [] {
      InvStep(window, s, acts[0]);
      InvAlways(window, Apply(window, s, acts[0]), acts[1..]);
    }
  }

  lemma Reachable(window: nat, s: State, acts: seq<Action>)
    requires Initial(s) && ValidRun(window, s, acts)
    ensures Inv(window, Final(window, s, acts))
  {
    InvAlways(window, s, acts);
  }

  // ----- what holds over whole runs

  /** Wherever a deletion is on record the file is gone. */
  lemma DeletedMeansAbsent(window: nat, s: State, acts: seq<Action>, id: RunId)
    requires Initial(s) && ValidRun(window, s, acts) && id in Final(window, s, acts).runs
    requires Final(window, s, acts).runs[id].outputDeletedAt.Some?
    ensures Final(window, s, acts).runs[id].path !in Final(window, s, acts).files
  {
    Reachable(window, s, acts);
    assert RunSound(Final(window, s, acts), id);
  }

  lemma DeletedStep(window: nat, s: State, a: Action, id: RunId)
    requires Inv(window, s) && Enabled(window, s, a) && id in s.runs && s.runs[id].outputDeletedAt.Some?
    ensures id in Apply(window, s, a).runs
    ensures Apply(window, s, a).runs[id].outputDeletedAt == s.runs[id].outputDeletedAt
  {
    assert RunSound(s, id);
  }

  /** A deletion is recorded at most once: the timestamp never changes again. */
  lemma {:induction false} DeletedOnce(window: nat, s: State, acts: seq<Action>, id: RunId)
    requires Inv(window, s) && ValidRun(window, s, acts) && id in s.runs && s.runs[id].outputDeletedAt.Some?
    ensures id in Final(window, s, acts).runs
    ensures Final(window, s, acts).runs[id].outputDeletedAt == s.runs[id].outputDeletedAt
    decreases |acts|
  {
    hide Inv, Apply;
    if acts != [] {
      InvStep(window, s, acts[0]);
      DeletedStep(window, s, acts[0], id);
      DeletedOnce(window, Apply(window, s, acts[0]), acts[1..], id);
    }
  }

  /** Every deletion on record was finalised by exactly one event, whose row carried, in
      the status it then had, a decision at least the whole window old. */
  lemma DeletedOnlyWhenExpired(window: nat, s: State, acts: seq<Action>, id: RunId)
    requires Initial(s) && ValidRun(window, s, acts) && id in Final(window, s, acts).runs
    requires Final(window, s, acts).runs[id].outputDeletedAt.Some?
    ensures exists i :: FinalisingEvent(window, Final(window, s, acts), id, i)
  {
    Reachable(window, s, acts);
    var f := Final(window, s, acts);
    assert Finalised(f.events, id);
    var i :| 0 <= i < |f.events| && Finalises(f.events[i]) && f.events[i].run == id;
    assert FinalisingEvent(window, f, id, i);
  }

  ghost predicate FinalisingEvent(window: nat, f: State, id: RunId, i: int) {
    && 0 <= i < |f.events| && Finalises(f.events[i]) && f.events[i].run == id
    && id in f.runs && f.runs[id].outputDeletedAt == Some(f.events[i].at)
    && f.events[i].decidedAt.Some? && f.events[i].decidedAt.value + window <= f.events[i].at
    && forall j :: 0 <= j < |f.events| && j != i && Finalises(f.events[j]) ==> f.events[j].run != id
  }

  /** While a purge holds the row its decision stays as it was claimed, and pending
      runs are never claimed. */
  lemma ClaimedStaysEligible(window: nat, s: State, acts: seq<Action>, id: RunId)
    requires Initial(s) && ValidRun(window, s, acts) && id in Final(window, s, acts).locks
    ensures var f := Final(window, s, acts);
            id in f.runs && Eligible(f.runs[id], f.locks[id].cutoff) && !f.runs[id].status.PendingReview?
  {
    Reachable(window, s, acts);
    assert RunSound(Final(window, s, acts), id);
  }

  /** A dry run touches no file and no run. */
  lemma DryRunIsReadOnly(window: nat, s: State, run: RunId, cutoff: Time)
    requires Enabled(window, s, DryRun(run, cutoff))
    ensures var s' := Apply(window, s, DryRun(run, cutoff));
            s'.runs == s.runs && s'.files == s.files && s'.locks == s.locks && |s'.events| == |s.events| + 1
            && !Finalises(s'.events[|s.events|])
  {
  }

  // ----- recovery from a crash

  lemma {:induction false} AbsentStaysAbsent(window: nat, s: State, acts: seq<Action>, path: Path)
    requires Inv(window, s) && ValidRun(window, s, acts) && path in s.used && path !in s.files
    ensures path in Final(window, s, acts).used && path !in Final(window, s, acts).files
    decreases |acts|
  {
    hide Inv;
    if acts != [] {
      InvStep(window, s, acts[0]);
      AbsentStaysAbsent(window, Apply(window, s, acts[0]), acts[1..], path);
    }
  }

  lemma {:induction false} PathFixed(window: nat, s: State, acts: seq<Action>, run: RunId)
    requires ValidRun(window, s, acts) && run in s.runs
    ensures run in Final(window, s, acts).runs && Final(window, s, acts).runs[run].path == s.runs[run].path
    decreases |acts|
  {
    if acts != [] {
      PathFixed(window, Apply(window, s, acts[0]), acts[1..], run);
    }
  }

  /** A crash between unlink and commit is repaired by any later pass: whatever happens
      meanwhile, unless the deletion is on record or under way again already, a pass with
      a cutoff that covers the decision then in force finds the file gone, reports it
      already missing and records the deletion. */
  lemma CrashedDeletionCompletes(
      window: nat, s: State, run: RunId, between: seq<Action>, cutoff: Time)
    requires Inv(window, s) && run in s.runs && run in s.locks && s.locks[run].Unlinked?
    requires var crashed := Apply(window, s, Crash(run));
             ValidRun(window, crashed, between)
    ensures var later := Final(window, Apply(window, s, Crash(run)), between);
            && run in later.runs && DecisionTimestamp(later.runs[run]).Some?
            && (later.runs[run].outputDeletedAt.None? && run !in later.locks && cutoff + window <= later.clock
                && DecisionTimestamp(later.runs[run]).value <= cutoff ==>
                PurgedAsMissing(window, later, run, cutoff))
  {
    hide RequestsSound, EventsSound;
    var crashed := Apply(window, s, Crash(run));
    assert RunSound(s, run);
    InvStep(window, s, Crash(run));
    InvAlways(window, crashed, between);
    AbsentStaysAbsent(window, crashed, between, s.runs[run].path);
    NeverBackToReview(window, crashed, between, run);
    PathFixed(window, crashed, between, run);
    var later := Final(window, crashed, between);
    assert RunSound(later, run);
    if Enabled(window, later, ClaimPurge(run, cutoff)) {
      PurgeOfMissing(window, later, run, cutoff);
    }
  }

  /** Nobody decides on the run, and no purge claims it. */
  ghost predicate LeavesAlone(acts: seq<Action>, run: RunId) {
    forall i :: 0 <= i < |acts| ==>
      !(acts[i].WriteDecision? && acts[i].run == run) && !(acts[i].ClaimPurge? && acts[i].run == run)
  }

  /** If the run is left alone after the crash, the very cutoff of the crashed pass still
      covers it, so the next pass completes the deletion. */
  lemma CrashedDeletionStaysClaimable(window: nat, s: State, run: RunId, between: seq<Action>)
    requires Inv(window, s) && run in s.runs && run in s.locks && s.locks[run].Unlinked?
    requires ValidRun(window, Apply(window, s, Crash(run)), between) && LeavesAlone(between, run)
    ensures PurgedAsMissing(window, Final(window, Apply(window, s, Crash(run)), between), run, s.locks[run].cutoff)
  {
    hide RequestsSound, EventsSound;
    var crashed := Apply(window, s, Crash(run));
    assert RunSound(s, run);
    LeftAlone(window, crashed, between, run);
    CrashedDeletionCompletes(window, s, run, between, s.locks[run].cutoff);
  }

  lemma {:induction false} LeftAlone(window: nat, s: State, acts: seq<Action>, run: RunId)
    requires ValidRun(window, s, acts) && run in s.runs && run !in s.locks && LeavesAlone(acts, run)
    ensures var f := Final(window, s, acts);
            run in f.runs && f.runs[run] == s.runs[run] && run !in f.locks && s.clock <= f.clock
    decreases |acts|
  {
    if acts != [] {
      assert !(acts[0].WriteDecision? && acts[0].run == run) && !(acts[0].ClaimPurge? && acts[0].run == run);
      LeftAlone(window, Apply(window, s, acts[0]), acts[1..], run);
    }
  }

  lemma {:induction false} NeverBackToReview(window: nat, s: State, acts: seq<Action>, run: RunId)
    requires ValidRun(window, s, acts) && run in s.runs && !s.runs[run].status.PendingReview?
    ensures run in Final(window, s, acts).runs && !Final(window, s, acts).runs[run].status.PendingReview?
    decreases |acts|
  {
    if acts != [] {
      NeverBackToReview(window, Apply(window, s, acts[0]), acts[1..], run);
    }
  }

  /** An uninterrupted purge of the run is possible and finds nothing to delete. */
  ghost predicate PurgedAsMissing(window: nat, s: State, run: RunId, cutoff: Time) {
    var purge := [ClaimPurge(run, cutoff), Unlink(run), CommitPurge(run)];
    && ValidRun(window, s, purge)
    && var done := Final(window, s, purge);
       && run in done.runs && done.runs[run].outputDeletedAt == Some(s.clock)
       && |done.events| == |s.events| + 1
       && done.events[|s.events|].outcome.AlreadyMissing?
  }

  lemma PurgeOfMissing(window: nat, s: State, run: RunId, cutoff: Time)
    requires Enabled(window, s, ClaimPurge(run, cutoff)) && s.runs[run].path !in s.files
    ensures PurgedAsMissing(window, s, run, cutoff)
  {
    var claim, unlink, commit := ClaimPurge(run, cutoff), Unlink(run), CommitPurge(run);
    var s1 := Apply(window, s, claim);
    var s2 := Apply(window, s1, unlink);
    RunFirst(window, s2, commit, []);
    RunFirst(window, s1, unlink, [commit]);
    RunFirst(window, s, claim, [unlink, commit]);
    assert [claim] + [unlink, commit] == [claim, unlink, commit];
  }
}

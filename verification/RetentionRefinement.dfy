/** A purge pass is a run of the lifecycle protocol, so what the protocol guarantees holds
    of the pass. */
module RetentionRefinement {
  import opened Wrappers
  import opened Batch
  import opened Retention
  import opened RetentionPass
  import opened RetentionCounts
  import opened RetentionWorker

  // ----- one table of the store as a state of the protocol

  /** What an audit event and a protocol event have in common. */
  datatype Fact = Fact(run: RunId, outcome: Outcome, dryRun: bool)

  function Facts(events: seq<PurgeEvent>): seq<Fact> {
    if events == [] then []
    else
      var e := events[|events| - 1];
      Facts(events[..|events| - 1]) + [Fact(e.run, e.outcome, e.dryRun)]
  }

  /** The audit events of one table. */
  function FactsOf(events: seq<AuditEvent>, kind: nat): seq<Fact> {
    if events == [] then []
    else
      var e := events[|events| - 1];
      FactsOf(events[..|events| - 1], kind) + if e.kind == kind then [Fact(e.run, e.outcome, e.dryRun)] else []
  }

  /** A table of the store seen as the state of the protocol, with no purge under way. */
  ghost predicate Sees(s: State, st: Store, kind: nat) {
    && kind < |st.tables| && s.runs == st.tables[kind] && s.files == st.files.Keys && s.locks == map[]
    && Facts(s.events) == FactsOf(st.events, kind)
  }

  lemma FactsSnoc(events: seq<PurgeEvent>, e: PurgeEvent)
    ensures Facts(events + [e]) == Facts(events) + [Fact(e.run, e.outcome, e.dryRun)]
  {
    assert (events + [e])[..|events|] == events;
  }

  lemma FactsOfSnoc(events: seq<AuditEvent>, e: AuditEvent, kind: nat)
    ensures FactsOf(events + [e], kind)
         == FactsOf(events, kind) + if e.kind == kind then [Fact(e.run, e.outcome, e.dryRun)] else []
  {
    assert (events + [e])[..|events|] == events;
  }

  // ----- one transaction

  /** The protocol steps behind one transaction of a pass. */
  function Steps(id: RunId, cutoff: Time, dryRun: bool, fault: Option<Fault>): seq<Action> {
    match fault
    case None =>
      if dryRun then [DryRun(id, cutoff)] else [ClaimPurge(id, cutoff), Unlink(id), CommitPurge(id)]
    case Some(Raises(afterUnlink)) =>
      if dryRun then []
      else if afterUnlink then [ClaimPurge(id, cutoff), Unlink(id), Crash(id)]
      else [ClaimPurge(id, cutoff), Crash(id)]
    case Some(_) =>
      if dryRun then [DryRunFails(id, cutoff)] else [ClaimPurge(id, cutoff), UnlinkFails(id)]
  }

  /** No more than three steps, each possible after those before it. */
  ghost predicate CanTake(window: nat, s: State, acts: seq<Action>) {
    && |acts| <= 3
    && (|acts| >= 1 ==> Enabled(window, s, acts[0]))
    && (|acts| >= 2 ==> Enabled(window, Apply(window, s, acts[0]), acts[1]))
    && (|acts| == 3 ==> Enabled(window, Apply(window, Apply(window, s, acts[0]), acts[1]), acts[2]))
  }

  /** Up to three steps, one after another. */
  ghost function After(window: nat, s: State, acts: seq<Action>): State
    requires CanTake(window, s, acts)
  {
    if |acts| == 0 then s
    else if |acts| == 1 then Apply(window, s, acts[0])
    else if |acts| == 2 then Apply(window, Apply(window, s, acts[0]), acts[1])
    else Apply(window, Apply(window, Apply(window, s, acts[0]), acts[1]), acts[2])
  }

  lemma ShortRun(window: nat, s: State, acts: seq<Action>)
    requires CanTake(window, s, acts)
    ensures ValidRun(window, s, acts) && Final(window, s, acts) == After(window, s, acts)
  {
    hide Apply, Enabled;
    if |acts| == 1 {
      RunFirst(window, s, acts[0], []);
      assert acts == [acts[0]] + [];
    } else if |acts| == 2 {
      RunFirst(window, Apply(window, s, acts[0]), acts[1], []);
      RunFirst(window, s, acts[0], [acts[1]] + []);
      assert acts == [acts[0]] + ([acts[1]] + []);
    } else if |acts| == 3 {
      var s1 := Apply(window, s, acts[0]);
      RunFirst(window, Apply(window, s1, acts[1]), acts[2], []);
      RunFirst(window, s1, acts[1], [acts[2]] + []);
      RunFirst(window, s, acts[0], [acts[1]] + ([acts[2]] + []));
      assert acts == [acts[0]] + ([acts[1]] + ([acts[2]] + []));
    }
  }

  lemma StepsPossible(window: nat, s: State, id: RunId, cutoff: Time, dryRun: bool, fault: Option<Fault>)
    requires s.locks == map[] && id in s.runs && Eligible(s.runs[id], cutoff) && cutoff + window <= s.clock
    ensures CanTake(window, s, Steps(id, cutoff, dryRun, fault))
  {
  }

  /** Where the steps of a transaction lead. */
  function Concluded(s: State, id: RunId, cutoff: Time, dryRun: bool, fault: Option<Fault>): State
    requires id in s.runs
  {
    var r := s.runs[id];
    var event := PurgeEvent(
      id, if fault.Some? then DeletionFailed else if r.path in s.files then Completed else AlreadyMissing,
      dryRun, cutoff, DecisionTimestamp(r), s.clock);
    if fault.Some? && fault.value.Raises? then
      if fault.value.afterUnlink && !dryRun then s.(files := s.files - {r.path}) else s
    else if fault.Some? || dryRun then s.(events := s.events + [event])
    else s.(runs := s.runs[id := r.(outputDeletedAt := Some(s.clock))], files := s.files - {r.path},
            events := s.events + [event])
  }

  lemma StepsLead(window: nat, s: State, id: RunId, cutoff: Time, dryRun: bool, fault: Option<Fault>)
    requires s.locks == map[] && id in s.runs && s.runs[id].outputDeletedAt.None?
    requires CanTake(window, s, Steps(id, cutoff, dryRun, fault))
    ensures After(window, s, Steps(id, cutoff, dryRun, fault)) == Concluded(s, id, cutoff, dryRun, fault)
  {
    hide CanTake, DecisionTimestamp;
  }

  /** A transaction and its steps come to the same. */
  lemma SameConclusion(s: State, st: Store, kind: nat, id: RunId, cutoff: Time, dryRun: bool, fault: Option<Fault>)
    requires Sees(s, st, kind) && id in s.runs
    ensures Sees(Concluded(s, id, cutoff, dryRun, fault), ProcessOne(st, kind, id, dryRun, s.clock, fault), kind)
  {
    hide Facts, FactsOf, DecisionTimestamp;
    var s', st' := Concluded(s, id, cutoff, dryRun, fault), ProcessOne(st, kind, id, dryRun, s.clock, fault);
    if st'.events != st.events {
      FactsOfSnoc(st.events, st'.events[|st.events|], kind);
      FactsSnoc(s.events, s'.events[|s.events|]);
    }
  }

  /** Every transaction of a pass, whatever goes wrong in it, is a run of protocol steps
      with the same effect on rows, files and events. */
  lemma TransactionIsProtocolRun(
      window: nat, s: State, st: Store, kind: nat, id: RunId, cutoff: Time, dryRun: bool, fault: Option<Fault>)
    requires Sees(s, st, kind) && id in s.runs && Eligible(s.runs[id], cutoff) && cutoff + window <= s.clock
    ensures var acts := Steps(id, cutoff, dryRun, fault);
            && ValidRun(window, s, acts) && Final(window, s, acts).clock == s.clock
            && Sees(Final(window, s, acts), ProcessOne(st, kind, id, dryRun, s.clock, fault), kind)
  {
    hide Apply, Enabled, Steps, CanTake, After, ProcessOne;
    StepsPossible(window, s, id, cutoff, dryRun, fault);
    StepsLead(window, s, id, cutoff, dryRun, fault);
    ShortRun(window, s, Steps(id, cutoff, dryRun, fault));
    SameConclusion(s, st, kind, id, cutoff, dryRun, fault);
  }

  /** What another table's transaction looks like from here: at most a file goes. */
  function StepsElsewhere(path: Path, dryRun: bool, fault: Option<Fault>): seq<Action> {
    if !dryRun && (fault.None? || fault == Some(Raises(true))) then [RemoveFile(path)] else []
  }

  lemma TransactionElsewhere(
      window: nat, s: State, st: Store, kind: nat, other: nat, id: RunId, dryRun: bool, fault: Option<Fault>)
    requires Sees(s, st, kind) && other != kind && other < |st.tables| && id in st.tables[other]
    ensures var acts := StepsElsewhere(st.tables[other][id].path, dryRun, fault);
            && ValidRun(window, s, acts) && Final(window, s, acts).clock == s.clock
            && Sees(Final(window, s, acts), ProcessOne(st, other, id, dryRun, s.clock, fault), kind)
  {
    hide Facts, FactsOf;
    var st' := ProcessOne(st, other, id, dryRun, s.clock, fault);
    ShortRun(window, s, StepsElsewhere(st.tables[other][id].path, dryRun, fault));
    if st'.events != st.events {
      FactsOfSnoc(st.events, st'.events[|st.events|], kind);
    }
  }

  // ----- one table

  /** `out` is reached from `s` by protocol steps that take no time. */
  ghost predicate Reaches(window: nat, s: State, out: State) {
    exists acts :: ValidRun(window, s, acts) && Final(window, s, acts) == out && out.clock == s.clock
  }

  lemma ReachesSelf(window: nat, s: State)
    ensures Reaches(window, s, s)
  {
    assert ValidRun(window, s, []) && Final(window, s, []) == s;
  }

  lemma ReachesMore(window: nat, s: State, mid: State, acts: seq<Action>)
    requires Reaches(window, s, mid) && ValidRun(window, mid, acts)
    requires Final(window, mid, acts).clock == mid.clock
    ensures Reaches(window, s, Final(window, mid, acts))
  {
    var first :| ValidRun(window, s, first) && Final(window, s, first) == mid && mid.clock == s.clock;
    RunConcat(window, s, first, acts);
  }

  /** The runs named are different and all eligible. */
  ghost predicate AllEligible(table: map<RunId, Run>, cutoff: Time, ids: seq<RunId>) {
    && (forall i :: 0 <= i < |ids| ==> ids[i] in table && Eligible(table[ids[i]], cutoff))
    && forall i, j :: 0 <= i < j < |ids| ==> ids[i] != ids[j]
  }

  /** The transactions of one table, as the protocol of table `kind` sees them. */
  lemma {:induction false} TableIsProtocolRun(
      window: nat, s: State, st: Store, kind: nat, visited: nat, ids: seq<RunId>, cutoff: Time, dryRun: bool,
      faults: Faults)
    returns (out: State)
    requires Sees(s, st, kind) && InTable(st, visited, ids) && cutoff + window <= s.clock
    requires AllEligible(st.tables[visited], cutoff, ids)
    ensures Reaches(window, s, out) && Sees(out, ProcessAll(st, visited, ids, dryRun, s.clock, faults), kind)
  {
    hide Sees, ProcessOne, Eligible, Reaches;
    if ids == [] {
      out := s;
      ReachesSelf(window, s);
    } else {
      var front, id := ids[..|ids| - 1], ids[|ids| - 1];
      var mid := TableIsProtocolRun(window, s, st, kind, visited, front, cutoff, dryRun, faults);
      var st', fault := ProcessAll(st, visited, front, dryRun, s.clock, faults), FaultOf(faults, visited, id);
      ReachesTakesNoTime(window, s, mid);
      ProcessAllRows(st, visited, front, dryRun, s.clock, faults, visited, id);
      SeenRows(mid, st', kind);
      if visited == kind {
        TransactionIsProtocolRun(window, mid, st', kind, id, cutoff, dryRun, fault);
        ReachesMore(window, s, mid, Steps(id, cutoff, dryRun, fault));
        out := Final(window, mid, Steps(id, cutoff, dryRun, fault));
      } else {
        var acts := StepsElsewhere(st'.tables[visited][id].path, dryRun, fault);
        TransactionElsewhere(window, mid, st', kind, visited, id, dryRun, fault);
        ReachesMore(window, s, mid, acts);
        out := Final(window, mid, acts);
      }
    }
  }

  lemma ReachesTakesNoTime(window: nat, s: State, out: State)
    requires Reaches(window, s, out)
    ensures out.clock == s.clock
  {
  }

  lemma SeenRows(s: State, st: Store, kind: nat)
    requires Sees(s, st, kind)
    ensures kind < |st.tables| && s.runs == st.tables[kind]
  {
  }

  // ----- the whole pass

  /** Until it is visited, a table is as the pass found it. */
  lemma {:induction false} NotYetVisited(
      stages: seq<Store>, attempted: seq<seq<RunId>>, dryRun: bool, now: Time, faults: Faults, k: nat)
    requires Stages(stages, attempted, dryRun, now, faults) && k < |stages|
    ensures |stages[k].tables| == |stages[0].tables|
    ensures forall j :: k <= j < |stages[0].tables| ==> stages[k].tables[j] == stages[0].tables[j]
  {
    hide ProcessAll;
    if k > 0 {
      NotYetVisited(stages, attempted, dryRun, now, faults, k - 1);
      TablesAfter(stages[k - 1], k - 1, attempted[k - 1], dryRun, now, faults);
    }
  }

  lemma ChosenAreEligible(table: map<RunId, Run>, cutoff: Time, budget: nat, ids: seq<RunId>)
    requires FirstOf(EligibleRuns(table, cutoff), budget, ids)
    ensures AllEligible(table, cutoff, ids)
  {
    hide Eligible;
  }

  /** A pass over all tables, with whatever goes wrong in it, is for each table a run of
      the protocol that leads from what the pass found to what it left. */
  lemma {:induction false} PassIsProtocolRun(
      window: nat, s: State, stages: seq<Store>, attempted: seq<seq<RunId>>, batch: nat, dryRun: bool,
      faults: Faults, kind: nat, k: nat)
    returns (out: State)
    requires Stages(stages, attempted, dryRun, s.clock, faults) && k < |stages|
    requires WithinBudget(stages[0].tables, s.clock - window, batch, attempted)
    requires Sees(s, stages[0], kind)
    ensures Reaches(window, s, out) && Sees(out, stages[k], kind)
  {
    hide Sees, ProcessAll, Reaches, FirstOf, EligibleRuns, AllEligible, InTable, Left;
    if k == 0 {
      out := s;
      ReachesSelf(window, s);
    } else {
      var mid := PassIsProtocolRun(window, s, stages, attempted, batch, dryRun, faults, kind, k - 1);
      ReachesTakesNoTime(window, s, mid);
      NotYetVisited(stages, attempted, dryRun, s.clock, faults, k - 1);
      ChosenAreEligible(stages[0].tables[k - 1], s.clock - window, Left(batch, attempted, k - 1), attempted[k - 1]);
      out := TableIsProtocolRun(
        window, mid, stages[k - 1], kind, k - 1, attempted[k - 1], s.clock - window, dryRun, faults);
      ReachesTwice(window, s, mid, out);
    }
  }

  lemma ReachesTwice(window: nat, s: State, mid: State, out: State)
    requires Reaches(window, s, mid) && Reaches(window, mid, out)
    ensures Reaches(window, s, out)
  {
    var acts :| ValidRun(window, mid, acts) && Final(window, mid, acts) == out && out.clock == mid.clock;
    ReachesMore(window, s, mid, acts);
  }

  /** The lifecycle invariant survives a pass, so after it a deletion on record still means
      that the file is gone, in every table. */
  lemma PassKeepsInvariant(
      window: nat, s: State, stages: seq<Store>, attempted: seq<seq<RunId>>, batch: nat, dryRun: bool,
      faults: Faults, kind: nat)
    requires Stages(stages, attempted, dryRun, s.clock, faults)
    requires WithinBudget(stages[0].tables, s.clock - window, batch, attempted)
    requires Sees(s, stages[0], kind) && Inv(window, s)
    ensures var last := stages[|stages| - 1];
            exists out :: Inv(window, out) && Sees(out, last, kind)
    ensures var last := stages[|stages| - 1];
            kind < |last.tables| && forall id <- last.tables[kind] ::
              last.tables[kind][id].outputDeletedAt.Some? ==> last.tables[kind][id].path !in last.files
  {
    hide WithinBudget, EventsSound, RequestsSound, ProcessAll;
    var out := PassIsProtocolRun(window, s, stages, attempted, batch, dryRun, faults, kind, |stages| - 1);
    var acts :| ValidRun(window, s, acts) && Final(window, s, acts) == out && out.clock == s.clock;
    InvAlways(window, s, acts);
    var last := stages[|stages| - 1];
    forall id <- last.tables[kind] | last.tables[kind][id].outputDeletedAt.Some?
      ensures last.tables[kind][id].path !in last.files
    {
      assert RunSound(out, id);
    }
  }
}

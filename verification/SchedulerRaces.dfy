/** Scheduler passes running side by side: selections may be stale, and each commit is
    guarded by what its pass had seen. */
module SchedulerRaces {
  import opened Wrappers
  import opened Batch
  import opened Scheduler

  /** A created run, with the interval in force when it was created. */
  datatype Occurrence = Occurrence(task: TaskId, at: Time, interval: nat)

  datatype State = State(tasks: map<TaskId, Task>, occurrences: seq<Occurrence>, clock: Time)

  datatype Action =
    | Tick(elapsed: nat)
    /** a pass that read the clock at `now` and selected the task at `seen` commits */
    | Commit(task: TaskId, now: Time, seen: Time)
    | SetActive(task: TaskId, active: bool)
    /** the interval is set, changed or removed through the API; the next run is
        recomputed from a clock reading that may be old by the time of the write */
    | SetInterval(task: TaskId, interval: Option<nat>, now: Time)

  predicate Enabled(s: State, a: Action) {
    match a
    case Tick(_) => true
    case Commit(task, now, seen) => task in s.tasks && now <= s.clock && seen <= now
    case SetActive(task, _) => task in s.tasks
    case SetInterval(task, interval, now) =>
      task in s.tasks && now <= s.clock && (interval.Some? ==> interval.value > 0)
  }

  function Apply(s: State, a: Action): State
    requires Enabled(s, a)
  {
    match a
    case Tick(elapsed) => s.(clock := s.clock + elapsed)
    case Commit(task, now, seen) =>
      var t := s.tasks[task];
      if t.nextRunAt == Some(seen) && t.active && t.interval.Some? then
        s.(tasks := s.tasks[task := t.(nextRunAt := Some(now + t.interval.value))],
           occurrences := s.occurrences + [Occurrence(task, now, t.interval.value)])
      else s
    case SetActive(task, active) => s.(tasks := s.tasks[task := s.tasks[task].(active := active)])
    case SetInterval(task, interval, now) =>
      s.(tasks := s.tasks[task := s.tasks[task].(
           interval := interval,
           nextRunAt := if interval.Some? then Some(now + interval.value) else None)])
  }

  ghost predicate ValidRun(s: State, acts: seq<Action>)
    decreases |acts|
  {
    acts == [] || (Enabled(s, acts[0]) && ValidRun(Apply(s, acts[0]), acts[1..]))
  }

  ghost function Final(s: State, acts: seq<Action>): State
    requires ValidRun(s, acts)
    decreases |acts|
  {
    if acts == [] then s else Final(Apply(s, acts[0]), acts[1..])
  }

  /** Runs of one task are spaced by the interval of the later one, and a scheduled task
      is not due again before its interval has passed since each of its runs. */
  ghost predicate Spaced(s: State) {
    && (forall i, j :: 0 <= i < j < |s.occurrences| && s.occurrences[i].task == s.occurrences[j].task
          ==> s.occurrences[i].at + s.occurrences[j].interval <= s.occurrences[j].at)
    && (forall i :: 0 <= i < |s.occurrences| ==>
          var o := s.occurrences[i];
          && o.at <= s.clock && o.task in s.tasks
          && (s.tasks[o.task].interval.Some? <==> s.tasks[o.task].nextRunAt.Some?)
          && (s.tasks[o.task].interval.Some? ==>
                o.at + s.tasks[o.task].interval.value <= s.tasks[o.task].nextRunAt.value))
    && (forall id <- s.tasks :: ValidTask(s.tasks[id]))
  }

  /** An edit is timely if no pass has scheduled the task since the edit read the clock. */
  ghost predicate Timely(s: State, a: Action) {
    a.SetInterval? && a.interval.Some? ==>
      forall i :: 0 <= i < |s.occurrences| && s.occurrences[i].task == a.task ==> s.occurrences[i].at <= a.now
  }

  ghost predicate TimelyRun(s: State, acts: seq<Action>)
    requires ValidRun(s, acts)
    decreases |acts|
  {
    acts == [] || (Timely(s, acts[0]) && TimelyRun(Apply(s, acts[0]), acts[1..]))
  }

  /** A step keeps the spacing if and only if it is not an edit that comes too late. */
  lemma SpacedStep(s: State, a: Action)
    requires Spaced(s) && Enabled(s, a)
    ensures Spaced(Apply(s, a)) <==> Timely(s, a)
  {
    var s' := Apply(s, a);
    if !Timely(s, a) {
      var i :| 0 <= i < |s.occurrences| && s.occurrences[i].task == a.task && s.occurrences[i].at > a.now;
      assert s'.occurrences[i] == s.occurrences[i];
    }
  }

  lemma {:induction false} SpacedAlways(s: State, acts: seq<Action>)
    requires Spaced(s) && ValidRun(s, acts) && TimelyRun(s, acts)
    ensures Spaced(Final(s, acts))
    decreases |acts|
  {
    if acts != [] {
      SpacedStep(s, acts[0]);
      SpacedAlways(Apply(s, acts[0]), acts[1..]);
    }
  }

  /** Any two runs of one task have pass clocks at least the interval of the later apart. */
  ghost predicate KeepsDistance(s: State) {
    forall i, j :: 0 <= i < j < |s.occurrences| && s.occurrences[i].task == s.occurrences[j].task
      ==> s.occurrences[i].at + s.occurrences[j].interval <= s.occurrences[j].at
  }

  /** Under any interleaving of passes, commits and timely edits, two runs of one task have
      pass clocks at least the interval apart: no occurrence is ever created twice. */
  lemma RunsKeepTheirDistance(s: State, acts: seq<Action>)
    requires s.occurrences == [] && (forall id <- s.tasks :: ValidTask(s.tasks[id]))
    requires ValidRun(s, acts) && TimelyRun(s, acts)
    ensures KeepsDistance(Final(s, acts))
  {
    SpacedAlways(s, acts);
  }

  /** With no edits at all nothing is left to assume. */
  lemma {:induction false} NoEditsAreTimely(s: State, acts: seq<Action>)
    requires ValidRun(s, acts) && forall i :: 0 <= i < |acts| ==> !acts[i].SetInterval?
    ensures TimelyRun(s, acts)
    decreases |acts|
  {
    if acts != [] {
      assert !acts[0].SetInterval?;
      NoEditsAreTimely(Apply(s, acts[0]), acts[1..]);
    }
  }

  /** A late edit of an active task sets it up for a run that comes too soon: after it,
      waiting for the task to fall due and scheduling it breaks the distance. */
  lemma LateEditBringsRunsTooClose(s: State, a: Action) returns (acts: seq<Action>)
    requires Spaced(s) && Enabled(s, a) && !Timely(s, a) && s.tasks[a.task].active
    ensures ValidRun(Apply(s, a), acts) && TimelyRun(Apply(s, a), acts)
    ensures !KeepsDistance(Final(Apply(s, a), acts))
  {
    var s1 := Apply(s, a);
    var due := a.now + a.interval.value;
    var wait, commit := Tick(if due <= s1.clock then 0 else due - s1.clock), Commit(a.task, due, due);
    var s2 := Apply(s1, wait);
    var s3 := Apply(s2, commit);
    acts := [wait, commit];
    assert acts[1..] == [commit] && [commit][1..] == [];
    assert ValidRun(s3, []) && TimelyRun(s3, []) && Final(s3, []) == s3;
    assert ValidRun(s2, [commit]) && TimelyRun(s2, [commit]) && Final(s2, [commit]) == s3;
    var i :| 0 <= i < |s.occurrences| && s.occurrences[i].task == a.task && s.occurrences[i].at > a.now;
    assert s3.occurrences[i] == s.occurrences[i] && s3.occurrences[|s.occurrences|].task == a.task;
  }

  // ----- an undisturbed pass is one of these runs

  /** The commits of a pass, in order. */
  ghost function Commits(
    tasks: map<TaskId, Task>, attempted: seq<TaskId>, failing: set<TaskId>, now: Time): seq<Action>
    requires forall i :: 0 <= i < |attempted| ==> attempted[i] in tasks && IsDue(tasks[attempted[i]], now)
  {
    if attempted == [] then []
    else
      var id := attempted[|attempted| - 1];
      assert IsDue(tasks[id], now);
      Commits(tasks, attempted[..|attempted| - 1], failing, now)
      + if id in failing then [] else [Commit(id, now, tasks[id].nextRunAt.value)]
  }

  lemma {:induction false} RunOneMore(s: State, acts: seq<Action>, a: Action)
    requires ValidRun(s, acts) && Enabled(Final(s, acts), a)
    ensures ValidRun(s, acts + [a]) && Final(s, acts + [a]) == Apply(Final(s, acts), a)
    decreases |acts|
  {
    hide Apply;
    var more := acts + [a];
    if acts == [] {
      assert more == [a] && more[1..] == [];
    } else {
      assert more[0] == acts[0] && more[1..] == acts[1..] + [a];
      RunOneMore(Apply(s, acts[0]), acts[1..], a);
    }
  }

  lemma AttemptedAreDue(tasks: map<TaskId, Task>, now: Time, attempted: seq<TaskId>)
    requires Prefix(DueTasks(tasks, now), attempted)
    ensures forall i :: 0 <= i < |attempted| ==> attempted[i] in tasks && IsDue(tasks[attempted[i]], now)
    ensures forall i, j :: 0 <= i < j < |attempted| ==> attempted[i] != attempted[j]
  {
  }

  /** The occurrences added are the runs created, in order. */
  ghost predicate Records(before: seq<Occurrence>, after: seq<Occurrence>, runs: seq<ScheduledRun>) {
    && |after| == |before| + |runs| && before <= after
    && forall i :: 0 <= i < |runs| ==>
         after[|before| + i].task == runs[i].task && after[|before| + i].at == runs[i].at
  }

  /** What a pass is specified to do to the table is what its commits do one by one. */
  lemma {:induction false} PassIsCommits(s: State, attempted: seq<TaskId>, failing: set<TaskId>, now: Time)
    requires forall i :: 0 <= i < |attempted| ==> attempted[i] in s.tasks && IsDue(s.tasks[attempted[i]], now)
    requires forall i, j :: 0 <= i < j < |attempted| ==> attempted[i] != attempted[j]
    requires now <= s.clock
    ensures ValidRun(s, Commits(s.tasks, attempted, failing, now))
    ensures var out := Final(s, Commits(s.tasks, attempted, failing, now));
            && Advanced(s.tasks, out.tasks, attempted, failing, now)
            && Records(s.occurrences, out.occurrences, RunsFor(attempted, failing, now))
            && out.clock == s.clock
  {
    hide Advanced, Enabled, ValidRun, Final, RunsFor, Records;
    if attempted == [] {
      NoCommits(s, failing, now);
    } else {
      var front, id := attempted[..|attempted| - 1], attempted[|attempted| - 1];
      assert attempted == front + [id];
      PassIsCommits(s, front, failing, now);
      var acts := Commits(s.tasks, front, failing, now);
      var mid := Final(s, acts);
      assert id !in front && IsDue(s.tasks[id], now);
      RunsForSnoc(front, id, failing, now);
      Untouched(s.tasks, mid.tasks, front, failing, now, id);
      AdvancedNext(s.tasks, mid.tasks, front, failing, now, id);
      if id in failing {
        assert acts + [] == acts;
        assert RunsFor(front, failing, now) + [] == RunsFor(front, failing, now);
      } else {
        RecordsNext(s.occurrences, mid.occurrences, RunsFor(front, failing, now),
                    ScheduledRun(id, now), s.tasks[id].interval.value);
        var a := Commit(id, now, s.tasks[id].nextRunAt.value);
        CommitEnabled(mid, a);
        RunOneMore(s, acts, a);
      }
    }
  }

  lemma NoCommits(s: State, failing: set<TaskId>, now: Time)
    ensures ValidRun(s, []) && Final(s, []) == s
    ensures Advanced(s.tasks, s.tasks, [], failing, now) && RunsFor([], failing, now) == []
    ensures Records(s.occurrences, s.occurrences, [])
  {
  }

  lemma RecordsNext(
      before: seq<Occurrence>, after: seq<Occurrence>, runs: seq<ScheduledRun>, r: ScheduledRun, interval: nat)
    requires Records(before, after, runs)
    ensures Records(before, after + [Occurrence(r.task, r.at, interval)], runs + [r])
  {
  }

  lemma CommitEnabled(s: State, a: Action)
    requires a.Commit? && a.task in s.tasks && a.now <= s.clock && a.seen <= a.now
    ensures Enabled(s, a)
  {
  }

  lemma Untouched(
      before: map<TaskId, Task>, after: map<TaskId, Task>, attempted: seq<TaskId>, failing: set<TaskId>,
      now: Time, id: TaskId)
    requires Advanced(before, after, attempted, failing, now) && id in before && id !in attempted
    ensures id in after && after[id] == before[id]
  {
  }

  /** The undisturbed pass, as specified for the scheduler loop, is a run of this system. */
  lemma UndisturbedPassIsARun(s: State, batch: nat, attempted: seq<TaskId>, failing: set<TaskId>, now: Time)
    requires FirstOf(DueTasks(s.tasks, now), batch, attempted) && now <= s.clock
    ensures exists acts :: ValidRun(s, acts)
              && Advanced(s.tasks, Final(s, acts).tasks, attempted, failing, now)
              && Records(s.occurrences, Final(s, acts).occurrences, RunsFor(attempted, failing, now))
  {
    hide Advanced, Records, RunsFor, ValidRun, Final;
    AttemptedAreDue(s.tasks, now, attempted);
    PassIsCommits(s, attempted, failing, now);
  }
}

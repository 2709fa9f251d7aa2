/** The scheduler pass: one transaction per due task, which advances the task and
    creates a run, or is rolled back and set aside for the rest of the pass. */
module Scheduler {
  import opened Wrappers
  import opened Batch

  type TaskId = nat

  datatype Task = Task(active: bool, interval: Option<nat>, nextRunAt: Option<Time>)

  datatype ScheduledRun = ScheduledRun(task: TaskId, at: Time)

  /** The table's constraints: a schedule has both an interval and a next run, or
      neither, and intervals are positive. */
  ghost predicate ValidTask(t: Task) {
    (t.interval.Some? <==> t.nextRunAt.Some?) && (t.interval.Some? ==> t.interval.value > 0)
  }

  predicate IsDue(t: Task, now: Time) {
    t.interval.Some? && t.active && t.nextRunAt.Some? && t.nextRunAt.value <= now
  }

  /** Due tasks with the time they are ordered by. */
  ghost function DueTasks(tasks: map<TaskId, Task>, now: Time): map<TaskId, Time> {
    map id | id in tasks && IsDue(tasks[id], now) :: tasks[id].nextRunAt.value
  }

  /** The runs created for the attempted tasks whose transaction commits. */
  function RunsFor(attempted: seq<TaskId>, failing: set<TaskId>, now: Time): seq<ScheduledRun> {
    if attempted == [] then []
    else
      var id := attempted[|attempted| - 1];
      RunsFor(attempted[..|attempted| - 1], failing, now) + if id in failing then [] else [ScheduledRun(id, now)]
  }

  /** The table after the pass: committed tasks are advanced from the pass clock. */
  ghost predicate Advanced(
    before: map<TaskId, Task>, after: map<TaskId, Task>, attempted: seq<TaskId>, failing: set<TaskId>, now: Time)
  {
    && after.Keys == before.Keys
    && forall id <- before ::
         after[id] == if id in attempted && id !in failing && before[id].interval.Some?
                      then before[id].(nextRunAt := Some(now + before[id].interval.value))
                      else before[id]
  }

  /** The tasks attempted are different active tasks whose next run is past, at most `batch`
      of them, in order of that time and then of identifier; every other such task comes
      after them, and there is none unless the batch is full. */
  ghost predicate OldestDue(tasks: map<TaskId, Task>, now: Time, batch: nat, attempted: seq<TaskId>) {
    && |attempted| <= batch
    && (forall i :: 0 <= i < |attempted| ==> Waiting(tasks, attempted[i], now))
    && (forall i, j :: 0 <= i < j < |attempted| ==> Sooner(tasks, attempted[i], attempted[j]))
    && (forall id | Waiting(tasks, id, now) && id !in attempted ::
          |attempted| == batch && forall i :: 0 <= i < |attempted| ==> Sooner(tasks, attempted[i], id))
  }

  ghost predicate Waiting(tasks: map<TaskId, Task>, id: TaskId, now: Time) {
    && id in tasks && tasks[id].active && tasks[id].interval.Some?
    && tasks[id].nextRunAt.Some? && tasks[id].nextRunAt.value <= now
  }

  ghost predicate Sooner(tasks: map<TaskId, Task>, a: TaskId, b: TaskId) {
    && a in tasks && b in tasks && tasks[a].nextRunAt.Some? && tasks[b].nextRunAt.Some?
    && var s, t := tasks[a].nextRunAt.value, tasks[b].nextRunAt.value;
       s < t || (s == t && a < b)
  }

  ghost predicate HasRun(runs: seq<ScheduledRun>, id: TaskId) {
    exists i :: 0 <= i < |runs| && runs[i].task == id
  }

  /** The tasks attempted whose transaction commits. */
  ghost function Committed(attempted: seq<TaskId>, failing: set<TaskId>): set<TaskId> {
    set id | id in attempted && id !in failing
  }

  /** One run for each task whose transaction commits, at the pass clock, in order. */
  ghost predicate OneRunEach(runs: seq<ScheduledRun>, attempted: seq<TaskId>, failing: set<TaskId>, now: Time) {
    && (forall i :: 0 <= i < |runs| ==>
          runs[i].at == now && runs[i].task in attempted && runs[i].task !in failing)
    && (forall id | id in attempted && id !in failing :: HasRun(runs, id))
    && forall i, j :: 0 <= i < j < |runs| ==> runs[i].task != runs[j].task
  }

  lemma AttemptedAreOldest(tasks: map<TaskId, Task>, now: Time, batch: nat, attempted: seq<TaskId>)
    requires FirstOf(DueTasks(tasks, now), batch, attempted)
    ensures OldestDue(tasks, now, batch, attempted)
  {
    var due := DueTasks(tasks, now);
    forall id | Waiting(tasks, id, now)
      ensures id in due
    {
    }
  }

  lemma OldestDueDiffer(tasks: map<TaskId, Task>, now: Time, batch: nat, attempted: seq<TaskId>)
    requires OldestDue(tasks, now, batch, attempted)
    ensures forall i, j :: 0 <= i < j < |attempted| ==> attempted[i] != attempted[j]
  {
  }

  lemma OneRunMore(runs: seq<ScheduledRun>, attempted: seq<TaskId>, id: TaskId, failing: set<TaskId>, now: Time)
    requires OneRunEach(runs, attempted, failing, now) && id !in attempted
    ensures OneRunEach(runs + if id in failing then [] else [ScheduledRun(id, now)], attempted + [id], failing, now)
  {
    var after := runs + if id in failing then [] else [ScheduledRun(id, now)];
    forall x | x in attempted + [id] && x !in failing
      ensures HasRun(after, x)
    {
      if x in attempted {
        assert HasRun(runs, x);
        var i :| 0 <= i < |runs| && runs[i].task == x;
        assert after[i].task == x;
      } else {
        assert after[|runs|].task == x;
      }
    }
  }

  lemma {:induction false} RunsForEach(attempted: seq<TaskId>, failing: set<TaskId>, now: Time)
    requires forall i, j :: 0 <= i < j < |attempted| ==> attempted[i] != attempted[j]
    ensures OneRunEach(RunsFor(attempted, failing, now), attempted, failing, now)
    ensures |RunsFor(attempted, failing, now)| == |Committed(attempted, failing)|
  {
    if attempted == [] {
      assert Committed(attempted, failing) == {};
    } else {
      hide OneRunEach;
      var front, id := attempted[..|attempted| - 1], attempted[|attempted| - 1];
      assert attempted == front + [id] && id !in front;
      RunsForEach(front, failing, now);
      OneRunMore(RunsFor(front, failing, now), front, id, failing, now);
      CommittedMore(front, id, failing);
    }
  }

  lemma CommittedMore(attempted: seq<TaskId>, id: TaskId, failing: set<TaskId>)
    requires id !in attempted
    ensures |Committed(attempted + [id], failing)| == |Committed(attempted, failing)| + if id in failing then 0 else 1
  {
    assert Committed(attempted + [id], failing)
        == Committed(attempted, failing) + if id in failing then {} else {id};
  }

  lemma RunsForSnoc(attempted: seq<TaskId>, id: TaskId, failing: set<TaskId>, now: Time)
    ensures RunsFor(attempted + [id], failing, now)
         == RunsFor(attempted, failing, now) + if id in failing then [] else [ScheduledRun(id, now)]
  {
    assert (attempted + [id])[..|attempted|] == attempted;
  }

  class TaskTable {
    var tasks: map<TaskId, Task>
    var runs: seq<ScheduledRun>

    ghost predicate Valid()
      reads this
    {
      forall id <- tasks :: ValidTask(tasks[id])
    }

    constructor (tasks: map<TaskId, Task>)
      requires forall id <- tasks :: ValidTask(tasks[id])
      ensures Valid() && this.tasks == tasks && runs == []
    {
      this.tasks, runs := tasks, [];
    }

    /** The selection query: the first due task not set aside. */
    method SelectDue(now: Time, excluded: set<TaskId>) returns (next: Option<TaskId>)
      requires Valid()
      ensures next.Some? ==> next.value in tasks && IsDue(tasks[next.value], now) && next.value !in excluded
      ensures next.Some? ==> forall x <- tasks :: IsDue(tasks[x], now) && x !in excluded && x != next.value ==>
                Precedes(tasks[next.value].nextRunAt.value, next.value, tasks[x].nextRunAt.value, x)
      ensures next.None? ==> forall x <- tasks :: IsDue(tasks[x], now) ==> x in excluded
    {
      next := None;
      var rest := tasks.Keys;
      while rest != {}
        invariant rest <= tasks.Keys
        invariant next.Some? ==> next.value in tasks && IsDue(tasks[next.value], now) && next.value !in excluded
        invariant next.Some? ==> forall x <- tasks.Keys - rest ::
                    IsDue(tasks[x], now) && x !in excluded && x != next.value ==>
                    Precedes(tasks[next.value].nextRunAt.value, next.value, tasks[x].nextRunAt.value, x)
        invariant next.None? ==> forall x <- tasks.Keys - rest :: IsDue(tasks[x], now) ==> x in excluded
      {
        var x :| x in rest;
        rest := rest - {x};
        if IsDue(tasks[x], now) && x !in excluded
           && (next.None? || Precedes(tasks[x].nextRunAt.value, x,
                                      tasks[next.value].nextRunAt.value, next.value)) {
          next := Some(x);
        }
      }
    }

    /** The guarded update: it advances the task only if the row is still as selected. */
    method Advance(id: TaskId, seen: Option<Time>, interval: nat, now: Time) returns (ok: bool)
      requires id in tasks
      modifies this`tasks
      ensures ok <==> old(tasks)[id].nextRunAt == seen && old(tasks)[id].active && old(tasks)[id].interval.Some?
      ensures tasks == if ok then old(tasks)[id := old(tasks)[id].(nextRunAt := Some(now + interval))] else old(tasks)
    {
      ok := tasks[id].nextRunAt == seen && tasks[id].active && tasks[id].interval.Some?;
      if ok {
        tasks := tasks[id := tasks[id].(nextRunAt := Some(now + interval))];
      }
    }

    /** An undisturbed pass attempts exactly the first `batch` due tasks in order, each
        once; `failing` are the tasks whose transaction raises and is rolled back. */
    method RunDueSchedules(now: Time, batch: nat, failing: set<TaskId>)
      returns (created: nat, attempted: seq<TaskId>)
      requires Valid()
      modifies this
      ensures Valid()
      ensures FirstOf(DueTasks(old(tasks), now), batch, attempted)
      ensures Advanced(old(tasks), tasks, attempted, failing, now)
      ensures runs == old(runs) + RunsFor(attempted, failing, now)
      ensures created == |RunsFor(attempted, failing, now)|
      ensures OldestDue(old(tasks), now, batch, attempted)
      ensures created == |Committed(attempted, failing)|
      ensures |runs| == |old(runs)| + created && runs[..|old(runs)|] == old(runs)
      ensures OneRunEach(runs[|old(runs)|..], attempted, failing, now)
    {
      hide Prefix, Advanced, DueTasks, RunsFor, Earliest, OldestDue, OneRunEach;
      created, attempted := 0, [];
      var excluded: set<TaskId> := {};
      ghost var due := DueTasks(old(tasks), now);
      PassStart(tasks, failing, now);
      while |attempted| < batch
        invariant Valid() && |attempted| <= batch
        invariant Prefix(due, attempted)
        invariant Advanced(old(tasks), tasks, attempted, failing, now)
        invariant runs == old(runs) + RunsFor(attempted, failing, now)
        invariant created == |RunsFor(attempted, failing, now)|
        invariant forall id :: id in excluded <==> id in attempted && id in failing
      {
        var next := SelectDue(now, excluded);
        if next.None? {
          NothingLeft(old(tasks), tasks, attempted, failing, now, excluded);
          break;
        }
        var id := next.value;
        SelectedIsEarliest(old(tasks), tasks, attempted, failing, now, excluded, id);
        PrefixNext(due, attempted, id);
        RunsForSnoc(attempted, id, failing, now);
        AdvancedNext(old(tasks), tasks, attempted, failing, now, id);
        attempted := attempted + [id];
        var seen, interval := tasks[id].nextRunAt, tasks[id].interval.value;
        if id in failing {
          excluded := excluded + {id};
          continue;
        }
        var ok := Advance(id, seen, interval, now);
        if !ok {
          excluded := excluded + {id};
          continue;
        }
        runs := runs + [ScheduledRun(id, now)];
        created := created + 1;
      }
      AttemptedAreOldest(old(tasks), now, batch, attempted);
      OldestDueDiffer(old(tasks), now, batch, attempted);
      RunsForEach(attempted, failing, now);
    }
  }

  lemma PassStart(tasks: map<TaskId, Task>, failing: set<TaskId>, now: Time)
    ensures Prefix(DueTasks(tasks, now), []) && Advanced(tasks, tasks, [], failing, now)
    ensures RunsFor([], failing, now) == []
  {
  }

  lemma NothingLeft(
      before: map<TaskId, Task>, after: map<TaskId, Task>, attempted: seq<TaskId>, failing: set<TaskId>,
      now: Time, excluded: set<TaskId>)
    requires forall id <- before :: ValidTask(before[id])
    requires Advanced(before, after, attempted, failing, now) && Prefix(DueTasks(before, now), attempted)
    requires forall id :: id in excluded <==> id in attempted && id in failing
    requires forall x <- after :: IsDue(after[x], now) ==> x in excluded
    ensures forall id <- DueTasks(before, now) :: id in attempted
  {
    Remaining(before, after, attempted, failing, now);
  }

  lemma SelectedIsEarliest(
      before: map<TaskId, Task>, after: map<TaskId, Task>, attempted: seq<TaskId>, failing: set<TaskId>,
      now: Time, excluded: set<TaskId>, id: TaskId)
    requires forall id <- before :: ValidTask(before[id])
    requires Advanced(before, after, attempted, failing, now) && Prefix(DueTasks(before, now), attempted)
    requires forall id :: id in excluded <==> id in attempted && id in failing
    requires id in after && IsDue(after[id], now) && id !in excluded
    requires forall x <- after :: IsDue(after[x], now) && x !in excluded && x != id ==>
      Precedes(after[id].nextRunAt.value, id, after[x].nextRunAt.value, x)
    ensures Earliest(DueTasks(before, now), attempted, id) && id !in attempted
  {
    hide Prefix, Advanced;
    Remaining(before, after, attempted, failing, now);
    AdvancedKeys(before, after, attempted, failing, now);
  }

  lemma AdvancedKeys(
      before: map<TaskId, Task>, after: map<TaskId, Task>, attempted: seq<TaskId>, failing: set<TaskId>, now: Time)
    requires Advanced(before, after, attempted, failing, now)
    ensures after.Keys == before.Keys
  {
  }

  lemma AdvancedNext(
      before: map<TaskId, Task>, after: map<TaskId, Task>, attempted: seq<TaskId>, failing: set<TaskId>,
      now: Time, id: TaskId)
    requires Advanced(before, after, attempted, failing, now)
    requires id in after && after[id].interval.Some? && id !in attempted
    ensures Advanced(before,
                     if id in failing then after
                     else after[id := after[id].(nextRunAt := Some(now + after[id].interval.value))],
                     attempted + [id], failing, now)
  {
  }

  /** During a pass, what is still due and not set aside is what was due and is not yet
      attempted, at its original time. */
  lemma Remaining(
      before: map<TaskId, Task>, after: map<TaskId, Task>, attempted: seq<TaskId>, failing: set<TaskId>, now: Time)
    requires forall id <- before :: ValidTask(before[id])
    requires Advanced(before, after, attempted, failing, now)
    requires Prefix(DueTasks(before, now), attempted)
    ensures forall id <- after ::
      (IsDue(after[id], now) && !(id in attempted && id in failing))
      <==> (id in DueTasks(before, now) && id !in attempted)
    ensures forall id <- after :: id !in attempted ==> after[id] == before[id]
  {
    forall id <- after
      ensures (IsDue(after[id], now) && !(id in attempted && id in failing))
         <==> (id in DueTasks(before, now) && id !in attempted)
    {
      if id in attempted {
        assert id in DueTasks(before, now);
      }
    }
  }
}

/** Overlapping decision requests.  An endpoint checks the status it read and then writes
    without checking again, so what a decision is worth depends on what was written in
    between. */
module RetentionDecisions {
  import opened Wrappers
  import opened Retention

  // ----- one request on its own

  /** Read and write with nothing in between: one guarded change of the row, exactly as
      the endpoints document it. */
  lemma AloneIsGuarded(window: nat, s: State, q: RequestId, run: RunId, v: Verdict)
    requires run in s.runs && run !in s.locks && q !in s.asked && q !in s.requests
    ensures var s' := Apply(window, s, ReadDecision(q, run, v));
            && (Enabled(window, s', WriteDecision(q, run, s.clock)) <==> s.runs[run].status == Required(v))
            && (s.runs[run].status == Required(v) ==>
                  Apply(window, s', WriteDecision(q, run, s.clock)).runs
                    == s.runs[run := Decided(s.runs[run], v, s.clock)])
  {
  }

  // ----- when decisions are orderly

  /** The moves the endpoints document: a review ends in a decision, and an approval may be
      rolled back. */
  predicate Moves(before: Status, after: Status) {
    || (before.PendingReview? && (after.Approved? || after.Rejected?))
    || (before.Approved? && after.RolledBack?)
  }

  ghost predicate WritesOn(a: Action, id: RunId) {
    a.WriteDecision? && a.run == id
  }

  /** Every decision written on `id` makes a documented move. */
  ghost predicate Orderly(window: nat, s: State, acts: seq<Action>, id: RunId)
    requires ValidRun(window, s, acts)
    decreases |acts|
  {
    acts == []
    || (var s' := Apply(window, s, acts[0]);
        && (WritesOn(acts[0], id) ==> Moves(s.runs[id].status, s'.runs[id].status))
        && Orderly(window, s', acts[1..], id))
  }

  /** The k-th step writes a decision on `id` between the read and the write of another. */
  ghost predicate ComesBetween(acts: seq<Action>, id: RunId, i: nat, k: nat, j: nat) {
    && i < k < j < |acts|
    && acts[i].ReadDecision? && acts[i].run == id
    && WritesOn(acts[k], id) && WritesOn(acts[j], id) && acts[j].request == acts[i].request
  }

  /** No decision on `id` is written between the read and the write of another. */
  ghost predicate NoOverlap(acts: seq<Action>, id: RunId) {
    forall i: nat, k: nat, j: nat :: !ComesBetween(acts, id, i, k, j)
  }

  /** The requests on `id` already read in `s` find the status they read when they write. */
  ghost predicate PendingSafe(s: State, acts: seq<Action>, id: RunId) {
    forall j :: 0 <= j < |acts| && WritesOn(acts[j], id) && acts[j].request in s.requests
                && s.requests[acts[j].request].run == id ==>
      && id in s.runs && s.runs[id].status == Required(s.requests[acts[j].request].verdict)
      && forall k :: 0 <= k < j ==> !WritesOn(acts[k], id)
  }

  lemma BetweenTail(acts: seq<Action>, id: RunId, i: nat, k: nat, j: nat)
    requires acts != []
    ensures ComesBetween(acts[1..], id, i, k, j) <==> ComesBetween(acts, id, i + 1, k + 1, j + 1)
  {
  }

  lemma NoOverlapTail(acts: seq<Action>, id: RunId)
    requires NoOverlap(acts, id) && acts != []
    ensures NoOverlap(acts[1..], id)
  {
    hide ComesBetween;
    forall i: nat, k: nat, j: nat
      ensures !ComesBetween(acts[1..], id, i, k, j)
    {
      BetweenTail(acts, id, i, k, j);
    }
  }

  /** A step keeps the requests already read safe, and those it reads are safe. */
  lemma PendingSafeStep(window: nat, s: State, acts: seq<Action>, id: RunId)
    requires acts != [] && Enabled(window, s, acts[0]) && NoOverlap(acts, id) && PendingSafe(s, acts, id)
    requires forall q <- s.requests :: q in s.asked
    ensures PendingSafe(Apply(window, s, acts[0]), acts[1..], id)
  {
    var a, rest, s' := acts[0], acts[1..], Apply(window, s, acts[0]);
    forall j | 0 <= j < |rest| && WritesOn(rest[j], id) && rest[j].request in s'.requests
               && s'.requests[rest[j].request].run == id
      ensures id in s'.runs && s'.runs[id].status == Required(s'.requests[rest[j].request].verdict)
      ensures forall k :: 0 <= k < j ==> !WritesOn(rest[k], id)
    {
      assert rest[j] == acts[j + 1];
      if rest[j].request in s.requests {
        assert forall k :: 0 <= k < j + 1 ==> !WritesOn(acts[k], id);
        assert !WritesOn(acts[0], id);
        assert forall k :: 0 <= k < j ==> rest[k] == acts[k + 1];
      } else {
        assert a.ReadDecision? && a.request == rest[j].request && a.run == id;
        forall k | 0 <= k < j
          ensures !WritesOn(rest[k], id)
        {
          assert !ComesBetween(acts, id, 0, k + 1, j + 1);
        }
      }
    }
  }

  lemma {:induction false} NoOverlapIsOrderly(window: nat, s: State, acts: seq<Action>, id: RunId)
    requires Inv(window, s) && ValidRun(window, s, acts) && NoOverlap(acts, id) && PendingSafe(s, acts, id)
    ensures Orderly(window, s, acts, id)
    decreases |acts|
  {
    hide EventsSound, RunSound, ComesBetween;
    if acts != [] {
      InvStep(window, s, acts[0]);
      NoOverlapTail(acts, id);
      PendingSafeStep(window, s, acts, id);
      WriteMoves(window, s, acts, id);
      NoOverlapIsOrderly(window, Apply(window, s, acts[0]), acts[1..], id);
    }
  }

  lemma WriteMoves(window: nat, s: State, acts: seq<Action>, id: RunId)
    requires acts != [] && Enabled(window, s, acts[0]) && PendingSafe(s, acts, id)
    ensures WritesOn(acts[0], id) ==> Moves(s.runs[id].status, Apply(window, s, acts[0]).runs[id].status)
  {
  }

  // ----- an overlap is never orderly

  /** Documented moves only climb. */
  function Rank(st: Status): nat {
    match st
    case PendingReview => 0
    case Approved => 1
    case Rejected => 1
    case RolledBack => 2
  }

  /** A request once written is never written again. */
  lemma {:induction false} WrittenOnce(window: nat, s: State, acts: seq<Action>, q: RequestId, j: nat)
    requires ValidRun(window, s, acts) && q in s.asked && q !in s.requests && j < |acts|
    ensures !(acts[j].WriteDecision? && acts[j].request == q)
    decreases |acts|
  {
    if j > 0 {
      WrittenOnce(window, Apply(window, s, acts[0]), acts[1..], q, j - 1);
    }
  }

  /** A documented move climbs, and leaves every other request as it was. */
  lemma OrderlyStep(window: nat, s: State, a: Action, id: RunId, q: RequestId)
    requires Inv(window, s) && Enabled(window, s, a) && id in s.runs && q in s.requests
    requires WritesOn(a, id) ==> Moves(s.runs[id].status, Apply(window, s, a).runs[id].status)
    ensures var s' := Apply(window, s, a);
            && q in s'.asked && (q in s'.requests ==> s'.requests[q] == s.requests[q])
            && id in s'.runs && Rank(s.runs[id].status) <= Rank(s'.runs[id].status)
            && (WritesOn(a, id) ==> Rank(s.runs[id].status) < Rank(s'.runs[id].status))
  {
    hide EventsSound, RunSound;
  }

  /** In an orderly run a request whose status has been left behind is never written. */
  lemma {:induction false} LeftBehind(window: nat, s: State, acts: seq<Action>, id: RunId, q: RequestId, j: nat)
    requires Inv(window, s) && ValidRun(window, s, acts) && Orderly(window, s, acts, id)
    requires q in s.requests && s.requests[q].run == id && j < |acts|
    requires id in s.runs && Rank(Required(s.requests[q].verdict)) < Rank(s.runs[id].status)
    ensures !(WritesOn(acts[j], id) && acts[j].request == q)
    decreases |acts|
  {
    hide Inv;
    if j > 0 {
      hide Apply;
      var s' := Apply(window, s, acts[0]);
      InvStep(window, s, acts[0]);
      OrderlyStep(window, s, acts[0], id, q);
      if q in s'.requests {
        LeftBehind(window, s', acts[1..], id, q, j - 1);
      } else {
        WrittenOnce(window, s', acts[1..], q, j - 1);
      }
    }
  }

  /** In an orderly run a request still valid is written before any other decision. */
  lemma {:induction false} FirstToWrite(
      window: nat, s: State, acts: seq<Action>, id: RunId, q: RequestId, k: nat, j: nat)
    requires Inv(window, s) && ValidRun(window, s, acts) && Orderly(window, s, acts, id)
    requires q in s.requests && s.requests[q].run == id && k < j < |acts|
    requires id in s.runs && Rank(Required(s.requests[q].verdict)) <= Rank(s.runs[id].status)
    ensures !(WritesOn(acts[k], id) && WritesOn(acts[j], id) && acts[j].request == q)
    decreases |acts|
  {
    hide Inv, Apply, Rank, Required;
    var s' := Apply(window, s, acts[0]);
    InvStep(window, s, acts[0]);
    OrderlyStep(window, s, acts[0], id, q);
    if q !in s'.requests {
      WrittenOnce(window, s', acts[1..], q, j - 1);
    } else if k > 0 {
      FirstToWrite(window, s', acts[1..], id, q, k - 1, j - 1);
    } else if WritesOn(acts[0], id) {
      LeftBehind(window, s', acts[1..], id, q, j - 1);
    }
  }

  lemma {:induction false} OrderlyHasNoOverlap(
      window: nat, s: State, acts: seq<Action>, id: RunId, i: nat, k: nat, j: nat)
    requires Inv(window, s) && ValidRun(window, s, acts) && Orderly(window, s, acts, id)
    ensures !ComesBetween(acts, id, i, k, j)
    decreases |acts|
  {
    hide EventsSound, RunSound;
    if i < k < j < |acts| {
      var s' := Apply(window, s, acts[0]);
      InvStep(window, s, acts[0]);
      if i > 0 {
        OrderlyHasNoOverlap(window, s', acts[1..], id, i - 1, k - 1, j - 1);
        BetweenTail(acts, id, i - 1, k - 1, j - 1);
      } else if acts[0].ReadDecision? && acts[0].run == id {
        if acts[0].request in s'.requests {
          FirstToWrite(window, s', acts[1..], id, acts[0].request, k - 1, j - 1);
        } else {
          WrittenOnce(window, s', acts[1..], acts[0].request, j - 1);
        }
      }
    }
  }

  /** Over every run of requests, passes and crashes: the decisions written on a run make
      documented moves only, if and only if none of them was written between the read and
      the write of another. */
  lemma DecisionsAreFinal(window: nat, s: State, acts: seq<Action>, id: RunId)
    requires Initial(s) && ValidRun(window, s, acts)
    ensures Orderly(window, s, acts, id) <==> NoOverlap(acts, id)
  {
    hide ComesBetween;
    if NoOverlap(acts, id) {
      NoOverlapIsOrderly(window, s, acts, id);
    }
    if Orderly(window, s, acts, id) {
      forall i: nat, k: nat, j: nat
        ensures !ComesBetween(acts, id, i, k, j)
      {
        OrderlyHasNoOverlap(window, s, acts, id, i, k, j);
      }
    }
  }

  // ----- what orderly decisions guarantee

  predicate CanFollow(before: Status, after: Status) {
    before == after || Moves(before, after) || (before.PendingReview? && after.RolledBack?)
  }

  /** What an orderly run leaves of the decision in force at its start: the status only
      moves forward, and timestamps once set stay. */
  ghost predicate Stands(r: Run, r': Run) {
    && CanFollow(r.status, r'.status)
    && (!r.status.PendingReview? ==> r'.approvedAt == r.approvedAt && r'.rejectedAt == r.rejectedAt)
    && (r.status.RolledBack? || r.status.Rejected? ==> r'.rolledBackAt == r.rolledBackAt)
  }

  lemma {:induction false} OrderlyDecisionsStand(window: nat, s: State, acts: seq<Action>, id: RunId)
    requires ValidRun(window, s, acts) && Orderly(window, s, acts, id) && id in s.runs
    ensures id in Final(window, s, acts).runs && Stands(s.runs[id], Final(window, s, acts).runs[id])
    decreases |acts|
  {
    if acts != [] {
      OrderlyDecisionsStand(window, Apply(window, s, acts[0]), acts[1..], id);
    }
  }

  lemma {:induction false} OrderlyTail(window: nat, s: State, a: seq<Action>, b: seq<Action>, id: RunId)
    requires ValidRun(window, s, a + b) && ValidRun(window, s, a) && ValidRun(window, Final(window, s, a), b)
    requires Orderly(window, s, a + b, id)
    ensures Orderly(window, Final(window, s, a), b, id)
    decreases |a|
  {
    hide Apply;
    if a == [] {
      assert a + b == b;
    } else {
      assert (a + b)[0] == a[0] && (a + b)[1..] == a[1..] + b;
      OrderlyTail(window, Apply(window, s, a[0]), a[1..], b, id);
    }
  }

  /** Without overlaps a decision stands from any moment of a run to any later one. */
  lemma DecisionsStand(window: nat, s: State, before: seq<Action>, after: seq<Action>, id: RunId)
    requires Initial(s) && ValidRun(window, s, before) && ValidRun(window, s, before + after)
    requires NoOverlap(before + after, id) && id in Final(window, s, before).runs
    ensures id in Final(window, s, before + after).runs
    ensures Stands(Final(window, s, before).runs[id], Final(window, s, before + after).runs[id])
  {
    hide NoOverlap, Stands, Apply;
    DecisionsAreFinal(window, s, before + after, id);
    RunConcat(window, s, before, after);
    OrderlyTail(window, s, before, after, id);
    OrderlyDecisionsStand(window, Final(window, s, before), after, id);
  }

  // ----- an overlap

  /** Two reviewers read the same pending run; the approval is written, and then the
      rejection over it.  Both requests succeed and both timestamps stay. */
  lemma RejectionOverwritesApproval(window: nat, s: State) returns (acts: seq<Action>)
    requires Initial(s)
    ensures ValidRun(window, s, acts) && !NoOverlap(acts, 0) && !Orderly(window, s, acts, 0)
    ensures var f := Final(window, s, acts);
            && 0 in f.runs && f.runs[0].status.Rejected?
            && f.runs[0].approvedAt == f.runs[0].rejectedAt == Some(s.clock)
  {
    var read, write := [ReadDecision(0, 0, Approval), ReadDecision(1, 0, Rejection)],
                       [WriteDecision(0, 0, s.clock), WriteDecision(1, 0, s.clock)];
    acts := [Create(0, 0)] + ([read[0]] + ([read[1]] + ([write[0]] + ([write[1]] + []))));
    var s1 := Apply(window, s, Create(0, 0));
    var s2 := Apply(window, s1, read[0]);
    var s3 := Apply(window, s2, read[1]);
    var s4 := Apply(window, s3, write[0]);
    RunFirst(window, s4, write[1], []);
    RunFirst(window, s3, write[0], [write[1]] + []);
    RunFirst(window, s2, read[1], [write[0]] + ([write[1]] + []));
    RunFirst(window, s1, read[0], [read[1]] + ([write[0]] + ([write[1]] + [])));
    RunFirst(window, s, Create(0, 0), [read[0]] + ([read[1]] + ([write[0]] + ([write[1]] + []))));
    assert ComesBetween(acts, 0, 2, 3, 4);
    DecisionsAreFinal(window, s, acts, 0);
  }
}

/**
  `OrchestrationService` over its tables. Each method is one committed transaction and is proved
  against the transaction's function; what runs of these transactions guarantee is proved there.
 */
module CoordinatorService {
  import opened Wrappers
  import opened Query
  import M = CoordinatorModel
  import R = CoordinatorReconcile
  import S = CoordinatorSafety
  import T = CoordinatorSteps

  class OrchestrationService {
    var jobs: map<M.JobId, M.Job>
    var runs: map<M.RunId, M.Run>
    var leases: map<M.LeaseId, M.Lease>
    var approvals: map<M.ApprovalId, M.Approval>
    var events: seq<M.Event>
    var now: int

    function State(): M.Db
      reads this
    {
      M.Db(jobs, runs, leases, approvals, events, now)
    }

    /** What every handler keeps: the tables satisfy the invariant of the protocol. */
    ghost predicate Safe()
      reads this
    {
      S.Inv(State())
    }

    constructor (rows: map<M.JobId, M.Job>, time: int)
      ensures State() == M.Db(rows, map[], map[], map[], [], time) && Safe()
    {
      jobs, runs, leases, approvals, events, now := rows, map[], map[], map[], [], time;
    }

    // ----- helpers inside a transaction -----

    method AppendEvent(r: M.RunId, kind: M.EventKind)
      modifies this`events
      ensures events == old(events) + [M.Event(r, kind)]
    {
      events := events + [M.Event(r, kind)];
    }

    method UpdateJobStatus(j: M.JobId, s: M.JobStatus)
      modifies this`jobs
      ensures jobs == M.SetJob(old(jobs), j, s)
    {
      if j in jobs { jobs := jobs[j := jobs[j].(status := s)]; }
    }

    method ClaimJobIfNew(j: M.JobId)
      modifies this`jobs
      ensures jobs == if j in old(jobs) && old(jobs)[j].status.Fresh?
                      then M.SetJob(old(jobs), j, M.Claimed) else old(jobs)
    {
      if j in jobs && jobs[j].status.Fresh? { jobs := jobs[j := jobs[j].(status := M.Claimed)]; }
    }

    method HasActiveLease(r: M.RunId) returns (leased: bool)
      ensures leased == M.Leased(State(), r)
    {
      var rest := leases.Keys;
      while rest != {}
        invariant rest <= leases.Keys
        invariant forall l | l in leases.Keys - rest ::
                    !(leases[l].run == r && leases[l].status.Active?)
        decreases rest
      {
        var l :| l in rest;
        if leases[l].run == r && leases[l].status.Active? { return true; }
        rest := rest - {l};
      }
      return false;
    }

    // ----- readiness -----

    method DecisionFromRow(j: M.JobId) returns (d: M.Readiness)
      requires j in jobs
      ensures d == M.Decide(State(), j)
    {
      var open := SelectFirst(M.OpenRuns(State(), j), M.NewestFirst(State()));
      if open.Some? {
        if runs[open.value].status.ManualReview? { return M.ManualReviewHold(open.value); }
        return M.ActiveRun(open.value);
      }
      return M.DecideJob(jobs[j]);
    }

    method PickNextJob() returns (pick: M.Pick)
      ensures pick == M.PickNextJob(State())
    {
      var active := SelectFirst(M.ExecutingRuns(State()), M.OldestFirst(State()));
      if active.Some? { return M.ActiveRunInProgress(active.value); }
      if M.HoldRuns(State()) != {} { return M.GlobalHold; }
      var rows := jobs.Keys;
      while rows != {}
        invariant M.ReadyJobs(State()) <= rows <= jobs.Keys
        decreases rows
      {
        var next := SelectFirst(rows, M.JobOrder(State()));
        var j := next.value;
        var decision := DecisionFromRow(j);
        if decision.Ready? {
          assert IsFirst(M.ReadyJobs(State()), M.JobOrder(State()), j);
          return M.Picked(j);
        }
        rows := rows - {j};
      }
      return M.Idle;
    }

    // ----- starting a run -----

    method BuildApplyContext(j: M.JobId, r: M.RunId) returns (reply: M.Reply)
      modifies this
      ensures M.Outcome(State(), reply) == M.BuildApplyContext(old(State()), j, r)
      ensures old(Safe()) ==> Safe() && T.Evolves(old(State()), State())
    {
      hide S.Inv, T.Evolves;
      if Safe() { T.StartRunKeepsInv(State(), j, r); }
      if j !in jobs { return M.Rejected(M.NotFound); }
      var ready := DecisionFromRow(j);
      if !ready.Ready? { return M.Rejected(M.NotReady(ready)); }
      if r in runs { return M.Rejected(M.DuplicateId); }
      runs := runs[r := M.Run(j, M.ApplyPrepared, false, None, M.SeedFlags(jobs[j].concernFlags), false, None,
                              None, now, now, None)];
      ClaimJobIfNew(j);
      AppendEvent(r, M.RunStarted);
      return M.Done;
    }

    method RequestFill(r: M.RunId) returns (reply: M.Reply)
      modifies this
      ensures M.Outcome(State(), reply) == M.RequestFill(old(State()), r)
      ensures old(Safe()) ==> Safe() && T.Evolves(old(State()), State())
    {
      hide S.Inv, T.Evolves;
      if Safe() { T.RequestFillAdvances(State(), r); }
      if r !in runs { return M.Rejected(M.NotFound); }
      if !runs[r].status.ApplyPrepared? { return M.Rejected(M.WrongStatus); }
      runs := runs[r := runs[r].(status := M.FillRequested, updatedAt := now)];
      AppendEvent(r, M.FillAsked);
      return M.Done;
    }

    method RunOnce(r: M.RunId, prepareOnly: bool) returns (reply: M.Reply)
      modifies this
      ensures M.Outcome(State(), reply) == M.RunOnce(old(State()), r, prepareOnly)
      ensures old(Safe()) ==> Safe() && T.Evolves(old(State()), State())
    {
      hide S.Inv, T.Evolves;
      if Safe() { T.RunOnceKeepsInv(State(), r, prepareOnly); }
      var pick := PickNextJob();
      if !pick.Picked? { return M.NotPicked(pick); }
      reply := BuildApplyContext(pick.job, r);
      if reply.Rejected? || prepareOnly { return; }
      reply := RequestFill(r);
    }

    // ----- leases -----

    method MarkRunManualReview(r: M.RunId, reason: string)
      modifies this
      ensures State() == M.MarkManualReview(old(State()), r, reason)
    {
      if r !in runs { return; }
      var run := runs[r];
      if M.Terminal(run.status) || run.status.ManualReview? { return; }
      runs := runs[r := run.(status := M.ManualReview, reviewRequired := true,
                             reviewReason := Some(reason), reviewFlags := [reason],
                             updatedAt := now, completedAt := None)];
      UpdateJobStatus(run.job, M.Claimed);
      AppendEvent(r, M.ReviewRequired(reason));
    }

    /** The ids of a selected set of rows, in the order the database happens to return them. */
    method Rows(ids: set<nat>) returns (rows: seq<nat>)
      ensures forall x :: x in rows <==> x in ids
      ensures forall i, k :: 0 <= i < k < |rows| ==> rows[i] != rows[k]
    {
      rows := [];
      var rest := ids;
      while rest != {}
        invariant forall i, k :: 0 <= i < k < |rows| ==> rows[i] != rows[k]
        invariant rest <= ids && forall x :: x in rows <==> x in ids - rest
        decreases rest
      {
        var x :| x in rest;
        assert x !in rows;
        rows, rest := rows + [x], rest - {x};
      }
    }

    method ExpireRow(l: M.LeaseId, markRuns: bool)
      requires l in leases
      modifies this
      ensures State() == M.ExpireLease(old(State()), l, markRuns)
      ensures leases.Keys == old(leases.Keys)
    {
      var lease := leases[l];
      if lease.status.Active? && lease.expiresAt <= now {
        leases := leases[l := lease.(status := M.TimedOut, completedAt := Some(now))];
        if markRuns { MarkRunManualReview(lease.run, "worker_timeout"); }
      }
    }

    method ExpireDueWorkerLeases(markRuns: bool)
      returns (expired: set<M.RunId>, ghost rows: seq<M.LeaseId>)
      modifies this
      ensures forall l :: l in rows <==> l in old(leases) && old(leases)[l].status.Active?
      ensures State() == M.ExpireLeases(old(State()), rows, markRuns)
      ensures expired == R.HitRuns(old(State()), rows)
    {
      hide M.ExpireLease, R.HitRuns;
      var actives := Rows(set l | l in leases && leases[l].status.Active?);
      rows := actives;
      expired := R.HitRuns(State(), []);
      ghost var before := State();
      for i := 0 to |actives|
        invariant State() == M.ExpireLeases(before, actives[..i], markRuns)
        invariant leases.Keys == before.leases.Keys
        invariant expired == R.HitRuns(before, actives[..i])
      {
        var l := actives[i];
        assert l in actives && l !in actives[..i];
        R.RowsGrow(before, actives, i);
        R.UnseenLeaseUntouched(before, actives[..i], l, markRuns);
        if leases[l].expiresAt <= now && leases[l].status.Active? {
          expired := expired + {leases[l].run};
        }
        ExpireRow(l, markRuns);
      }
      assert actives[..|actives|] == actives;
    }

    /** The oldest run of the status without an active lease, looking at one after the other. */
    method FirstPending(status: M.RunStatus) returns (selected: Option<M.RunId>)
      ensures selected == First(M.PendingRuns(State(), status), M.OldestFirst(State()))
    {
      var pending := set r | r in runs && runs[r].status == status;
      while pending != {}
        invariant M.PendingRuns(State(), status) <= pending <= runs.Keys
        invariant forall r | r in pending :: runs[r].status == status
        decreases pending
      {
        var next := SelectFirst(pending, M.OldestFirst(State()));
        var r := next.value;
        var leased := HasActiveLease(r);
        if !leased {
          assert IsFirst(M.PendingRuns(State(), status), M.OldestFirst(State()), r);
          return Some(r);
        }
        pending := pending - {r};
      }
      assert M.PendingRuns(State(), status) == {};
      return None;
    }

    method ClaimNextFill(t: M.TaskType, l: M.LeaseId, runtime: string, seconds: int)
      returns (reply: M.Reply, ghost rows: seq<M.LeaseId>)
      modifies this
      ensures forall k :: k in rows ==> k in old(leases)
      ensures runtime != "" && seconds >= 30 ==>
                forall k | k in old(leases) && old(leases)[k].status.Active? :: k in rows
      ensures M.Outcome(State(), reply) ==
              M.ClaimNext(old(State()), rows, t, l, runtime, seconds)
      ensures old(Safe()) ==> Safe() && T.Evolves(old(State()), State())
    {
      hide S.Inv, T.Evolves, T.Settles, M.ExpireLeases, M.PendingRuns, M.OldestFirst, R.HitRuns;
      ghost var before := State();
      rows := [];
      if runtime == "" || seconds < 30 {
        if Safe() { T.ClaimNextAdvances(before, rows, t, l, runtime, seconds); }
        reply := M.Rejected(M.BadArgument);
        return;
      }
      var saved := leases;
      var _, swept := ExpireDueWorkerLeases(false);
      rows := swept;
      if old(Safe()) { T.ClaimNextAdvances(before, rows, t, l, runtime, seconds); }
      M.SweptKeepsRows(before, rows);
      var selected := FirstPending(M.ClaimStatus(t));
      if selected.None? { reply := M.NothingPending; return; }
      if l in leases { leases := saved; reply := M.Rejected(M.DuplicateId); return; }
      leases := leases[l := M.Lease(selected.value, runtime, M.Active, now, now, now + seconds, None)];
      AppendEvent(selected.value, M.LeaseClaimed(l));
      reply := M.LeasedRun(selected.value);
    }

    method CheckLease(l: M.LeaseId) returns (reply: M.Reply)
      modifies this
      ensures M.Outcome(State(), reply) == M.CheckLease(old(State()), l)
      ensures old(Safe()) ==> Safe() && T.Evolves(old(State()), State())
    {
      hide S.Inv, T.Evolves;
      if Safe() { T.CheckLeaseAdvances(State(), l); }
      if l !in leases { return M.Rejected(M.NotFound); }
      if !leases[l].status.Active? { return M.Rejected(M.LeaseNotActive); }
      if leases[l].expiresAt <= now {
        leases := leases[l := leases[l].(status := M.TimedOut, completedAt := Some(now))];
        return M.Rejected(M.LeaseExpired);
      }
      return M.Done;
    }

    method HeartbeatLease(l: M.LeaseId, seconds: int) returns (reply: M.Reply)
      modifies this
      ensures M.Outcome(State(), reply) == M.Heartbeat(old(State()), l, seconds)
      ensures old(Safe()) ==> Safe() && T.Evolves(old(State()), State())
    {
      hide S.Inv, T.Evolves;
      if Safe() { T.HeartbeatAdvances(State(), l, seconds); }
      if seconds < 30 { return M.Rejected(M.BadArgument); }
      reply := CheckLease(l);
      if reply.Rejected? { return; }
      leases := leases[l := leases[l].(heartbeatAt := now, expiresAt := now + seconds)];
    }

    method CloseLease(l: M.LeaseId) returns (reply: M.Reply)
      modifies this
      ensures M.Outcome(State(), reply) == M.CloseLease(old(State()), l)
      ensures old(Safe()) ==> Safe() && T.Evolves(old(State()), State())
    {
      hide S.Inv, T.Evolves;
      if Safe() { T.CloseLeaseAdvances(State(), l); }
      if l !in leases { return M.Rejected(M.NotFound); }
      leases := leases[l := leases[l].(status := M.Completed, completedAt := Some(now))];
      AppendEvent(leases[l].run, M.LeaseCompleted(l));
      return M.Done;
    }

    method TimeOutFillRows(rows: seq<M.RunId>, cutoff: int)
      requires forall r | r in rows :: r in runs
      modifies this
      ensures State() == M.TimeOutFills(old(State()), rows, cutoff)
    {
      for i := 0 to |rows|
        invariant State() == M.TimeOutFills(old(State()), rows[..i], cutoff)
        invariant runs.Keys == old(runs.Keys)
      {
        assert rows[i] in rows && rows[..i + 1][..i] == rows[..i];
        var leased := HasActiveLease(rows[i]);
        var run := runs[rows[i]];
        if run.status.FillRequested? && !leased && run.updatedAt <= cutoff {
          MarkRunManualReview(rows[i], "worker_timeout");
        }
      }
      assert rows[..|rows|] == rows;
    }

    method TimeOutSubmitRows(rows: seq<M.RunId>, cutoff: int)
      requires forall r | r in rows :: r in runs
      modifies this
      ensures State() == M.TimeOutSubmits(old(State()), rows, cutoff)
    {
      for i := 0 to |rows|
        invariant State() == M.TimeOutSubmits(old(State()), rows[..i], cutoff)
        invariant runs.Keys == old(runs.Keys)
      {
        assert rows[i] in rows && rows[..i + 1][..i] == rows[..i];
        var run := runs[rows[i]];
        if run.status.SubmitApproved? && run.updatedAt <= cutoff {
          MarkRunManualReview(rows[i], "submit_not_confirmed");
        }
      }
      assert rows[..|rows|] == rows;
    }

    method ReconcileStaleRuns(fillTimeout: int, submitTimeout: Option<int>)
      returns (ghost leaseRows: seq<M.LeaseId>, ghost fillRows: seq<M.RunId>,
               ghost submitRows: seq<M.RunId>)
      modifies this
      ensures R.Queried(old(State()), leaseRows, fillRows, submitRows, fillTimeout)
      ensures State() == M.Reconcile(old(State()), leaseRows, fillRows, submitRows, fillTimeout,
                                     submitTimeout)
      ensures old(Safe()) ==> Safe() && T.Evolves(old(State()), State())
    {
      hide M.ExpireLeases, M.TimeOutFills, M.TimeOutSubmits, R.HitRuns, S.Inv, T.Evolves;
      ghost var before := State();
      var fillCutoff := now - fillTimeout;
      var submitCutoff := if submitTimeout.Some? then now - submitTimeout.value else now;
      var _, rows := ExpireDueWorkerLeases(true);
      var fills := Rows(set r | r in runs && runs[r].status.FillRequested?);
      TimeOutFillRows(fills, fillCutoff);
      var submits := Rows(set r | r in runs && runs[r].status.SubmitApproved?);
      if submitTimeout.Some? { TimeOutSubmitRows(submits, submitCutoff); }
      leaseRows, fillRows, submitRows := rows, fills, submits;
      if old(Safe()) { T.ReconcileAdvances(before, rows, fills, submits, fillTimeout, submitTimeout); }
    }

    // ----- results, investigation, review, submit gate -----

    method RecordFillResult(r: M.RunId, f: M.FillResult) returns (reply: M.Reply)
      modifies this
      ensures M.Outcome(State(), reply) == M.RecordFillResult(old(State()), r, f)
      ensures old(Safe()) ==> Safe() && T.Evolves(old(State()), State())
    {
      hide S.Inv, T.Evolves;
      if Safe() { T.RecordFillAdvances(State(), r, f); }
      if r !in runs { return M.Rejected(M.NotFound); }
      var run := runs[r];
      if !run.status.ApplyPrepared? && !run.status.FillRequested? {
        return M.Rejected(M.WrongStatus);
      }
      var failureCode := M.DeriveFailureCode(f);
      var verdict: M.Verdict;
      if failureCode in M.INVESTIGATION_TRIGGER_CODES {
        verdict := M.Verdict(M.InvestigationQueued, Some(failureCode), false, None, M.Claimed);
      } else if f.reviewFlags != [] {
        verdict := M.Verdict(M.ManualReview, Some(failureCode), true, Some(f.reviewFlags[0]), M.Claimed);
      } else if f.status == "failed" || f.status == "error" {
        verdict := M.Verdict(M.Failed, Some(failureCode), false, None, M.JobFailed);
      } else {
        verdict := M.Verdict(M.AwaitingSubmitApproval, None, false, None, M.Claimed);
      }
      runs := runs[r := run.(status := verdict.status, reviewRequired := verdict.reviewRequired,
                             reviewReason := verdict.reviewReason, reviewFlags := f.reviewFlags,
                             failureCode := verdict.failureCode, updatedAt := now,
                             completedAt := if verdict.status.Failed? then Some(now) else None)];
      UpdateJobStatus(run.job, verdict.jobStatus);
      AppendEvent(r, M.FillRecorded(run.status, verdict, f));
      return M.Done;
    }

    method QueueInvestigation(r: M.RunId) returns (reply: M.Reply)
      modifies this
      ensures M.Outcome(State(), reply) == M.QueueInvestigation(old(State()), r)
      ensures old(Safe()) ==> Safe() && T.Evolves(old(State()), State())
    {
      hide S.Inv, T.Evolves;
      if Safe() { T.QueueInvestigationAdvances(State(), r); }
      if r !in runs { return M.Rejected(M.NotFound); }
      var run := runs[r];
      if !run.status.ManualReview? && !run.status.Failed? && !run.status.FillRequested?
         && !run.status.ApplyPrepared?
      {
        return M.Rejected(M.WrongStatus);
      }
      runs := runs[r := run.(status := M.InvestigationQueued, updatedAt := now)];
      AppendEvent(r, M.InvestigationAsked(run.status));
      return M.Done;
    }

    method RecordInvestigationResult(r: M.RunId) returns (reply: M.Reply)
      modifies this
      ensures M.Outcome(State(), reply) == M.RecordInvestigationResult(old(State()), r)
      ensures old(Safe()) ==> Safe() && T.Evolves(old(State()), State())
    {
      hide S.Inv, T.Evolves;
      if Safe() { T.RecordInvestigationAdvances(State(), r); }
      if r !in runs { return M.Rejected(M.NotFound); }
      if !runs[r].status.InvestigationQueued? { return M.Rejected(M.WrongStatus); }
      runs := runs[r := runs[r].(status := M.InvestigationComplete, updatedAt := now)];
      UpdateJobStatus(runs[r].job, M.JobFailed);
      AppendEvent(r, M.InvestigationRecorded);
      return M.Done;
    }

    method ResolveReview(r: M.RunId, decision: string) returns (reply: M.Reply)
      modifies this
      ensures M.Outcome(State(), reply) == M.ResolveReview(old(State()), r, decision)
      ensures old(Safe()) ==> Safe() && T.Evolves(old(State()), State())
    {
      hide S.Inv, T.Evolves;
      if Safe() { T.ResolveReviewAdvances(State(), r, decision); }
      if decision != "continue" && decision != "fail" { return M.Rejected(M.BadArgument); }
      if r !in runs { return M.Rejected(M.NotFound); }
      var run := runs[r];
      if !run.status.ManualReview? { return M.Rejected(M.WrongStatus); }
      var go := decision == "continue";
      runs := runs[r := run.(status := if go then M.AwaitingSubmitApproval else M.Failed,
                             reviewRequired := false, reviewReason := None, updatedAt := now,
                             completedAt := if go then None else Some(now))];
      UpdateJobStatus(run.job, if go then M.Claimed else M.JobFailed);
      AppendEvent(r, M.ReviewResolved(if go then M.Continue else M.Fail));
      return M.Done;
    }

    method ApproveSubmit(r: M.RunId, a: M.ApprovalId, decision: string) returns (reply: M.Reply)
      modifies this
      ensures M.Outcome(State(), reply) == M.ApproveSubmit(old(State()), r, a, decision)
      ensures old(Safe()) ==> Safe() && T.Evolves(old(State()), State())
    {
      hide S.Inv, T.Evolves;
      if Safe() { T.ApproveSubmitAdvances(State(), r, a, decision); }
      if decision != "approve" && decision != "deny" { return M.Rejected(M.BadArgument); }
      if r !in runs { return M.Rejected(M.NotFound); }
      var run := runs[r];
      if !run.status.AwaitingSubmitApproval? { return M.Rejected(M.WrongStatus); }
      if a in approvals { return M.Rejected(M.DuplicateId); }
      var ok := decision == "approve";
      var verdict := if ok then M.Approve else M.Deny;
      approvals := approvals[a := M.Approval(run.job, r, verdict)];
      runs := runs[r := run.(status := if ok then M.SubmitApproved else M.SubmitDenied,
                             submitAllowed := ok, approvalId := Some(a), updatedAt := now,
                             completedAt := if ok then None else Some(now))];
      UpdateJobStatus(run.job, if ok then M.Claimed else M.Skipped);
      AppendEvent(r, M.ApprovalRecorded(a, verdict));
      return M.Done;
    }

    method MarkSubmitted(r: M.RunId) returns (reply: M.Reply)
      modifies this
      ensures M.Outcome(State(), reply) == M.MarkSubmitted(old(State()), r)
      ensures old(Safe()) ==> Safe() && T.Evolves(old(State()), State())
    {
      hide S.Inv, T.Evolves;
      if Safe() { T.MarkSubmittedAdvances(State(), r); }
      if r !in runs { return M.Rejected(M.NotFound); }
      if !runs[r].status.SubmitApproved? { return M.Rejected(M.WrongStatus); }
      runs := runs[r := runs[r].(status := M.Submitted, updatedAt := now, completedAt := Some(now))];
      UpdateJobStatus(runs[r].job, M.Applied);
      AppendEvent(r, M.SubmitRecorded);
      return M.Done;
    }
  }
}

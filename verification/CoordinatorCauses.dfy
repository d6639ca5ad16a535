/**
  Every event of the log goes back to a request that named it: which step was executed, with which
  arguments. Decisions in particular are the caller's words, not what a handler made of them.
 */
module CoordinatorCauses {
  import opened Query
  import opened Sequences
  import opened Wrappers

  import opened CoordinatorModel
  import opened CoordinatorSafety
  import opened CoordinatorSteps
  import opened CoordinatorRuns

  // ----- events and the steps that ask for them -----

  /** A lease completion that got as far as being routed, for this run and result. */
  predicate Completes(before: System, step: Step, r: RunId, f: FillResult) {
    && step.RecordCompletion? && step.c in before.calls && before.calls[step.c].Routed?
    && before.calls[step.c].result == f && before.calls[step.c].lease in before.db.leases
    && before.db.leases[before.calls[step.c].lease].run == r
  }

  /** The step is a request for this event. */
  ghost predicate Asks(before: System, step: Step, e: Event) {
    match e.kind
    case RunStarted => (step.StartRun? || step.DoRunOnce?) && step.r == e.run
    case FillAsked => step == AskFill(e.run) || step == DoRunOnce(e.run, false)
    case LeaseClaimed(l) => step.Claim? && step.l == l
    case LeaseCompleted(l) =>
      step.EndCompletion? && step.c in before.calls && before.calls[step.c] == Recorded(l)
    case ReviewRequired(reason) => step.DoReconcile? && reason in {"worker_timeout", "submit_not_confirmed"}
    case FillRecorded(_, _, f) => step == PostFill(e.run, f) || Completes(before, step, e.run, f)
    case InvestigationAsked(_) => step == AskInvestigation(e.run)
    case InvestigationRecorded =>
      step == PostInvestigation(e.run) || exists f :: Completes(before, step, e.run, f)
    case ReviewResolved(review) => step == Resolve(e.run, if review.Continue? then "continue" else "fail")
    case ApprovalRecorded(a, d) => step == GateSubmit(e.run, a, if d.Approve? then "approve" else "deny")
    case SubmitRecorded => step == ConfirmSubmit(e.run)
  }

  /** The log is only appended to, and every new event satisfies `asks`. */
  ghost predicate Adds(es: seq<Event>, es': seq<Event>, asks: Event -> bool) {
    es <= es' && forall i | |es| <= i < |es'| :: asks(es'[i])
  }

  lemma AddsChain(a: seq<Event>, b: seq<Event>, c: seq<Event>, asks: Event -> bool)
    requires Adds(a, b, asks) && Adds(b, c, asks)
    ensures Adds(a, c, asks)
  {
    forall i | |a| <= i < |c| ensures asks(c[i]) {
      if i < |b| { assert c[i] == b[i]; }
    }
  }

  predicate IsTimeout(e: Event) {
    e.kind == ReviewRequired("worker_timeout") || e.kind == ReviewRequired("submit_not_confirmed")
  }

  lemma {:induction false} ExpiryAdds(db: Db, rows: seq<LeaseId>, markRuns: bool)
    ensures Adds(db.events, ExpireLeases(db, rows, markRuns).events, IsTimeout)
    ensures !markRuns ==> ExpireLeases(db, rows, markRuns).events == db.events
  {
    if rows != [] {
      ExpiryAdds(db, rows[..|rows|-1], markRuns);
      var most := ExpireLeases(db, rows[..|rows|-1], markRuns);
      AddsChain(db.events, most.events, ExpireLeases(db, rows, markRuns).events, IsTimeout);
    }
  }

  lemma {:induction false} FillTimeoutsAdd(db: Db, rows: seq<RunId>, cutoff: int)
    ensures Adds(db.events, TimeOutFills(db, rows, cutoff).events, IsTimeout)
  {
    if rows != [] {
      FillTimeoutsAdd(db, rows[..|rows|-1], cutoff);
      AddsChain(db.events, TimeOutFills(db, rows[..|rows|-1], cutoff).events,
                TimeOutFills(db, rows, cutoff).events, IsTimeout);
    }
  }

  lemma {:induction false} SubmitTimeoutsAdd(db: Db, rows: seq<RunId>, cutoff: int)
    ensures Adds(db.events, TimeOutSubmits(db, rows, cutoff).events, IsTimeout)
  {
    if rows != [] {
      SubmitTimeoutsAdd(db, rows[..|rows|-1], cutoff);
      AddsChain(db.events, TimeOutSubmits(db, rows[..|rows|-1], cutoff).events,
                TimeOutSubmits(db, rows, cutoff).events, IsTimeout);
    }
  }

  lemma ReconcileAdds(db: Db, ls: seq<LeaseId>, fs: seq<RunId>, ss: seq<RunId>, fillTimeout: int,
                      submitTimeout: Option<int>)
    ensures Adds(db.events, Reconcile(db, ls, fs, ss, fillTimeout, submitTimeout).events, IsTimeout)
  {
    var expired := ExpireLeases(db, ls, true);
    ExpiryAdds(db, ls, true);
    FillTimeoutsAdd(expired, fs, db.now - fillTimeout);
    var filled := TimeOutFills(expired, fs, db.now - fillTimeout);
    AddsChain(db.events, expired.events, filled.events, IsTimeout);
    if submitTimeout.Some? {
      SubmitTimeoutsAdd(filled, ss, db.now - submitTimeout.value);
      AddsChain(db.events, filled.events, TimeOutSubmits(filled, ss, db.now - submitTimeout.value).events, IsTimeout);
    }
  }

  /** Every event a step appends is one the step asks for. */
  lemma StepAddsAsked(s: System, step: Step)
    ensures Adds(s.db.events, Next(s, step).db.events, e => Asks(s, step, e))
  {
    hide Asks, NextCalls;
    if Outside(step) {
      OutsideAdds(s, step);
    } else if Completing(step) {
      CompletionAdds(s, step);
    } else if step.StartRun? || step.DoRunOnce? {
      StartAdds(s, step);
    } else if step.Claim? || step.Beat? || step.DoReconcile? {
      LeaseStepAdds(s, step);
    } else {
      RunStepAdds(s, step);
    }
  }

  lemma OutsideAdds(s: System, step: Step)
    requires Outside(step)
    ensures NextDb(s, step).events == s.db.events
  {
  }

  lemma CompletionAdds(s: System, step: Step)
    requires Completing(step)
    ensures Adds(s.db.events, NextDb(s, step).events, e => Asks(s, step, e))
  {
    hide Judge;
    match step
    case RecordCompletion(c) =>
      if c in s.calls && s.calls[c].Routed? && s.calls[c].lease in s.db.leases {
        var r := s.db.leases[s.calls[c].lease].run;
        assert Completes(s, step, r, s.calls[c].result);
      }
    case _ =>
  }

  lemma StartAdds(s: System, step: Step)
    requires step.StartRun? || step.DoRunOnce?
    ensures Adds(s.db.events, NextDb(s, step).events, e => Asks(s, step, e))
  {
    hide Decide, PickNextJob;
    if step.DoRunOnce? {
      var pick := PickNextJob(s.db);
      if pick.Picked? {
        assert BuildApplyContext(s.db, pick.job, step.r).db.events <= s.db.events + [Event(step.r, RunStarted)];
      }
    }
  }

  lemma LeaseStepAdds(s: System, step: Step)
    requires step.Claim? || step.Beat? || step.DoReconcile?
    ensures Adds(s.db.events, NextDb(s, step).events, e => Asks(s, step, e))
  {
    hide Reconcile, ExpireLeases, PendingRuns, OldestFirst;
    var db := s.db;
    match step
    case DoReconcile(ls, fs, ss, ft, st) => ReconcileAdds(db, ls, fs, ss, ft, st);
    case Claim(rows, _, _, _, _) => ExpiryAdds(db, rows, false);
    case Beat(_, _) =>
  }

  lemma RunStepAdds(s: System, step: Step)
    requires !Outside(step) && !Completing(step) && !step.StartRun? && !step.DoRunOnce?
    requires !step.Claim? && !step.Beat? && !step.DoReconcile?
    ensures Adds(s.db.events, NextDb(s, step).events, e => Asks(s, step, e))
  {
    hide Judge;
  }

  // ----- over whole runs -----

  /** The k-th step put the i-th event into the log, and asked for it. */
  ghost predicate CausedBy(s: System, steps: seq<Step>, i: nat, k: nat)
    requires i < |Execute(s, steps).db.events|
  {
    && k < |steps|
    && |Execute(s, steps[..k]).db.events| <= i < |Execute(s, steps[..k + 1]).db.events|
    && Asks(Execute(s, steps[..k]), steps[k], Execute(s, steps).db.events[i])
  }

  /** Every event of the log has its step. */
  lemma {:induction false} EventWasAsked(s: System, steps: seq<Step>, i: nat) returns (k: nat)
    requires Initial(s) && i < |Execute(s, steps).db.events|
    ensures CausedBy(s, steps, i, k)
  {
    hide Asks, Next;
    var before, n := steps[..|steps|-1], |steps| - 1;
    assert steps != [];
    StepAddsAsked(Execute(s, before), steps[n]);
    if i < |Execute(s, before).db.events| {
      k := EventWasAsked(s, before, i);
      assert before[..k] == steps[..k] && before[..k + 1] == steps[..k + 1];
    } else {
      k := n;
      assert steps[..n + 1] == steps;
    }
  }

  lemma {:induction false} LogGrows(s: System, steps: seq<Step>, k: nat, m: nat)
    requires k <= m <= |steps|
    ensures Execute(s, steps[..k]).db.events <= Execute(s, steps[..m]).db.events
    decreases m
  {
    hide Asks, Next;
    if k < m {
      LogGrows(s, steps, k, m - 1);
      assert steps[..m][..m - 1] == steps[..m - 1];
      StepAddsAsked(Execute(s, steps[..m - 1]), steps[m - 1]);
    }
  }

  /** Later events were asked for by later steps, or by the same one. */
  lemma CausesInOrder(s: System, steps: seq<Step>, i: nat, j: nat, k: nat, m: nat)
    requires i < j < |Execute(s, steps).db.events|
    requires CausedBy(s, steps, i, k) && CausedBy(s, steps, j, m)
    ensures k <= m
  {
    hide Asks, Execute;
    if m < k { LogGrows(s, steps, m + 1, k); }
  }

  /** A lease completion in progress carries the lease and the result it was begun with. */
  lemma {:induction false} CallWasBegun(s: System, steps: seq<Step>, c: nat) returns (k: nat)
    requires Initial(s) && c in Execute(s, steps).calls && !Execute(s, steps).calls[c].Recorded?
    ensures k < |steps|
    ensures var call := Execute(s, steps).calls[c];
            steps[k] == BeginCompletion(c, call.lease, call.result)
  {
    hide NextDb, CheckLease, RecordRouted;
    assert steps != [];
    var before, n := steps[..|steps|-1], |steps| - 1;
    var was := Execute(s, before).calls;
    if c in was && !was[c].Recorded? {
      k := CallWasBegun(s, before, c);
    } else {
      k := n;
    }
  }

  /** The step posts this fill result for the run: directly, or as a lease completion begun with it. */
  ghost predicate PostsFill(s: System, steps: seq<Step>, k: nat, r: RunId, f: FillResult)
    requires k < |steps|
  {
    || steps[k] == PostFill(r, f)
    || (Completes(Execute(s, steps[..k]), steps[k], r, f)
        && exists m | 0 <= m < k ::
             steps[m].BeginCompletion? && steps[m].c == steps[k].c && steps[m].result == f)
  }

  /** The step cleared the run for the submit gate. */
  ghost predicate ClearedBy(s: System, steps: seq<Step>, k: nat, r: RunId) {
    k < |steps| && (steps[k] == Resolve(r, "continue") || exists f :: CleanFill(f) && PostsFill(s, steps, k, r, f))
  }

  lemma ClearanceWasAsked(s: System, steps: seq<Step>, r: RunId, i: nat) returns (k: nat)
    requires Initial(s) && ClearedAt(Execute(s, steps).db.events, r, i)
    ensures CausedBy(s, steps, i, k) && ClearedBy(s, steps, k, r)
  {
    hide Execute, CleanFill;
    k := EventWasAsked(s, steps, i);
    var kind := Execute(s, steps).db.events[i].kind;
    if kind.FillRecorded? && steps[k] != PostFill(r, kind.result) {
      assert Completes(Execute(s, steps[..k]), steps[k], r, kind.result);
      var m := CallWasBegun(s, steps[..k], steps[k].c);
      assert steps[..k][m] == steps[m];
    }
  }

  /** Behind every approved run stands a request to approve it, by this very approval id, and before
      that one to clear it. */
  lemma ApprovalWasRequested(s: System, steps: seq<Step>, r: RunId) returns (clear: nat, gate: nat)
    requires Initial(s) && r in Execute(s, steps).db.runs
    requires Execute(s, steps).db.runs[r].status.SubmitApproved?
    ensures var run := Execute(s, steps).db.runs[r];
            && clear < gate < |steps| && ClearedBy(s, steps, clear, r)
            && run.approvalId.Some? && steps[gate] == GateSubmit(r, run.approvalId.value, "approve")
  {
    ReachableInv(s, steps);
    hide Execute, Inv, Sourced, FilledOnce;
    var db := Execute(s, steps).db;
    assert Trail(db.events, r, db.runs[r]) by { hide *; assert Trailed(db); }
    var a := db.runs[r].approvalId.value;
    var i: nat, j: nat :| i < j && ClearedAt(db.events, r, i) && ApprovedAt(db.events, r, j, a);
    clear, gate := ClearanceAndGate(s, steps, r, i, j, a);
  }

  lemma ClearanceAndGate(s: System, steps: seq<Step>, r: RunId, i: nat, j: nat, a: ApprovalId)
    returns (clear: nat, gate: nat)
    requires Initial(s) && i < j
    requires ClearedAt(Execute(s, steps).db.events, r, i) && ApprovedAt(Execute(s, steps).db.events, r, j, a)
    ensures clear < gate < |steps| && ClearedBy(s, steps, clear, r)
    ensures steps[gate] == GateSubmit(r, a, "approve") && CausedBy(s, steps, j, gate)
  {
    hide Execute;
    clear := ClearanceWasAsked(s, steps, r, i);
    gate := EventWasAsked(s, steps, j);
    CausesInOrder(s, steps, i, j, clear, gate);
  }

  /** Behind every submitted run: first it was cleared, then its approval requested, then its submission. */
  lemma SubmissionWasRequested(s: System, steps: seq<Step>, r: RunId)
    returns (clear: nat, gate: nat, submit: nat)
    requires Initial(s) && r in Execute(s, steps).db.runs
    requires Execute(s, steps).db.runs[r].status.Submitted?
    ensures var run := Execute(s, steps).db.runs[r];
            && clear < gate < submit < |steps| && ClearedBy(s, steps, clear, r)
            && run.approvalId.Some? && steps[gate] == GateSubmit(r, run.approvalId.value, "approve")
            && steps[submit] == ConfirmSubmit(r)
  {
    SubmittedRunWasApproved(s, steps, r);
    hide Execute, ClearedAt, ApprovedAt, Quiet, ClearedBy;
    var es := Execute(s, steps).db.events;
    var a := Execute(s, steps).db.runs[r].approvalId.value;
    var i: nat, j: nat, k: nat :| i < j < k < |es| && ClearedAt(es, r, i) && ApprovedAt(es, r, j, a)
                                  && es[k] == Event(r, SubmitRecorded);
    clear, gate := ClearanceAndGate(s, steps, r, i, j, a);
    submit := SubmitAfterGate(s, steps, r, j, k, gate);
  }

  lemma SubmitAfterGate(s: System, steps: seq<Step>, r: RunId, j: nat, k: nat, gate: nat) returns (submit: nat)
    requires Initial(s) && j < k < |Execute(s, steps).db.events| && CausedBy(s, steps, j, gate)
    requires Execute(s, steps).db.events[k] == Event(r, SubmitRecorded) && gate < |steps| && steps[gate].GateSubmit?
    ensures gate < submit < |steps| && steps[submit] == ConfirmSubmit(r)
  {
    hide Execute;
    submit := EventWasAsked(s, steps, k);
    CausesInOrder(s, steps, j, k, gate, submit);
  }

  // ----- what the decisions do -----

  /** The gate does what the caller's word says, and nothing for any other word. */
  lemma GateDecides(s: System, r: RunId, a: ApprovalId, decision: string)
    requires r in s.db.runs && s.db.runs[r].status.AwaitingSubmitApproval? && a !in s.db.approvals
    ensures var run := s.db.runs[r];
            var db := Next(s, GateSubmit(r, a, decision)).db;
            && (decision == "approve" ==>
                  && r in db.runs && db.runs[r].status.SubmitApproved? && db.runs[r].submitAllowed
                  && db.runs[r].completedAt.None?
                  && db.approvals == s.db.approvals[a := Approval(run.job, r, Approve)]
                  && (run.job in s.db.jobs ==> run.job in db.jobs && db.jobs[run.job].status.Claimed?))
            && (decision == "deny" ==>
                  && r in db.runs && db.runs[r].status.SubmitDenied? && !db.runs[r].submitAllowed
                  && db.runs[r].completedAt == Some(s.db.now)
                  && db.approvals == s.db.approvals[a := Approval(run.job, r, Deny)]
                  && (run.job in s.db.jobs ==> run.job in db.jobs && db.jobs[run.job].status.Skipped?))
            && (decision != "approve" && decision != "deny" ==> db == s.db)
  {
  }

  /** A denied run is never submitted, whatever happens later. */
  lemma DenialIsFinal(s: System, steps: seq<Step>, more: seq<Step>, r: RunId, a: ApprovalId)
    requires Initial(s)
    requires var db := Execute(s, steps).db;
             r in db.runs && db.runs[r].status.AwaitingSubmitApproval? && a !in db.approvals
    ensures var later := Execute(s, steps + [GateSubmit(r, a, "deny")] + more).db;
            && r in later.runs && later.runs[r].status.SubmitDenied? && !later.runs[r].submitAllowed
            && later.runs[r].approvalId == Some(a)
            && a in later.approvals && later.approvals[a] == Approval(later.runs[r].job, r, Deny)
  {
    var denied := steps + [GateSubmit(r, a, "deny")];
    assert denied[..|denied|-1] == steps && denied[|denied|-1] == GateSubmit(r, a, "deny");
    DeniedRow(Execute(s, steps), r, a);
    assert Execute(s, denied) == Next(Execute(s, steps), GateSubmit(r, a, "deny"));
    LaterEvolves(s, denied, more);
    hide Execute, Next;
  }

  /** The row a denial leaves. */
  lemma DeniedRow(s: System, r: RunId, a: ApprovalId)
    requires r in s.db.runs && s.db.runs[r].status.AwaitingSubmitApproval? && a !in s.db.approvals
    ensures var db := Next(s, GateSubmit(r, a, "deny")).db;
            && r in db.runs && db.runs[r].status.SubmitDenied? && !db.runs[r].submitAllowed
            && db.runs[r].approvalId == Some(a) && a in db.approvals
            && db.approvals[a] == Approval(db.runs[r].job, r, Deny)
  {
    hide NextCalls;
  }
}

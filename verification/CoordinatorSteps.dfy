/**
  Every transaction keeps the invariant, only appends to the log and the approvals, never revives
  a closed lease, never touches a submitted or denied run, and pays for every run it returns to
  the executing ones.
 */
module CoordinatorSteps {
  import opened Query
  import opened Sequences
  import opened Wrappers

  import opened CoordinatorModel
  import opened CoordinatorSafety

  /** Statuses no transaction leaves. (`failed` is not one: an operator can queue it again.) */
  predicate Sealed(s: RunStatus) { s.Submitted? || s.SubmitDenied? }

  ghost predicate Evolves(db: Db, db': Db) {
    && db.events <= db'.events
    && db.now <= db'.now
    && (forall r | r in db.runs :: r in db'.runs && db'.runs[r].job == db.runs[r].job
                                   && db'.runs[r].startedAt == db.runs[r].startedAt
                                   && (Sealed(db.runs[r].status) ==> db'.runs[r] == db.runs[r]))
    && (forall l | l in db.leases :: l in db'.leases && db'.leases[l].run == db.leases[l].run
                                     && (!db.leases[l].status.Active? ==>
                                           !db'.leases[l].status.Active?))
    && (forall a | a in db.approvals :: a in db'.approvals && db'.approvals[a] == db.approvals[a])
  }

  function Credits(es: seq<Event>): nat {
    if es == [] then 0 else Credits(es[..|es|-1]) + if Reopens(es[|es|-1].kind) then 1 else 0
  }

  ghost predicate Settles(db: Db, db': Db) {
    |ExecutingRuns(db')| + Credits(db.events) <= |ExecutingRuns(db)| + Credits(db'.events)
  }

  ghost predicate Advances(db: Db, db': Db) {
    Inv(db') && Evolves(db, db') && Settles(db, db')
  }

  lemma PostEvolves(db: Db, r: RunId, run: Run, job: Option<JobStatus>, kind: EventKind)
    requires Legal(db, r, run, job, kind)
    ensures Evolves(db, Post(db, r, run, job, kind))
  {
  }

  lemma PostSettles(db: Db, r: RunId, run: Run, job: Option<JobStatus>, kind: EventKind)
    requires Legal(db, r, run, job, kind)
    ensures Settles(db, Post(db, r, run, job, kind))
  {
    var db' := Post(db, r, run, job, kind);
    assert db'.events[..|db.events|] == db.events;
    if Executing(run.status) && !Executing(db.runs[r].status) {
      assert ExecutingRuns(db') == ExecutingRuns(db) + {r};
    } else {
      SubsetSize(ExecutingRuns(db'), ExecutingRuns(db));
    }
  }

  lemma PostAdvances(db: Db, r: RunId, run: Run, job: Option<JobStatus>, kind: EventKind)
    requires Inv(db) && Legal(db, r, run, job, kind)
    ensures Advances(db, Post(db, r, run, job, kind))
  {
    PostKeepsInv(db, r, run, job, kind);
    PostEvolves(db, r, run, job, kind);
    PostSettles(db, r, run, job, kind);
  }

  ghost predicate LogInv(db: Db) { Sourced(db) && Trailed(db) && FilledOnce(db) }

  lemma SameLog(db: Db, db': Db)
    requires LogInv(db) && db'.events == db.events && db'.runs == db.runs
    ensures LogInv(db')
  {
    forall r: RunId ensures Stored(db', r) == Stored(db, r) {}
  }

  lemma NotedLog(db: Db, db': Db, e: Event)
    requires LogInv(db) && db'.events == db.events + [e] && db'.runs == db.runs && !Moves(e.kind)
    ensures LogInv(db')
  {
    assert db'.events[..|db.events|] == db.events;
    forall q: RunId
      ensures Replay(db'.events, q) == Stored(db', q)
      ensures FillCount(db'.events, q) <=
              if q in db'.runs && !BeforeFill(db'.runs[q].status) then 1 else 0
    {
      ReplayAppend(db.events, e, q);
      assert Replay(db.events, q) == Stored(db, q) == Stored(db', q);
      assert FillCount(db.events, q) <=
             if q in db.runs && !BeforeFill(db.runs[q].status) then 1 else 0;
    }
    forall q | q in db'.runs ensures Trail(db'.events, q, db'.runs[q]) {
      AppendKeepsTrail(db.events, e, q, db.runs[q]);
    }
  }

  lemma SameJobs(db: Db, db': Db)
    requires OneRunPerJob(db) && db'.jobs == db.jobs && db'.runs == db.runs
    ensures OneRunPerJob(db')
  {
    forall q | q in db'.runs ensures Blocking(db', db'.runs[q]) { assert Blocking(db, db.runs[q]); }
  }

  lemma SameRuns(db: Db, db': Db)
    requires db'.runs == db.runs && (db'.events == db.events
             || exists e: Event :: db'.events == db.events + [e] && !Moves(e.kind))
    ensures Settles(db, db')
  {
    assert ExecutingRuns(db') == ExecutingRuns(db);
    if db'.events != db.events {
      var e :| db'.events == db.events + [e] && !Moves(e.kind);
      assert db'.events[..|db.events|] == db.events;
    }
  }

  /** Changes that leave the runs alone: lease rows, and lease events in the log. */
  lemma LeaseChangeAdvances(db: Db, db': Db, note: seq<Event>)
    requires Inv(db) && db' == db.(leases := db'.leases, events := db.events + note)
    requires |note| <= 1 && forall e | e in note :: !Moves(e.kind)
    requires OneActiveLease(db') && Evolves(db, db.(leases := db'.leases))
    ensures Advances(db, db')
  {
    if note == [] {
      assert db'.events == db.events;
      SameLog(db, db');
    } else {
      assert note == [note[0]];
      NotedLog(db, db', note[0]);
    }
    SameJobs(db, db');
    SameRuns(db, db');
  }

  lemma Chain(a: Db, b: Db, c: Db)
    requires Advances(a, b) && Advances(b, c)
    ensures Advances(a, c)
  {
    assert a.events <= c.events;
  }

  lemma StandStill(db: Db)
    requires Inv(db)
    ensures Advances(db, db)
  {
  }

  // ----- transactions on one run -----

  lemma RequestFillAdvances(db: Db, r: RunId)
    requires Inv(db)
    ensures Advances(db, RequestFill(db, r).db)
  {
    if r in db.runs && db.runs[r].status.ApplyPrepared? {
      PostAdvances(db, r, db.runs[r].(status := FillRequested, updatedAt := db.now), None, FillAsked);
    }
  }

  lemma MarkAdvances(db: Db, r: RunId, reason: string)
    requires Inv(db)
    ensures Advances(db, MarkManualReview(db, r, reason))
  {
    if r in db.runs && !Terminal(db.runs[r].status) && !db.runs[r].status.ManualReview? {
      PostAdvances(db, r, db.runs[r].(status := ManualReview, reviewRequired := true,
                                      reviewReason := Some(reason), reviewFlags := [reason],
                                      updatedAt := db.now, completedAt := None),
                   Some(Claimed), ReviewRequired(reason));
    }
  }

  lemma RecordFillAdvances(db: Db, r: RunId, f: FillResult)
    requires Inv(db)
    ensures Advances(db, RecordFillResult(db, r, f).db)
  {
    if RecordFillResult(db, r, f).reply.Done? {
      var run := db.runs[r];
      var v := Judge(f);
      PostAdvances(db, r, run.(status := v.status, reviewRequired := v.reviewRequired,
                               reviewReason := v.reviewReason, reviewFlags := f.reviewFlags,
                               failureCode := v.failureCode, updatedAt := db.now,
                               completedAt := if v.status.Failed? then Some(db.now) else None),
                   Some(v.jobStatus), FillRecorded(run.status, v, f));
    }
  }

  lemma QueueInvestigationAdvances(db: Db, r: RunId)
    requires Inv(db)
    ensures Advances(db, QueueInvestigation(db, r).db)
  {
    if QueueInvestigation(db, r).reply.Done? {
      var run := db.runs[r];
      PostAdvances(db, r, run.(status := InvestigationQueued, updatedAt := db.now), None,
                   InvestigationAsked(run.status));
    }
  }

  lemma RecordInvestigationAdvances(db: Db, r: RunId)
    requires Inv(db)
    ensures Advances(db, RecordInvestigationResult(db, r).db)
  {
    if RecordInvestigationResult(db, r).reply.Done? {
      PostAdvances(db, r, db.runs[r].(status := InvestigationComplete, updatedAt := db.now),
                   Some(JobFailed), InvestigationRecorded);
    }
  }

  lemma ResolveReviewAdvances(db: Db, r: RunId, decision: string)
    requires Inv(db)
    ensures Advances(db, ResolveReview(db, r, decision).db)
  {
    if ResolveReview(db, r, decision).reply.Done? {
      var go := decision == "continue";
      PostAdvances(db, r, db.runs[r].(status := if go then AwaitingSubmitApproval else Failed,
                                      reviewRequired := false, reviewReason := None,
                                      updatedAt := db.now,
                                      completedAt := if go then None else Some(db.now)),
                   Some(if go then Claimed else JobFailed),
                   ReviewResolved(if go then Continue else Fail));
    }
  }

  lemma ApprovalRowAdvances(db: Db, a: ApprovalId, row: Approval)
    requires Inv(db) && a !in db.approvals
    ensures Advances(db, db.(approvals := db.approvals[a := row]))
  {
    var db' := db.(approvals := db.approvals[a := row]);
    SameLog(db, db');
    SameJobs(db, db');
    SameRuns(db, db');
    assert Gated(db') by {
      forall r | r in db.runs ensures Approvable(db'.approvals, r, db.runs[r]) {
        assert Approvable(db.approvals, r, db.runs[r]);
      }
    }
    hide Sourced, Trailed, FilledOnce, OneRunPerJob, Gated, Settles;
  }

  lemma ApproveSubmitAdvances(db: Db, r: RunId, a: ApprovalId, decision: string)
    requires Inv(db)
    ensures Advances(db, ApproveSubmit(db, r, a, decision).db)
  {
    hide Inv, Evolves, Settles;
    StandStill(db);
    if ApproveSubmit(db, r, a, decision).reply.Done? {
      var ok := decision == "approve";
      var run := db.runs[r];
      var verdict := if ok then Approve else Deny;
      var row := Approval(run.job, r, verdict);
      var db' := db.(approvals := db.approvals[a := row]);
      ApprovalRowAdvances(db, a, row);
      PostAdvances(db', r, run.(status := if ok then SubmitApproved else SubmitDenied,
                                submitAllowed := ok, approvalId := Some(a), updatedAt := db.now,
                                completedAt := if ok then None else Some(db.now)),
                   Some(if ok then Claimed else Skipped), ApprovalRecorded(a, verdict));
      Chain(db, db', ApproveSubmit(db, r, a, decision).db);
    }
  }

  lemma MarkSubmittedAdvances(db: Db, r: RunId)
    requires Inv(db)
    ensures Advances(db, MarkSubmitted(db, r).db)
  {
    if MarkSubmitted(db, r).reply.Done? {
      PostAdvances(db, r, db.runs[r].(status := Submitted, updatedAt := db.now,
                                      completedAt := Some(db.now)),
                   Some(Applied), SubmitRecorded);
    }
  }

  // ----- transactions on leases -----

  lemma CloseRowAdvances(db: Db, l: LeaseId, s: LeaseStatus, note: seq<Event>)
    requires Inv(db) && l in db.leases && !s.Active?
    requires |note| <= 1 && forall e | e in note :: !Moves(e.kind)
    ensures Advances(db, CloseRow(db, l, s).(events := db.events + note))
  {
    hide Sourced, Trailed, FilledOnce, OneRunPerJob, Gated, Settles;
    LeaseChangeAdvances(db, CloseRow(db, l, s).(events := db.events + note), note);
  }

  lemma ExpireLeaseAdvances(db: Db, l: LeaseId, markRuns: bool)
    requires Inv(db)
    ensures Advances(db, ExpireLease(db, l, markRuns))
  {
    hide Inv, Evolves, Settles;
    StandStill(db);
    if Due(db, l) {
      CloseRowAdvances(db, l, TimedOut, []);
      var closed := CloseRow(db, l, TimedOut);
      assert closed.(events := db.events + []) == closed;
      if markRuns {
        MarkAdvances(closed, db.leases[l].run, "worker_timeout");
        Chain(db, closed, ExpireLease(db, l, markRuns));
      }
    }
  }

  lemma {:induction false} ExpireLeasesAdvances(db: Db, rows: seq<LeaseId>, markRuns: bool)
    requires Inv(db)
    ensures Advances(db, ExpireLeases(db, rows, markRuns))
  {
    if rows != [] {
      var most := ExpireLeases(db, rows[..|rows|-1], markRuns);
      ExpireLeasesAdvances(db, rows[..|rows|-1], markRuns);
      ExpireLeaseAdvances(most, rows[|rows|-1], markRuns);
      Chain(db, most, ExpireLeases(db, rows, markRuns));
    }
  }

  lemma {:induction false} TimeOutFillsAdvances(db: Db, rows: seq<RunId>, cutoff: int)
    requires Inv(db)
    ensures Advances(db, TimeOutFills(db, rows, cutoff))
  {
    if rows != [] {
      var most := TimeOutFills(db, rows[..|rows|-1], cutoff);
      TimeOutFillsAdvances(db, rows[..|rows|-1], cutoff);
      MarkAdvances(most, rows[|rows|-1], "worker_timeout");
      Chain(db, most, TimeOutFills(db, rows, cutoff));
    }
  }

  lemma {:induction false} TimeOutSubmitsAdvances(db: Db, rows: seq<RunId>, cutoff: int)
    requires Inv(db)
    ensures Advances(db, TimeOutSubmits(db, rows, cutoff))
  {
    if rows != [] {
      var most := TimeOutSubmits(db, rows[..|rows|-1], cutoff);
      TimeOutSubmitsAdvances(db, rows[..|rows|-1], cutoff);
      MarkAdvances(most, rows[|rows|-1], "submit_not_confirmed");
      Chain(db, most, TimeOutSubmits(db, rows, cutoff));
    }
  }

  lemma SweepAdvances(db: Db, ls: seq<LeaseId>, fs: seq<RunId>, cutoff: int)
    requires Inv(db)
    ensures Advances(db, TimeOutFills(ExpireLeases(db, ls, true), fs, cutoff))
  {
    var expired := ExpireLeases(db, ls, true);
    ExpireLeasesAdvances(db, ls, true);
    TimeOutFillsAdvances(expired, fs, cutoff);
    Chain(db, expired, TimeOutFills(expired, fs, cutoff));
  }

  lemma FullSweepAdvances(db: Db, ls: seq<LeaseId>, fs: seq<RunId>, cutoff: int, ss: seq<RunId>,
                          submitCutoff: int)
    requires Inv(db)
    ensures Advances(db, TimeOutSubmits(TimeOutFills(ExpireLeases(db, ls, true), fs, cutoff), ss,
                                        submitCutoff))
  {
    var filled := TimeOutFills(ExpireLeases(db, ls, true), fs, cutoff);
    SweepAdvances(db, ls, fs, cutoff);
    TimeOutSubmitsAdvances(filled, ss, submitCutoff);
    Chain(db, filled, TimeOutSubmits(filled, ss, submitCutoff));
  }

  lemma ReconcileAdvances(db: Db, ls: seq<LeaseId>, fs: seq<RunId>, ss: seq<RunId>,
                          fillTimeout: int, submitTimeout: Option<int>)
    requires Inv(db)
    ensures Advances(db, Reconcile(db, ls, fs, ss, fillTimeout, submitTimeout))
  {
    hide Inv, Evolves, Settles;
    StandStill(db);
    if submitTimeout.None? { SweepAdvances(db, ls, fs, db.now - fillTimeout); }
    else { FullSweepAdvances(db, ls, fs, db.now - fillTimeout, ss, db.now - submitTimeout.value); }
  }

  lemma NewLeaseAdvances(db: Db, l: LeaseId, lease: Lease)
    requires Inv(db) && l !in db.leases && lease.run in db.runs && !Leased(db, lease.run)
    ensures Advances(db, db.(leases := db.leases[l := lease],
                             events := db.events + [Event(lease.run, LeaseClaimed(l))]))
  {
    hide Sourced, Trailed, FilledOnce, OneRunPerJob, Gated, Settles;
    LeaseChangeAdvances(db, db.(leases := db.leases[l := lease],
                                events := db.events + [Event(lease.run, LeaseClaimed(l))]),
                        [Event(lease.run, LeaseClaimed(l))]);
  }

  lemma ClaimNextAdvances(db: Db, rows: seq<LeaseId>, t: TaskType, l: LeaseId, runtime: string,
                          seconds: int)
    requires Inv(db)
    ensures Advances(db, ClaimNext(db, rows, t, l, runtime, seconds).db)
  {
    hide Inv, Evolves, Settles;
    StandStill(db);
    var o := ClaimNext(db, rows, t, l, runtime, seconds);
    var swept := ExpireLeases(db, rows, false);
    ExpireLeasesAdvances(db, rows, false);
    if o.reply.LeasedRun? {
      SweptKeepsRows(db, rows);
      var r := o.reply.run;
      assert r in PendingRuns(swept, ClaimStatus(t));
      NewLeaseAdvances(swept, l, o.db.leases[l]);
      Chain(db, swept, o.db);
    }
  }

  lemma RenewalAdvances(db: Db, l: LeaseId, until: int)
    requires Inv(db) && l in db.leases && db.leases[l].status.Active?
    ensures Advances(db, db.(leases := db.leases[l := db.leases[l].(heartbeatAt := db.now,
                                                                    expiresAt := until)]))
  {
    hide Sourced, Trailed, FilledOnce, OneRunPerJob, Gated, Settles;
    var db' := db.(leases := db.leases[l := db.leases[l].(heartbeatAt := db.now,
                                                          expiresAt := until)]);
    assert db' == db'.(events := db.events + []);
    LeaseChangeAdvances(db, db', []);
  }

  lemma HeartbeatAdvances(db: Db, l: LeaseId, seconds: int)
    requires Inv(db)
    ensures Advances(db, Heartbeat(db, l, seconds).db)
  {
    hide Inv, Evolves, Settles;
    StandStill(db);
    if seconds >= 30 {
      CheckLeaseAdvances(db, l);
      if Heartbeat(db, l, seconds).reply.Done? { RenewalAdvances(db, l, db.now + seconds); }
    }
  }

  lemma CheckLeaseAdvances(db: Db, l: LeaseId)
    requires Inv(db)
    ensures Advances(db, CheckLease(db, l).db)
  {
    hide Inv, Evolves, Settles;
    StandStill(db);
    if Due(db, l) {
      CloseRowAdvances(db, l, TimedOut, []);
      assert CloseRow(db, l, TimedOut).(events := db.events + []) == CloseRow(db, l, TimedOut);
    }
  }

  lemma CloseLeaseAdvances(db: Db, l: LeaseId)
    requires Inv(db)
    ensures Advances(db, CloseLease(db, l).db)
  {
    if l in db.leases {
      CloseRowAdvances(db, l, Completed, [Event(db.leases[l].run, LeaseCompleted(l))]);
    }
  }

  // ----- new runs -----

  /** A run is created only for a job that has none. */
  lemma ReadyJobHasNoRun(db: Db, j: JobId)
    requires Inv(db) && Decide(db, j).Ready?
    ensures forall q | q in db.runs :: db.runs[q].job != j
  {
    assert OpenRuns(db, j) == {};
    forall q | q in db.runs ensures db.runs[q].job != j {
      assert Blocking(db, db.runs[q]);
      assert q !in OpenRuns(db, j);
    }
  }

  lemma StartRunKeepsLog(db: Db, j: JobId, r: RunId)
    requires LogInv(db) && BuildApplyContext(db, j, r).reply.Done?
    ensures LogInv(BuildApplyContext(db, j, r).db)
  {
    var db' := BuildApplyContext(db, j, r).db;
    var e := Event(r, RunStarted);
    assert db'.events == db.events + [e] && db'.events[..|db.events|] == db.events;
    assert Replay(db.events, r) == Stored(db, r);
    forall q: RunId
      ensures Replay(db'.events, q) == Stored(db', q)
      ensures FillCount(db'.events, q) <=
              if q in db'.runs && !BeforeFill(db'.runs[q].status) then 1 else 0
    {
      ReplayAppend(db.events, e, q);
      assert Replay(db.events, q) == Stored(db, q);
      assert FillCount(db.events, q) <=
             if q in db.runs && !BeforeFill(db.runs[q].status) then 1 else 0;
    }
    forall q | q in db'.runs ensures Trail(db'.events, q, db'.runs[q]) {
      if q != r { AppendKeepsTrail(db.events, e, q, db.runs[q]); }
    }
  }

  lemma StartRunKeepsRows(db: Db, j: JobId, r: RunId)
    requires Inv(db) && BuildApplyContext(db, j, r).reply.Done?
    ensures var db' := BuildApplyContext(db, j, r).db;
            OneRunPerJob(db') && OneActiveLease(db') && Gated(db')
  {
    hide Sourced, Trailed, FilledOnce;
    ReadyJobHasNoRun(db, j);
    var db' := BuildApplyContext(db, j, r).db;
    forall q | q in db'.runs
      ensures Blocking(db', db'.runs[q]) && Approvable(db'.approvals, q, db'.runs[q])
    {
      if q != r { assert Blocking(db, db.runs[q]) && Approvable(db.approvals, q, db.runs[q]); }
    }
  }

  lemma StartRunKeepsInv(db: Db, j: JobId, r: RunId)
    requires Inv(db)
    ensures var db' := BuildApplyContext(db, j, r).db; Inv(db') && Evolves(db, db')
  {
    hide Sourced, Trailed, FilledOnce, OneRunPerJob, OneActiveLease, Gated;
    if BuildApplyContext(db, j, r).reply.Done? {
      StartRunKeepsLog(db, j, r);
      StartRunKeepsRows(db, j, r);
    }
  }

  lemma PrepareAndAskKeepsInv(db: Db, j: JobId, r: RunId)
    requires Inv(db)
    ensures var db' := RequestFill(BuildApplyContext(db, j, r).db, r).db;
            Inv(db') && Evolves(db, db')
  {
    var built := BuildApplyContext(db, j, r).db;
    StartRunKeepsInv(db, j, r);
    RequestFillAdvances(built, r);
    EvolvesChain(db, built, RequestFill(built, r).db);
  }

  lemma RunOnceKeepsInv(db: Db, r: RunId, prepareOnly: bool)
    requires Inv(db)
    ensures Inv(RunOnce(db, r, prepareOnly).db) && Evolves(db, RunOnce(db, r, prepareOnly).db)
  {
    hide Inv, Evolves, Settles;
    StandStill(db);
    var pick := PickNextJob(db);
    if pick.Picked? {
      StartRunKeepsInv(db, pick.job, r);
      PrepareAndAskKeepsInv(db, pick.job, r);
    }
  }

  lemma EvolvesChain(a: Db, b: Db, c: Db)
    requires Evolves(a, b) && Evolves(b, c)
    ensures Evolves(a, c)
  {
    assert a.events <= c.events;
  }

  /** `run_once` starts a run only when nothing executes. */
  lemma RunOnceStartsAlone(db: Db, r: RunId, prepareOnly: bool)
    ensures var db' := RunOnce(db, r, prepareOnly).db;
            db' == db || (ExecutingRuns(db) == {} && ExecutingRuns(db') == {r}
                          && Credits(db.events) <= Credits(db'.events))
  {
    hide BuildApplyContext, RequestFill, ExecutingRuns, Credits, ReadyJobs, HoldRuns, JobOrder;
    var pick := PickNextJob(db);
    if pick.Picked? {
      assert ExecutingRuns(db) == {};
      StartAlone(db, pick.job, r);
      var built := BuildApplyContext(db, pick.job, r);
      if !built.reply.Rejected? { AskAlone(built.db, r); }
    }
  }

  lemma StartAlone(db: Db, j: JobId, r: RunId)
    requires ExecutingRuns(db) == {}
    ensures var built := BuildApplyContext(db, j, r);
            if built.reply.Rejected? then built.db == db
            else ExecutingRuns(built.db) == {r} && Credits(db.events) <= Credits(built.db.events)
  {
    hide Decide;
    var built := BuildApplyContext(db, j, r);
    if !built.reply.Rejected? {
      assert built.db.events[..|db.events|] == db.events;
      assert ExecutingRuns(built.db) == {r};
    }
  }

  /** A run started by itself adds at most itself to the executing ones. */
  lemma StartAddsOne(db: Db, j: JobId, r: RunId)
    ensures var db' := BuildApplyContext(db, j, r).db;
            && |ExecutingRuns(db')| <= |ExecutingRuns(db)| + 1
            && Credits(db.events) <= Credits(db'.events)
  {
    hide Decide;
    var built := BuildApplyContext(db, j, r);
    if !built.reply.Rejected? {
      assert built.db.events[..|db.events|] == db.events;
      assert ExecutingRuns(built.db) == ExecutingRuns(db) + {r};
    }
  }

  lemma AskAlone(db: Db, r: RunId)
    requires ExecutingRuns(db) == {r}
    ensures var asked := RequestFill(db, r).db;
            ExecutingRuns(asked) == {r} && Credits(db.events) <= Credits(asked.events)
  {
    var asked := RequestFill(db, r).db;
    assert r in ExecutingRuns(db);
    if asked != db {
      assert asked.events[..|db.events|] == db.events;
      assert ExecutingRuns(asked) == ExecutingRuns(db);
    }
  }

  // ----- other components -----

  /** Changing jobs without reopening any that has a run. */
  ghost predicate Reopened(db: Db, jobs: map<JobId, Job>) {
    exists j :: j in jobs && HasRun(db, j)
                && !(j in db.jobs && (jobs[j].status == db.jobs[j].status || Closed(jobs[j].status)))
  }

  lemma JobsChangeBlocks(db: Db, jobs: map<JobId, Job>)
    requires OneRunPerJob(db) && !Reopened(db, jobs)
    ensures OneRunPerJob(db.(jobs := jobs))
  {
    var db' := db.(jobs := jobs);
    forall q | q in db'.runs ensures Blocking(db', db'.runs[q]) {
      assert Blocking(db, db.runs[q]);
      assert HasRun(db, db.runs[q].job);
    }
  }

  lemma JobsChangeKeepsInv(db: Db, jobs: map<JobId, Job>)
    requires Inv(db) && !Reopened(db, jobs)
    ensures Advances(db, db.(jobs := jobs))
  {
    var db' := db.(jobs := jobs);
    JobsChangeBlocks(db, jobs);
    SameLog(db, db');
    SameRuns(db, db');
    hide LogInv, Sourced, Trailed, FilledOnce, OneRunPerJob, Settles, Approvable;
  }

  lemma TickAdvances(db: Db, elapsed: nat)
    requires Inv(db)
    ensures Advances(db, db.(now := db.now + elapsed))
  {
    var db' := db.(now := db.now + elapsed);
    SameLog(db, db');
    SameJobs(db, db');
    SameRuns(db, db');
    hide Sourced, Trailed, FilledOnce, OneRunPerJob, Settles;
  }

  /** Clock ticks and the steps of other components. */
  predicate Outside(step: Step) {
    step.Tick? || step.AddJob? || step.EditJob? || step.SkipJob? || step.DropJob?
  }

  lemma OutsideAdvances(s: System, step: Step)
    requires Inv(s.db) && Outside(step)
    ensures Advances(s.db, NextDb(s, step))
  {
    hide Inv, Evolves, Settles;
    match step
    case Tick(elapsed) => TickAdvances(s.db, elapsed);
    case _ => JobsChangeKeepsInv(s.db, NextDb(s, step).jobs);
  }

  /** Steps of a lease completion. */
  predicate Completing(step: Step) {
    step.BeginCompletion? || step.RouteCompletion? || step.RecordCompletion? || step.EndCompletion?
  }

  lemma CompletionAdvances(s: System, step: Step)
    requires Inv(s.db) && Completing(step)
    ensures Advances(s.db, NextDb(s, step))
  {
    hide Inv, Evolves, Settles, RecordFillResult, RecordInvestigationResult, CheckLease, CloseLease;
    StandStill(s.db);
    var db := s.db;
    match step
    case BeginCompletion(c, l, _) => CheckLeaseAdvances(db, l);
    case RouteCompletion(_) =>
    case RecordCompletion(c) =>
      if c in s.calls && s.calls[c].Routed? && s.calls[c].lease in db.leases {
        var r := db.leases[s.calls[c].lease].run;
        if s.calls[c].investigate { RecordInvestigationAdvances(db, r); }
        else { RecordFillAdvances(db, r, s.calls[c].result); }
      }
    case EndCompletion(c) =>
      if c in s.calls && s.calls[c].Recorded? { CloseLeaseAdvances(db, s.calls[c].lease); }
  }

  /** The single-transaction calls on runs and leases. */
  lemma CallAdvances(s: System, step: Step)
    requires Inv(s.db) && !Outside(step) && !Completing(step) && !step.StartRun? && !step.DoRunOnce?
    ensures Advances(s.db, NextDb(s, step))
  {
    hide Inv, Evolves, Settles, RecordFillResult, QueueInvestigation, RecordInvestigationResult, ResolveReview,
         ApproveSubmit, MarkSubmitted, RequestFill, ClaimNext, Heartbeat, Reconcile;
    var db := s.db;
    match step
    case AskFill(r) => RequestFillAdvances(db, r);
    case Claim(rows, t, l, runtime, seconds) => ClaimNextAdvances(db, rows, t, l, runtime, seconds);
    case Beat(l, seconds) => HeartbeatAdvances(db, l, seconds);
    case PostFill(r, result) => RecordFillAdvances(db, r, result);
    case AskInvestigation(r) => QueueInvestigationAdvances(db, r);
    case PostInvestigation(r) => RecordInvestigationAdvances(db, r);
    case Resolve(r, decision) => ResolveReviewAdvances(db, r, decision);
    case GateSubmit(r, a, decision) => ApproveSubmitAdvances(db, r, a, decision);
    case ConfirmSubmit(r) => MarkSubmittedAdvances(db, r);
    case DoReconcile(ls, fs, ss, ft, st) => ReconcileAdvances(db, ls, fs, ss, ft, st);
  }

  /** Every step except a run started outside `run_once` advances in all three senses. */
  lemma StepAdvances(s: System, step: Step)
    requires Inv(s.db) && !step.StartRun? && !step.DoRunOnce?
    ensures Advances(s.db, Next(s, step).db)
  {
    hide Inv, Evolves, Settles, NextDb;
    if Outside(step) {
      OutsideAdvances(s, step);
    } else if Completing(step) {
      CompletionAdvances(s, step);
    } else {
      CallAdvances(s, step);
    }
  }

  lemma StepKeepsInv(s: System, step: Step)
    requires Inv(s.db)
    ensures Inv(Next(s, step).db) && Evolves(s.db, Next(s, step).db)
  {
    hide Inv, Evolves, Settles, RunOnce, BuildApplyContext, NextCalls;
    if step.StartRun? {
      StartRunKeepsInv(s.db, step.j, step.r);
    } else if step.DoRunOnce? {
      RunOnceKeepsInv(s.db, step.r, step.prepareOnly);
    } else {
      StepAdvances(s, step);
    }
  }
}

/**
  What the coordinator's requests do, told by rows, clocks and the caller's data: which jobs get a
  run, which run is picked or leased, what becomes of a run, and when waiting ends.
 */
module CoordinatorEffects {
  import opened Query
  import opened Sequences
  import opened Wrappers

  import opened CoordinatorModel
  import opened CoordinatorSafety
  import opened CoordinatorSteps
  import opened CoordinatorRuns
  import opened CoordinatorReconcile

  // ----- which jobs get a run -----

  /** A job nobody has dealt with, found automatically, enriched, with an external application, an
      address and a selected resume. */
  predicate Eligible(job: Job) {
    && (job.status.Fresh? || job.status.Other?)
    && job.priority == 0
    && (job.enrichment == "done" || job.enrichment == "done_verified")
    && job.applyType == "external_apply" && job.autoApply && job.applyUrl != ""
    && job.resumeReady && job.resumeVersion != "" && job.resumePdf != ""
  }

  /** An eligible job no run was ever made for. */
  ghost predicate Startable(db: Db, j: JobId) {
    j in db.jobs && Eligible(db.jobs[j]) && !HasRun(db, j)
  }

  lemma ReadyIffEligible(job: Job)
    ensures DecideJob(job).Ready? <==> Eligible(job)
  {
  }

  /** The reason given is the first thing in the job's way. */
  lemma ReasonIsFirstObstacle(job: Job)
    ensures var reason := DecideJob(job);
            && (reason.ApplicationClaimed? <==> job.status.Claimed?)
            && (reason.AlreadyApplied? <==> job.status.Applied?)
            && (reason.ApplicationTerminal? <==> job.status.JobFailed? || job.status.Skipped?)
            && (!(job.status.Fresh? || job.status.Other?) || (
                  && (reason.ManualOnly? <==> job.priority != 0)
                  && (job.priority == 0 ==> (reason.WaitingOnEnrichment? <==>
                        job.enrichment != "done" && job.enrichment != "done_verified"))
                  && (reason.EasyApplyExcluded? ==> job.applyType == "easy_apply")
                  && (reason.UnsupportedApplyType? ==>
                        job.applyType != "easy_apply" && job.applyType != "external_apply")
                  && (reason.NotAutoApplyEligible? ==> job.applyType == "external_apply" && !job.autoApply)
                  && (reason.MissingApplyUrl? ==> job.autoApply && job.applyUrl == "")
                  && (reason.WaitingOnResume? ==>
                        Eligible(job.(resumeReady := true, resumeVersion := "v", resumePdf := "p")))))
  {
  }

  /** Starting a run takes an eligible job without a run and an unused id, and nothing else. */
  lemma StartsIffEligible(s: System, steps: seq<Step>, j: JobId, r: RunId)
    requires Initial(s)
    ensures var before := Execute(s, steps);
            var db := before.db;
            var db' := Next(before, StartRun(j, r)).db;
            if Startable(db, j) && r !in db.runs then
              var flags := if "manual_review_recommended" in db.jobs[j].concernFlags then ["manual_review_recommended"]
                           else [];
              && db'.runs == db.runs[r := Run(j, ApplyPrepared, false, None, flags, false, None, None, db.now, db.now,
                                              None)]
              && db'.jobs[j].status == (if db.jobs[j].status.Fresh? then Claimed else db.jobs[j].status)
            else db' == db
  {
    ReachableInv(s, steps);
    var db := Execute(s, steps).db;
    hide Execute, Inv, Decide;
    if j in db.jobs {
      ReadyMeans(db, j);
      ReadyIffEligible(db.jobs[j]);
    }
  }

  lemma ReadyMeans(db: Db, j: JobId)
    requires Inv(db) && j in db.jobs
    ensures Decide(db, j).Ready? <==> DecideJob(db.jobs[j]).Ready? && !HasRun(db, j)
  {
    if Decide(db, j).Ready? { ReadyJobHasNoRun(db, j); }
    if !HasRun(db, j) { assert OpenRuns(db, j) == {}; }
  }

  /** A job with an unfinished run is turned away with that run: held for a person, or still active. */
  lemma OpenRunBlocks(db: Db, r: RunId)
    requires Inv(db) && r in db.runs && !Terminal(db.runs[r].status) && db.runs[r].job in db.jobs
    ensures Decide(db, db.runs[r].job)
            == if db.runs[r].status.ManualReview? then ManualReviewHold(r) else ActiveRun(r)
  {
    var j := db.runs[r].job;
    assert OneRunPerJob(db);
    hide Inv;
    assert OpenRuns(db, j) == {r};
    assert First({r}, NewestFirst(db)) == Some(r) by { assert IsFirst({r}, NewestFirst(db), r); }
  }

  /** The k-th step starts run r for job j, which can be started. */
  ghost predicate StartedBy(s: System, steps: seq<Step>, k: nat, r: RunId, j: JobId, at: int) {
    && k < |steps| && (steps[k] == StartRun(j, r) || (steps[k].DoRunOnce? && steps[k].r == r))
    && var db := Execute(s, steps[..k]).db;
       r !in db.runs && Startable(db, j) && at == db.now
  }

  /** Every run was started for a job that could be started at that moment. */
  lemma {:induction false} RunsStartEligible(s: System, steps: seq<Step>, r: RunId) returns (k: nat)
    requires Initial(s) && r in Execute(s, steps).db.runs
    ensures var run := Execute(s, steps).db.runs[r];
            StartedBy(s, steps, k, r, run.job, run.startedAt)
  {
    hide Next, Inv, Startable, StartedBy, Initial;
    assert steps != [] by { NothingAtFirst(s); }
    var before, n := steps[..|steps|-1], |steps| - 1;
    ReachableInv(s, before);
    if r in Execute(s, before).db.runs {
      k := RunsStartEligible(s, before, r);
      RowStays(Execute(s, before), steps[n], r);
      StartedBefore(s, steps, k, r, Execute(s, before).db.runs[r]);
    } else {
      k := n;
      NewRunIsEligible(Execute(s, before), steps[n], r);
      StartedLast(s, steps, r, Execute(s, steps).db.runs[r]);
    }
  }

  lemma NothingAtFirst(s: System)
    requires Initial(s)
    ensures Execute(s, []).db.runs == map[]
  {
  }

  lemma StartedBefore(s: System, steps: seq<Step>, k: nat, r: RunId, run: Run)
    requires steps != [] && StartedBy(s, steps[..|steps|-1], k, r, run.job, run.startedAt)
    ensures StartedBy(s, steps, k, r, run.job, run.startedAt)
  {
    hide Execute, Startable;
    assert steps[..|steps|-1][..k] == steps[..k];
  }

  lemma StartedLast(s: System, steps: seq<Step>, r: RunId, run: Run)
    requires steps != []
    requires var step := steps[|steps|-1];
             var db := Execute(s, steps[..|steps|-1]).db;
             && (step == StartRun(run.job, r) || (step.DoRunOnce? && step.r == r))
             && r !in db.runs && Startable(db, run.job) && run.startedAt == db.now
    ensures StartedBy(s, steps, |steps| - 1, r, run.job, run.startedAt)
  {
    hide Execute, Startable;
  }

  lemma RowStays(s: System, step: Step, r: RunId)
    requires Inv(s.db) && r in s.db.runs
    ensures var db := Next(s, step).db;
            r in db.runs && db.runs[r].job == s.db.runs[r].job && db.runs[r].startedAt == s.db.runs[r].startedAt
  {
    StepKeepsInv(s, step);
    hide Next, Inv;
  }

  lemma NewRunIsEligible(s: System, step: Step, r: RunId)
    requires Inv(s.db) && r !in s.db.runs && r in Next(s, step).db.runs
    ensures var run := Next(s, step).db.runs[r];
            && (step == StartRun(run.job, r) || (step.DoRunOnce? && step.r == r))
            && Startable(s.db, run.job) && run.startedAt == s.db.now
  {
    hide NextCalls, Inv;
    if step.StartRun? {
      BuiltRunIsEligible(s.db, step.j, step.r, r);
    } else if step.DoRunOnce? {
      var pick := PickNextJob(s.db);
      hide PickNextJob;
      if pick.Picked? { BuiltRunIsEligible(s.db, pick.job, step.r, r); }
    } else {
      OthersStartNothing(s, step);
    }
  }

  lemma BuiltRunIsEligible(db: Db, j: JobId, id: RunId, r: RunId)
    requires Inv(db) && r !in db.runs && r in BuildApplyContext(db, j, id).db.runs
    ensures r == id && Startable(db, j)
    ensures var run := BuildApplyContext(db, j, id).db.runs[r];
            run.job == j && run.startedAt == db.now && run.status.ApplyPrepared?
  {
    hide Inv, Decide;
    if j in db.jobs {
      ReadyMeans(db, j);
      ReadyIffEligible(db.jobs[j]);
    }
  }

  lemma OthersStartNothing(s: System, step: Step)
    requires !step.StartRun? && !step.DoRunOnce?
    ensures Next(s, step).db.runs.Keys == s.db.runs.Keys
  {
    hide Reconcile, ExpireLeases, PendingRuns, Judge, NextCalls;
    if step.DoReconcile? {
      ReconcileStartsNothing(s.db, step.leaseRows, step.fillRows, step.submitRows, step.fillTimeout,
                             step.submitTimeout);
    } else if step.Claim? {
      SweptKeepsRows(s.db, step.rows);
    }
  }

  lemma ReconcileStartsNothing(db: Db, ls: seq<LeaseId>, fs: seq<RunId>, ss: seq<RunId>, fillTimeout: int,
                               submitTimeout: Option<int>)
    ensures Reconcile(db, ls, fs, ss, fillTimeout, submitTimeout).runs.Keys == db.runs.Keys
  {
    hide ExpireLeases, TimeOutFills, TimeOutSubmits, HitRuns, StaleFill, StaleSubmit;
    ExpireLeasesComputes(db, ls);
    var expired := ExpireLeases(db, ls, true);
    TimeOutFillsComputes(expired, fs, db.now - fillTimeout);
    if submitTimeout.Some? {
      TimeOutSubmitsComputes(TimeOutFills(expired, fs, db.now - fillTimeout), ss, db.now - submitTimeout.value);
    }
  }

  // ----- which run or job comes first -----

  /** Whether run q was started before run r; equal times are told apart by id. */
  predicate Older(db: Db, q: RunId, r: RunId)
    requires q in db.runs && r in db.runs
  {
    db.runs[q].startedAt < db.runs[r].startedAt || (db.runs[q].startedAt == db.runs[r].startedAt && q < r)
  }

  /** A job comes before another: better source, then scraped later, then the higher id. */
  predicate Preferred(db: Db, j: JobId, k: JobId)
    requires j in db.jobs && k in db.jobs
  {
    var a, b := db.jobs[j], db.jobs[k];
    || a.sourceRank < b.sourceRank
    || (a.sourceRank == b.sourceRank && (a.scrapedAt > b.scrapedAt || (a.scrapedAt == b.scrapedAt && j > k)))
  }

  ghost predicate Executes(db: Db, r: RunId) {
    r in db.runs && db.runs[r].status in {ApplyPrepared, FillRequested, AwaitingSubmitApproval, SubmitApproved,
                                          InvestigationQueued}
  }

  ghost predicate Holds(db: Db, r: RunId) {
    r in db.runs && db.runs[r].status.ManualReview?
    && exists reason | reason in GLOBAL_HOLD_REASONS :: db.runs[r].reviewReason == Some(reason)
  }

  /** The scheduler's choice: the oldest executing run blocks; then a held one; then the most preferred
      job that can be started. */
  lemma PickFollowsRule(db: Db)
    requires Inv(db)
    ensures match PickNextJob(db)
            case ActiveRunInProgress(r) => Executes(db, r) && forall q | Executes(db, q) && q != r :: Older(db, r, q)
            case GlobalHold => (forall q :: !Executes(db, q)) && exists q :: Holds(db, q)
            case Picked(j) =>
              && (forall q :: !Executes(db, q) && !Holds(db, q))
              && Startable(db, j) && forall k | Startable(db, k) && k != j :: Preferred(db, j, k)
            case Idle => (forall q :: !Executes(db, q) && !Holds(db, q)) && forall k :: !Startable(db, k)
  {
    forall q ensures Executes(db, q) <==> q in ExecutingRuns(db) {}
    forall q ensures Holds(db, q) <==> q in HoldRuns(db) {}
    forall j ensures Startable(db, j) <==> j in ReadyJobs(db) {
      if j in db.jobs {
        ReadyMeans(db, j);
        ReadyIffEligible(db.jobs[j]);
      }
    }
    hide Inv, Executes, Holds, Startable, ExecutingRuns, HoldRuns, ReadyJobs;
    assert HoldRuns(db) != {} ==> exists q :: q in HoldRuns(db);
  }

  /** A run made for the job, its fill asked for unless it is only prepared; the job is claimed if fresh. */
  ghost predicate Begun(db: Db, db': Db, j: JobId, r: RunId, prepareOnly: bool) {
    && r in db'.runs && db'.runs == db.runs[r := db'.runs[r]]
    && db'.runs[r].job == j && db'.runs[r].startedAt == db.now
    && db'.runs[r].status == (if prepareOnly then ApplyPrepared else FillRequested)
    && j in db.jobs && j in db'.jobs
    && db'.jobs[j].status == (if db.jobs[j].status.Fresh? then Claimed else db.jobs[j].status)
  }

  /** `run_once` begins a run for the job picked, and does nothing when no job is picked or the id is taken. */
  lemma RunOnceStartsPicked(s: System, r: RunId, prepareOnly: bool)
    ensures var db, db' := s.db, Next(s, DoRunOnce(r, prepareOnly)).db;
            if PickNextJob(db).Picked? && r !in db.runs
            then Begun(db, db', PickNextJob(db).job, r, prepareOnly) else db' == db
  {
    hide Begun, NextCalls, BuildApplyContext, RequestFill;
    if PickNextJob(s.db).Picked? {
      PickedIsReady(s.db);
      BuiltThenAsked(s.db, PickNextJob(s.db).job, r, prepareOnly);
    }
    hide PickNextJob, Decide;
  }

  lemma PickedIsReady(db: Db)
    requires PickNextJob(db).Picked?
    ensures PickNextJob(db).job in db.jobs && Decide(db, PickNextJob(db).job).Ready?
  {
    var j := PickNextJob(db).job;
    assert j in ReadyJobs(db);
  }

  lemma BuiltThenAsked(db: Db, j: JobId, r: RunId, prepareOnly: bool)
    requires j in db.jobs && Decide(db, j).Ready?
    ensures var built := BuildApplyContext(db, j, r);
            var ended := if built.reply.Rejected? || prepareOnly then built else RequestFill(built.db, r);
            if r !in db.runs then Begun(db, ended.db, j, r, prepareOnly) else ended.db == db
  {
    hide Decide;
  }
}

/** The coordinator's guarantees over whole runs: any jobs at the start, any interleaving of steps. */
module CoordinatorRuns {
  import opened Query
  import opened Sequences
  import opened Wrappers

  import opened CoordinatorModel
  import opened CoordinatorSafety
  import opened CoordinatorSteps

  lemma {:induction false} ReachableInv(s: System, steps: seq<Step>)
    requires Initial(s)
    ensures Inv(Execute(s, steps).db)
  {
    if steps == [] {
      assert forall r: RunId :: Stored(s.db, r).None? && FillCount(s.db.events, r) == 0;
    } else {
      ReachableInv(s, steps[..|steps|-1]);
      StepKeepsInv(Execute(s, steps[..|steps|-1]), steps[|steps|-1]);
    }
  }

  lemma {:induction false} LaterEvolves(s: System, steps: seq<Step>, more: seq<Step>)
    requires Initial(s)
    ensures Evolves(Execute(s, steps).db, Execute(s, steps + more).db)
  {
    if more == [] {
      assert steps + more == steps;
    } else {
      var most := more[..|more|-1];
      assert (steps + more)[..|steps + more|-1] == steps + most;
      LaterEvolves(s, steps, most);
      ReachableInv(s, steps + most);
      StepKeepsInv(Execute(s, steps + most), more[|more|-1]);
      EvolvesChain(Execute(s, steps).db, Execute(s, steps + most).db, Execute(s, steps + more).db);
    }
  }

  /** Folding a run's events in log order gives back its row; runs without events do not exist. */
  lemma EventsDetermineRun(s: System, steps: seq<Step>, r: RunId)
    requires Initial(s)
    ensures var db := Execute(s, steps).db;
            Replay(db.events, r) == if r in db.runs then Some(SummaryOf(db.runs[r])) else None
  {
    ReachableInv(s, steps);
    assert Replay(Execute(s, steps).db.events, r) == Stored(Execute(s, steps).db, r);
  }

  /** A submitted run's last three moves are a clearance, an approval and the submission, and the
      approval is on record for this very run and job. */
  lemma SubmittedRunWasApproved(s: System, steps: seq<Step>, r: RunId)
    requires Initial(s)
    requires r in Execute(s, steps).db.runs && Execute(s, steps).db.runs[r].status.Submitted?
    ensures var db := Execute(s, steps).db;
            var run := db.runs[r];
            && run.approvalId.Some? && run.approvalId.value in db.approvals
            && db.approvals[run.approvalId.value] == Approval(run.job, r, Approve)
            && SubmittedTrail(db.events, r, run.approvalId.value)
  {
    ReachableInv(s, steps);
    var db := Execute(s, steps).db;
    assert Trail(db.events, r, db.runs[r]) && Approvable(db.approvals, r, db.runs[r]);
  }

  /** The submit flag says exactly that the recorded approval is an `approve` of this run. */
  lemma SubmitFlagMeansApproved(s: System, steps: seq<Step>, r: RunId)
    requires Initial(s) && r in Execute(s, steps).db.runs
    ensures var db := Execute(s, steps).db;
            var run := db.runs[r];
            run.submitAllowed <==>
              run.approvalId.Some? && run.approvalId.value in db.approvals
              && db.approvals[run.approvalId.value] == Approval(run.job, r, Approve)
  {
    ReachableInv(s, steps);
    assert Approvable(Execute(s, steps).db.approvals, r, Execute(s, steps).db.runs[r]);
  }

  /** No job ever gets a second run: starting one is refused as not ready, or as missing once the job
      row is deleted, forever. */
  lemma OneRunPerJobForever(s: System, steps: seq<Step>, more: seq<Step>, r: RunId, id: RunId)
    requires Initial(s) && r in Execute(s, steps).db.runs
    ensures var db := Execute(s, steps + more).db;
            && r in db.runs && db.runs[r].job == Execute(s, steps).db.runs[r].job
            && (forall q | q in db.runs && db.runs[q].job == db.runs[r].job :: q == r)
            && var refused := BuildApplyContext(db, db.runs[r].job, id);
               refused.db == db && refused.reply.Rejected?
               && if db.runs[r].job in db.jobs then refused.reply.error.NotReady? else refused.reply.error.NotFound?
  {
    LaterEvolves(s, steps, more);
    ReachableInv(s, steps + more);
    var db := Execute(s, steps + more).db;
    assert r in db.runs && Blocking(db, db.runs[r]);
    var j := db.runs[r].job;
    if Decide(db, j).Ready? { ReadyJobHasNoRun(db, j); }
  }

  /** At most one active lease and at most one recorded fill per run, whatever interleaves. */
  lemma LeasesAndFillsAreSingle(s: System, steps: seq<Step>)
    requires Initial(s)
    ensures var db := Execute(s, steps).db;
            && (forall l, m | l in db.leases && m in db.leases && db.leases[l].status.Active?
                              && db.leases[m].status.Active? && db.leases[l].run == db.leases[m].run
                  :: l == m)
            && forall r: RunId :: FillCount(db.events, r) <= 1
  {
    ReachableInv(s, steps);
    var db := Execute(s, steps).db;
    forall r: RunId ensures FillCount(db.events, r) <= 1 {
      assert FillCount(db.events, r) <=
             if r in db.runs && !BeforeFill(db.runs[r].status) then 1 else 0;
    }
  }

  /** A closed lease stays closed, and submitted and denied runs are never written again. */
  lemma ClosedAndSealedStay(s: System, steps: seq<Step>, more: seq<Step>)
    requires Initial(s)
    ensures var before := Execute(s, steps).db;
            var later := Execute(s, steps + more).db;
            && before.events <= later.events
            && (forall l | l in before.leases && !before.leases[l].status.Active? ::
                  l in later.leases && !later.leases[l].status.Active?)
            && (forall r | r in before.runs && Sealed(before.runs[r].status) ::
                  r in later.runs && later.runs[r] == before.runs[r])
  {
    LaterEvolves(s, steps, more);
  }

  // ----- how many runs execute -----

  /** How often a run was started by itself while another one was executing. */
  ghost function Overlaps(s: System, steps: seq<Step>): nat {
    if steps == [] then 0
    else
      var before := Execute(s, steps[..|steps|-1]).db;
      var step := steps[|steps|-1];
      Overlaps(s, steps[..|steps|-1])
      + if step.StartRun? && ExecutingRuns(before) != {} && BuildApplyContext(before, step.j, step.r).reply.Done?
        then 1 else 0
  }

  /** Each executing run beyond the first was put back by a resolved review or an investigation, or was
      started while another one was executing. */
  lemma {:induction false} ExecutingRunsAreBounded(s: System, steps: seq<Step>)
    requires Initial(s)
    ensures var db := Execute(s, steps).db;
            |ExecutingRuns(db)| <= 1 + Credits(db.events) + Overlaps(s, steps)
  {
    if steps == [] {
      assert ExecutingRuns(s.db) == {};
    } else {
      var before := steps[..|steps|-1];
      var step := steps[|steps|-1];
      ExecutingRunsAreBounded(s, before);
      ReachableInv(s, before);
      StepIsBounded(s, before, step);
      assert steps == before + [step];
    }
  }

  lemma StepIsBounded(s: System, before: seq<Step>, step: Step)
    requires Inv(Execute(s, before).db)
    requires var db := Execute(s, before).db;
             |ExecutingRuns(db)| <= 1 + Credits(db.events) + Overlaps(s, before)
    ensures var db := Execute(s, before + [step]).db;
            |ExecutingRuns(db)| <= 1 + Credits(db.events) + Overlaps(s, before + [step])
  {
    hide ExecutingRuns, Credits, BuildApplyContext, RunOnce, NextCalls;
    assert (before + [step])[..|before|] == before;
    var s' := Execute(s, before);
    if step.DoRunOnce? {
      RunOnceStartsAlone(s'.db, step.r, step.prepareOnly);
    } else if step.StartRun? {
      StartAddsOne(s'.db, step.j, step.r);
      RefusedChangesNothing(s'.db, step.j, step.r);
      NoneIsNone(s'.db);
    } else {
      StepAdvances(s', step);
    }
  }

  lemma RefusedChangesNothing(db: Db, j: JobId, r: RunId)
    ensures !BuildApplyContext(db, j, r).reply.Done? ==> BuildApplyContext(db, j, r).db == db
  {
    hide Decide;
  }

  lemma NoneIsNone(db: Db)
    ensures ExecutingRuns(db) == {} <==> |ExecutingRuns(db)| == 0
  {
  }

  /** With starts that never overlap, whether as one `run_once` or split into its transactions. */
  lemma ExecutingRunsWithoutOverlap(s: System, steps: seq<Step>)
    requires Initial(s) && Overlaps(s, steps) == 0
    ensures var db := Execute(s, steps).db;
            |ExecutingRuns(db)| <= 1 + Credits(db.events)
  {
    ExecutingRunsAreBounded(s, steps);
  }

  /** A ready job without an open run gets an executing run and its `run_started` event. */
  lemma StartAddsExecutingRun(db: Db, j: JobId, r: RunId)
    requires j in db.jobs && OpenRuns(db, j) == {} && DecideJob(db.jobs[j]).Ready? && r !in db.runs
    ensures var db' := BuildApplyContext(db, j, r).db;
            && BuildApplyContext(db, j, r).reply.Done?
            && ExecutingRuns(db') == ExecutingRuns(db) + {r}
            && db'.events == db.events + [Event(r, RunStarted)]
            && db'.runs.Keys == db.runs.Keys + {r} && db'.runs[r].job == j
            && (forall q | q in db.runs :: db'.runs[q] == db.runs[q])
            && (forall k | k in db.jobs && k != j :: k in db'.jobs && db'.jobs[k] == db.jobs[k])
  {
    assert Decide(db, j).Ready?;
  }

  /** Starting each of some jobs by itself. */
  function Starts(jobs: seq<JobId>, ids: seq<RunId>): seq<Step>
    requires |jobs| == |ids|
  {
    seq(|jobs|, i requires 0 <= i < |jobs| => StartRun(jobs[i], ids[i]))
  }

  /** The jobs' runs, and only they, exist and execute; the other jobs are as they were. */
  ghost predicate Started(s: System, db: Db, jobs: seq<JobId>, ids: seq<RunId>) {
    && ExecutingRuns(db) == Elements(ids) && Credits(db.events) == 0
    && (forall r | r in db.runs :: db.runs[r].job in jobs && r in ids)
    && forall j | j in s.db.jobs && j !in jobs :: j in db.jobs && db.jobs[j] == s.db.jobs[j]
  }

  /** The term is attained: any number of ready jobs, all picked before any is started, all execute. */
  lemma {:induction false} OverlapsAreAttained(s: System, jobs: seq<JobId>, ids: seq<RunId>)
    requires Initial(s) && |jobs| == |ids| && Distinct(jobs) && Distinct(ids)
    requires forall j | j in jobs :: j in s.db.jobs && DecideJob(s.db.jobs[j]).Ready?
    ensures var steps := Starts(jobs, ids);
            var db := Execute(s, steps).db;
            && Started(s, db, jobs, ids)
            && (jobs != [] ==> |ExecutingRuns(db)| == 1 + Credits(db.events) + Overlaps(s, steps))
  {
    if jobs == [] {
      assert Starts(jobs, ids) == [];
      assert ExecutingRuns(s.db) == Elements(ids);
    } else {
      var n := |jobs| - 1;
      OverlapsAreAttained(s, jobs[..n], ids[..n]);
      var before := Starts(jobs[..n], ids[..n]);
      var db := Execute(s, before).db;
      StartsMore(s, jobs, ids);
      LastOfDistinct(jobs);
      OneMoreStart(s, db, jobs, ids);
      NoneIsNone(db);
      hide Execute, Overlaps, ExecutingRuns, Credits, Started, BuildApplyContext, DecideJob, Starts, Distinct;
    }
  }

  /** The last of the starts, and what it adds. */
  lemma StartsMore(s: System, jobs: seq<JobId>, ids: seq<RunId>)
    requires |jobs| == |ids| > 0
    ensures var n := |jobs| - 1;
            var before := Starts(jobs[..n], ids[..n]);
            var db := Execute(s, before).db;
            var built := BuildApplyContext(db, jobs[n], ids[n]);
            && Execute(s, Starts(jobs, ids)).db == built.db
            && Overlaps(s, Starts(jobs, ids))
               == Overlaps(s, before) + (if ExecutingRuns(db) != {} && built.reply.Done? then 1 else 0)
            && (n == 0 ==> Overlaps(s, before) == 0)
  {
    hide BuildApplyContext, ExecutingRuns, NextCalls;
    var n := |jobs| - 1;
    var before := Starts(jobs[..n], ids[..n]);
    assert Starts(jobs, ids) == before + [StartRun(jobs[n], ids[n])];
    assert Starts(jobs, ids)[..|before|] == before;
  }

  lemma OneMoreStart(s: System, db: Db, jobs: seq<JobId>, ids: seq<RunId>)
    requires |jobs| == |ids| > 0 && Distinct(jobs) && Distinct(ids)
    requires jobs[|jobs|-1] in s.db.jobs && DecideJob(s.db.jobs[jobs[|jobs|-1]]).Ready?
    requires Started(s, db, jobs[..|jobs|-1], ids[..|jobs|-1])
    ensures var built := BuildApplyContext(db, jobs[|jobs|-1], ids[|jobs|-1]);
            && built.reply.Done? && Started(s, built.db, jobs, ids)
            && |ExecutingRuns(db)| == |jobs| - 1 && |ExecutingRuns(built.db)| == |jobs|
            && Credits(db.events) == 0 && Credits(built.db.events) == 0
  {
    hide BuildApplyContext, DecideJob, Credits, Distinct, Elements, ExecutingRuns, Started;
    var n := |jobs| - 1;
    LastOfDistinct(jobs);
    LastOfDistinct(ids);
    OthersStarted(s, db, jobs[..n], ids[..n], jobs[n], ids[n]);
    StartAddsExecutingRun(db, jobs[n], ids[n]);
    CreditsOfStart(db.events, ids[n]);
    DistinctSize(ids);
    DistinctSize(ids[..n]);
    AlsoStarted(s, db, BuildApplyContext(db, jobs[n], ids[n]).db, jobs, ids);
  }

  /** A job not yet started has no run and is as it was. */
  lemma OthersStarted(s: System, db: Db, jobs: seq<JobId>, ids: seq<RunId>, j: JobId, r: RunId)
    requires Started(s, db, jobs, ids) && j !in jobs && r !in ids && j in s.db.jobs
    ensures OpenRuns(db, j) == {} && r !in db.runs && j in db.jobs && db.jobs[j] == s.db.jobs[j]
    ensures ExecutingRuns(db) == Elements(ids) && Credits(db.events) == 0
  {
    hide ExecutingRuns, Elements, Credits;
  }

  lemma AlsoStarted(s: System, db: Db, db': Db, jobs: seq<JobId>, ids: seq<RunId>)
    requires |jobs| == |ids| > 0 && Started(s, db, jobs[..|jobs|-1], ids[..|jobs|-1])
    requires ExecutingRuns(db') == Elements(ids) && Credits(db'.events) == 0
    requires var j, r := jobs[|jobs|-1], ids[|jobs|-1];
             && db'.runs.Keys == db.runs.Keys + {r} && db'.runs[r].job == j
             && (forall q | q in db.runs :: db'.runs[q] == db.runs[q])
             && forall k | k in db.jobs && k != j :: k in db'.jobs && db'.jobs[k] == db.jobs[k]
    requires forall k :: k in jobs <==> k in jobs[..|jobs|-1] || k == jobs[|jobs|-1]
    requires forall k :: k in ids <==> k in ids[..|ids|-1] || k == ids[|ids|-1]
    ensures Started(s, db', jobs, ids)
  {
    hide ExecutingRuns, Elements, Credits;
  }

  lemma CreditsOfStart(es: seq<Event>, r: RunId)
    ensures Credits(es + [Event(r, RunStarted)]) == Credits(es)
  {
    assert (es + [Event(r, RunStarted)])[..|es|] == es;
  }
}

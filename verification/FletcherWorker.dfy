/** The worker that claims a job, reports progress and finishes it exactly once. */
module FletcherWorker {
  import opened Wrappers
  import opened ResumeQueue
  import opened ResumeQueueRuns
  import opened ResumeQueueRows
  import opened Progress
  import FletcherQueue

  // ----- alongside any other calls -----

  /** The progress updates of one job among all operations. */
  function Reports(ops: seq<Op>, id: nat): seq<Report> {
    if ops == [] then []
    else if ops[0].Update? && ops[0].id == id then [ops[0].report] + Reports(ops[1..], id)
    else Reports(ops[1..], id)
  }

  function Folded(percent: Option<int>, reports: seq<Report>): Option<int> {
    if reports == [] then percent
    else MergedPercent(Folded(percent, reports[..|reports|-1]), reports[|reports|-1])
  }

  lemma {:induction false} FoldedFront(percent: Option<int>, reports: seq<Report>)
    requires reports != []
    ensures Folded(percent, reports) == Folded(MergedPercent(percent, reports[0]), reports[1..])
  {
    var n := |reports| - 1;
    if n > 0 {
      FoldedFront(percent, reports[..n]);
      assert reports[..n][1..] == reports[1..][..n - 1];
    } else {
      assert reports[..0] == [];
    }
  }

  /** What the tracker sends for its first steps. */
  function TrackerReports(ms: Milestones, steps: seq<string>): seq<Report>
    requires |ms| > 0
  {
    if steps == [] then []
    else TrackerReports(ms, steps[..|steps|-1]) + [Report.Percent(Some(Progress.Percent(ms, steps)))]
  }

  /** Storing the maximum of old and new never alters what the tracker sends. */
  lemma {:induction false} TrackerIsStoredAsSent(optionA: bool, steps: seq<string>)
    requires steps != []
    ensures var ms := MilestonesFor(optionA);
            Folded(None, TrackerReports(ms, steps)) == Some(Progress.Percent(ms, steps))
  {
    hide MilestonesFor, Progress.Percent;
    var ms := MilestonesFor(optionA);
    var n := |steps| - 1;
    var sent := TrackerReports(ms, steps);
    assert sent[..|sent|-1] == TrackerReports(ms, steps[..n]);
    if n > 0 {
      TrackerIsStoredAsSent(optionA, steps[..n]);
      PercentNeverGoesBack(optionA, steps[..n], [steps[n]]);
      assert steps[..n] + [steps[n]] == steps;
    }
  }

  /** Calls that leave the job to its worker: progress and cancellation, but no finish and no restart. */
  predicate DuringRun(op: Op, id: nat) {
    SameClaim(op, id) && Regular(op) && (op.Finish? ==> op.id != id)
  }

  lemma {:induction false} RowDuringRun(rows: Rows, ops: seq<Op>, id: nat)
    requires Legal(rows, ops) && forall op | op in ops :: DuringRun(op, id)
    requires id in rows && (rows[id].status.Running? || rows[id].status.Cancelled?)
    ensures id in Run(rows, ops)
    ensures Run(rows, ops)[id].percent == Folded(rows[id].percent, Reports(ops, id))
    ensures Run(rows, ops)[id].status.Running? || Run(rows, ops)[id].status.Cancelled?
    ensures rows[id].status.Cancelled? ==> Run(rows, ops)[id].status.Cancelled?
    decreases |ops|
  {
    if ops != [] {
      assert ops[0] in ops;
      OneCallDuringRun(rows, ops[0], id);
      RowDuringRun(After(rows, ops[0]), ops[1..], id);
      if ops[0].Update? && ops[0].id == id { FoldedFront(rows[id].percent, Reports(ops, id)); }
    }
  }

  lemma OneCallDuringRun(rows: Rows, op: Op, id: nat)
    requires Allowed(rows, op) && DuringRun(op, id)
    requires id in rows && (rows[id].status.Running? || rows[id].status.Cancelled?)
    ensures var rows' := After(rows, op);
            && id in rows' && (rows'[id].status == rows[id].status || rows'[id].status.Cancelled?)
            && rows'[id].percent
               == if op.Update? && op.id == id then MergedPercent(rows[id].percent, op.report) else rows[id].percent
  {
  }

  /** What is stored after some steps: nothing before the first. */
  function Shown(ms: Milestones, steps: seq<string>): Option<int>
    requires |ms| > 0
  {
    if steps == [] then None else Some(Progress.Percent(ms, steps))
  }

  lemma StoredIsShown(optionA: bool, steps: seq<string>)
    ensures var ms := MilestonesFor(optionA);
            Folded(None, TrackerReports(ms, steps)) == Shown(ms, steps)
    ensures Shown(MilestonesFor(optionA), steps) == Some(100) <==> "done" in steps
  {
    hide MilestonesFor, Progress.Percent;
    if steps != [] { TrackerIsStoredAsSent(optionA, steps); }
    HundredIffDone(optionA, steps);
  }

  /** However other calls interleave, a finished run ends the job with the worker's verdict or leaves it
      cancelled, and stores the tracker's last percentage: 100 exactly if "done" was recorded. */
  lemma WorkerRunEnds(rows: Rows, ops: seq<Op>, id: nat, optionA: bool, steps: seq<string>,
                      verdict: string, now: nat, error: Option<string>, log: Option<string>)
    requires Legal(rows, ops) && forall op | op in ops :: DuringRun(op, id)
    requires id in rows && rows[id].status.Running? && rows[id].percent.None?
    requires Reports(ops, id) == TrackerReports(MilestonesFor(optionA), steps)
    ensures id in After(Run(rows, ops), Finish(id, Ended(verdict), now, error, log))
    ensures var row := After(Run(rows, ops), Finish(id, Ended(verdict), now, error, log))[id];
            && (row.status == Ended(verdict) || row.status.Cancelled?)
            && (row.status.Cancelled? <==> Run(rows, ops)[id].status.Cancelled?)
            && row.percent == Shown(MilestonesFor(optionA), steps)
            && (row.percent == Some(100) <==> "done" in steps)
  {
    hide MilestonesFor, Shown, Run;
    RowDuringRun(rows, ops, id);
    StoredIsShown(optionA, steps);
  }

  /** The row effects of the worker's own calls. */
  lemma OwnCalls(rows: Rows, id: nat)
    requires id in rows
    ensures forall report :: After(rows, Update(id, report))
              == rows[id := rows[id].(percent := MergedPercent(rows[id].percent, report),
                                      revision := rows[id].revision + 1)]
    ensures forall path :: After(rows, SetLog(id, path))
              == rows[id := rows[id].(log := Some(path), revision := rows[id].revision + 1)]
    ensures forall verdict, now, error, log :: !rows[id].status.Cancelled? ==>
              After(rows, Finish(id, Ended(verdict), now, error, log))
              == rows[id := rows[id].(status := Ended(verdict), ended := Some(now), error := error, log := log,
                                      revision := rows[id].revision + 1)]
  {
  }

  lemma ClaimCall(rows: Rows, id: nat, now: nat)
    requires IsHead(rows, id)
    ensures After(rows, Claim(Some(id), now))
            == rows[id := rows[id].(status := Running, started := Some(now), percent := None,
                                    revision := rows[id].revision + 1)]
  {
  }

  // ----- the worker on its own -----

  /** What working on a job comes to: an exception before the pipeline is called, once some of the first
      steps are recorded, or the steps the pipeline reported and how it ended. */
  datatype Work = SetupRaised(recorded: nat, message: string) | Ran(steps: seq<string>, ending: Ending)

  /** `unrecorded` is the exception of storing the attempt, after the pipeline's own result is in. */
  datatype Ending =
    | Result(failed: bool, pdfReady: bool, error: string, unrecorded: Option<string>)
    | Raised(message: string)

  /** The pipeline delivered a PDF, and "done" is recorded. */
  predicate Delivers(w: Work) {
    w.Ran? && w.ending.Result? && !w.ending.failed && w.ending.pdfReady
  }

  predicate Succeeds(w: Work) {
    Delivers(w) && w.ending.unrecorded.None?
  }

  function ErrorOf(w: Work): Option<string> {
    match w
    case SetupRaised(_, message) => Some(message)
    case Ran(_, Raised(message)) => Some(message)
    case Ran(_, Result(_, _, error, unrecorded)) =>
      if unrecorded.Some? || Delivers(w) then unrecorded
      else Some(if error != "" then error else "PDF generation failed")
  }

  function FirstSteps(optionA: bool): seq<string> {
    if optionA then ["starting", "loading_job", "selecting_master_resume", "generating_resume"] else ["starting"]
  }

  function StepsBefore(optionA: bool, w: Work): seq<string> {
    if w.SetupRaised? && w.recorded < |FirstSteps(optionA)| then FirstSteps(optionA)[..w.recorded]
    else FirstSteps(optionA)
  }

  function AllSteps(optionA: bool, w: Work): seq<string> {
    StepsBefore(optionA, w) + (if w.Ran? then w.steps else []) + if Delivers(w) then ["done"] else []
  }

  function Verdict(w: Work): string { if Succeeds(w) then "succeeded" else "failed" }

  /** The other rows are as they were. */
  ghost predicate OthersKept(before: Rows, rows: Rows, id: nat) {
    rows.Keys == before.Keys && forall i: nat | i in rows && i != id :: rows[i] == before[i]
  }

  /** The stored percentage of a running job is the tracker's. */
  ghost predicate InStep(rows: Rows, id: nat, ms: Milestones, steps: seq<string>)
    requires |ms| > 0
  {
    id in rows && rows[id].status.Running? && rows[id].percent == Folded(None, TrackerReports(ms, steps))
  }

  /** Sends each step through the tracker and stores its percentage. */
  method ReportSteps(table: FletcherQueue.JobTable, id: nat, tracker: ProgressTracker, steps: seq<string>)
    requires tracker.Valid() && InStep(table.rows, id, tracker.milestones, tracker.steps)
    modifies table, tracker`current, tracker`steps
    ensures tracker.Valid() && tracker.steps == old(tracker.steps) + steps
    ensures OthersKept(old(table.rows), table.rows, id)
    ensures InStep(table.rows, id, tracker.milestones, tracker.steps)
  {
    hide After, Progress.Percent, TrackerReports, Folded, MergedPercent;
    for n := 0 to |steps|
      invariant tracker.Valid() && tracker.steps == old(tracker.steps) + steps[..n]
      invariant OthersKept(old(table.rows), table.rows, id)
      invariant InStep(table.rows, id, tracker.milestones, tracker.steps)
    {
      ghost var was := tracker.steps;
      var percent := tracker.Record(steps[n]);
      FoldedStep(tracker.milestones, was, steps[n]);
      OwnCalls(table.rows, id);
      var reply := table.UpdateProgress(id, Report.Percent(Some(percent)));
    }
  }

  lemma FoldedStep(ms: Milestones, steps: seq<string>, step: string)
    requires |ms| > 0
    ensures Folded(None, TrackerReports(ms, steps + [step]))
            == MergedPercent(Folded(None, TrackerReports(ms, steps)),
                             Report.Percent(Some(Progress.Percent(ms, steps + [step]))))
  {
    assert (steps + [step])[..|steps|] == steps;
    var sent := TrackerReports(ms, steps + [step]);
    assert sent[..|sent|-1] == TrackerReports(ms, steps);
  }

  /** Runs a claimed job to its end. */
  method RunClaimed(table: FletcherQueue.JobTable, id: nat, end: nat, optionA: bool, work: Work)
    requires id in table.rows && table.rows[id].status.Running? && table.rows[id].percent.None?
    modifies table
    ensures OthersKept(old(table.rows), table.rows, id)
    ensures id in table.rows && EndedAs(table.rows[id], optionA, work)
  {
    hide *;
    StartsInStep(table.rows, id, MilestonesFor(optionA));
    var logged := table.SetLogPath(id, "queue.log");
    var tracker := new ProgressTracker(optionA);
    ghost var rows1 := table.rows;
    ReportSteps(table, id, tracker, StepsBefore(optionA, work));
    ghost var rows2 := table.rows;
    if work.Ran? { ReportSteps(table, id, tracker, work.steps); }
    ghost var rows3 := table.rows;
    KeptTwice(rows1, rows2, rows3, id);
    if Delivers(work) { ReportSteps(table, id, tracker, ["done"]); }
    KeptTwice(rows1, rows3, table.rows, id);
    KeptTwice(old(table.rows), rows1, table.rows, id);
    ghost var steps := AllSteps(optionA, work);
    assert tracker.steps == steps by { StepsReported(optionA, work, tracker.steps); }
    EndsInStep(old(table.rows), table.rows, id, optionA, work, end);
    var reply := table.Finish(id, Ended(Verdict(work)), end, ErrorOf(work), Some("queue.log"));
  }

  lemma KeptTwice(a: Rows, b: Rows, c: Rows, id: nat)
    ensures OthersKept(b, b, id)
    ensures OthersKept(a, b, id) && OthersKept(b, c, id) ==> OthersKept(a, c, id)
  {
  }

  lemma StartsInStep(rows: Rows, id: nat, ms: Milestones)
    requires |ms| > 0 && id in rows && rows[id].status.Running? && rows[id].percent.None?
    ensures forall path :: InStep(After(rows, SetLog(id, path)), id, ms, [])
                           && OthersKept(rows, After(rows, SetLog(id, path)), id)
  {
    OwnCalls(rows, id);
    hide After;
  }

  /** The verdict, its error, and the percentage of the steps recorded: 100 exactly once "done" is among them. */
  ghost predicate EndedAs(row: Row, optionA: bool, work: Work) {
    && row.status == Ended(Verdict(work)) && row.error == ErrorOf(work)
    && row.percent == Shown(MilestonesFor(optionA), AllSteps(optionA, work))
    && (row.percent == Some(100) <==> "done" in AllSteps(optionA, work))
    && (Delivers(work) ==> row.percent == Some(100))
  }

  lemma EndsInStep(before: Rows, rows: Rows, id: nat, optionA: bool, work: Work, end: nat)
    requires OthersKept(before, rows, id) && InStep(rows, id, MilestonesFor(optionA), AllSteps(optionA, work))
    ensures forall log :: var rows' := After(rows, Finish(id, Ended(Verdict(work)), end, ErrorOf(work), log));
              OthersKept(before, rows', id) && id in rows' && EndedAs(rows'[id], optionA, work)
  {
    OwnCalls(rows, id);
    hide After, Folded, TrackerReports, MilestonesFor, Shown, ErrorOf;
    StoredIsShown(optionA, AllSteps(optionA, work));
  }

  lemma StepsReported(optionA: bool, work: Work, steps: seq<string>)
    requires steps == [] + StepsBefore(optionA, work) + (if work.Ran? then work.steps else [])
                      + (if Delivers(work) then ["done"] else [])
    ensures steps == AllSteps(optionA, work)
  {
  }

  /** What a client sees of an ended job: whether it succeeded, the error, and how far it got. */
  lemma EndMeans(row: Row, optionA: bool, work: Work)
    requires EndedAs(row, optionA, work)
    ensures row.status.Ended? && row.status.name == if row.error.None? then "succeeded" else "failed"
    ensures match work
            case SetupRaised(_, message) => row.error == Some(message)
            case Ran(_, Raised(message)) => row.error == Some(message)
            case Ran(_, Result(failed, pdfReady, error, unrecorded)) =>
              && (!failed && pdfReady ==> row.error == unrecorded && row.percent == Some(100))
              && (failed || !pdfReady ==>
                    row.error == if unrecorded.Some? then unrecorded
                                 else if error != "" then Some(error) else Some("PDF generation failed"))
    ensures var begun := if optionA then ["starting", "loading_job", "selecting_master_resume", "generating_resume"]
                         else ["starting"];
            var ms := MilestonesFor(optionA);
            match work
            case SetupRaised(n, _) =>
              if n == 0 then row.percent.None?
              else row.percent == Some(Progress.Percent(ms, if n < |begun| then begun[..n] else begun))
            case Ran(steps, ending) =>
              ending.Raised? || ending.failed || !ending.pdfReady ==>
                row.percent == Some(Progress.Percent(ms, begun + steps))
  {
    hide MilestonesFor, Progress.Percent;
    var begun := FirstSteps(optionA);
    assert begun + [] == begun && forall n: nat | n <= |begun| :: begun[..n] + [] == begun[..n];
    match work
    case SetupRaised(n, _) => assert AllSteps(optionA, work) == if n < |begun| then begun[..n] else begun;
    case Ran(steps, _) => assert !Delivers(work) ==> AllSteps(optionA, work) == begun + steps;
  }

  /** Option A is chosen by this key alone. */
  predicate HasJobId(input: Payload) {
    "job_id" in input && input["job_id"].Some?
  }

  /** One turn of the worker loop: nothing when the queue is empty; otherwise the claimed head is ended
      with one verdict and the percentage of its steps, and no other job is touched. */
  method ProcessNextJob(table: FletcherQueue.JobTable, now: nat, end: nat, run: (nat, Payload) -> Work)
    returns (claimed: Option<nat>)
    modifies table
    ensures claimed.None? ==> table.rows == old(table.rows) && QueuedIds(old(table.rows)) == {}
    ensures claimed.Some? ==>
              var id := claimed.value;
              IsHead(old(table.rows), id) && OthersKept(old(table.rows), table.rows, id)
              && id in table.rows
              && var input := old(table.rows)[id].input;
                 EndedAs(table.rows[id], "job_id" in input && input["job_id"].Some?, run(id, input))
    ensures claimed.Some? && claimed.value in table.rows ==>
              forall calls | Legal(map[], calls) && Run(map[], calls) == old(table.rows) ::
                RanAsEnqueued(calls, claimed.value, table.rows[claimed.value], run)
  {
    claimed := table.ClaimNext(now);
    if claimed.None? { return; }
    var id := claimed.value;
    hide After, EndedAs;
    ClaimCall(old(table.rows), id, now);
    var input := table.rows[id].input;
    RunClaimed(table, id, end, HasJobId(input), run(id, input));
    forall calls | Legal(map[], calls) && Run(map[], calls) == old(table.rows)
      ensures RanAsEnqueued(calls, id, table.rows[id], run)
    {
      var k := RowWasEnqueued(calls, id);
    }
  }

  /** Whatever calls made the table: the work done on the job was the work on the payload it was enqueued
      with, and its edits. */
  ghost predicate RanAsEnqueued(calls: seq<Op>, id: nat, row: Row, run: (nat, Payload) -> Work)
    requires Legal(map[], calls) && id in Run(map[], calls)
  {
    exists k: nat | PutBy(calls, id, k, Run(map[], calls)[id]) ::
      var payload := Edited(Run(map[], calls[..k + 1]), calls[k + 1..], id, calls[k].input);
      EndedAs(row, "job_id" in payload && payload["job_id"].Some?, run(id, payload))
  }
}

/**
  The coordinator's tables (jobs, runs, worker leases, submit approvals, events) as one value,
  and one function per committed database transaction of `OrchestrationService`.
  Time is an integer; row ids are naturals supplied by the caller, and inserting an id that is
  already taken is the primary-key error: nothing is committed.
 */
module CoordinatorModel {
  import opened Wrappers
  import opened Query

  type RunId = nat
  type JobId = nat
  type LeaseId = nat
  type ApprovalId = nat

  datatype RunStatus =
    | ApplyPrepared | FillRequested | AwaitingSubmitApproval | SubmitApproved | ManualReview
    | InvestigationQueued | InvestigationComplete | Failed | SubmitDenied | Submitted

  predicate Terminal(s: RunStatus) { s.Failed? || s.SubmitDenied? || s.Submitted? }

  predicate Executing(s: RunStatus) {
    s.ApplyPrepared? || s.FillRequested? || s.AwaitingSubmitApproval? || s.SubmitApproved?
    || s.InvestigationQueued?
  }

  /** Job statuses as far as the coordinator tells them apart. `Fresh` is null, blank or exactly
      "new" (what the claiming UPDATE matches); `Other` is any status no check names. */
  datatype JobStatus = Fresh | Claimed | Applied | JobFailed | Skipped | Other(text: string)

  /** Statuses that keep a job out of the ready list for good. */
  predicate Closed(s: JobStatus) { s.Applied? || s.JobFailed? || s.Skipped? }

  datatype Job = Job(status: JobStatus, sourceRank: int, scrapedAt: int, priority: int,
                     enrichment: string, applyType: string, autoApply: bool, applyUrl: string,
                     resumeReady: bool, resumeVersion: string, resumePdf: string,
                     concernFlags: seq<string>)

  datatype Run = Run(job: JobId, status: RunStatus, reviewRequired: bool,
                     reviewReason: Option<string>, reviewFlags: seq<string>, submitAllowed: bool,
                     approvalId: Option<ApprovalId>, failureCode: Option<string>,
                     startedAt: int, updatedAt: int, completedAt: Option<int>)

  datatype LeaseStatus = Active | TimedOut | Completed
  datatype Lease = Lease(run: RunId, runtime: string, status: LeaseStatus, claimedAt: int,
                         heartbeatAt: int, expiresAt: int, completedAt: Option<int>)

  datatype SubmitDecision = Approve | Deny
  datatype Approval = Approval(job: JobId, run: RunId, decision: SubmitDecision)

  /** A fill result as C3 posts it. The status is normalised; `reviewFlags` is what
      `_derive_review_flags` reads out of the free text and the structured lists. */
  datatype FillResult = FillResult(status: string, explicitCode: string, captchaType: string,
                                   reviewFlags: seq<string>)

  datatype Verdict = Verdict(status: RunStatus, failureCode: Option<string>,
                             reviewRequired: bool, reviewReason: Option<string>,
                             jobStatus: JobStatus)

  datatype ReviewDecision = Continue | Fail

  datatype EventKind =
    | RunStarted
    | FillAsked
    | LeaseClaimed(lease: LeaseId)
    | LeaseCompleted(lease: LeaseId)
    | ReviewRequired(reason: string)
    | FillRecorded(previous: RunStatus, verdict: Verdict, result: FillResult)
    | InvestigationAsked(previous: RunStatus)
    | InvestigationRecorded
    | ReviewResolved(review: ReviewDecision)
    | ApprovalRecorded(approval: ApprovalId, decision: SubmitDecision)
    | SubmitRecorded

  datatype Event = Event(run: RunId, kind: EventKind)

  datatype Db = Db(jobs: map<JobId, Job>, runs: map<RunId, Run>, leases: map<LeaseId, Lease>,
                   approvals: map<ApprovalId, Approval>, events: seq<Event>, now: int)

  datatype Readiness =
    | MissingJob | ManualReviewHold(run: RunId) | ActiveRun(run: RunId)
    | ApplicationClaimed | AlreadyApplied | ApplicationTerminal
    | ManualOnly | WaitingOnEnrichment | EasyApplyExcluded | UnsupportedApplyType
    | NotAutoApplyEligible | MissingApplyUrl | WaitingOnResume | Ready

  datatype Error =
    | NotFound | WrongStatus | BadArgument | DuplicateId | LeaseNotActive | LeaseExpired
    | NotReady(reason: Readiness)

  datatype Pick = ActiveRunInProgress(run: RunId) | GlobalHold | Picked(job: JobId) | Idle

  datatype Reply = Done | NothingPending | LeasedRun(run: RunId) | NotPicked(pick: Pick)
                 | Rejected(error: Error)

  /** The database after a call and what the caller is told. */
  datatype Outcome = Outcome(db: Db, reply: Reply)

  function Refuse(db: Db, e: Error): Outcome { Outcome(db, Rejected(e)) }

  // ----- reading the tables -----

  predicate Leased(db: Db, r: RunId) {
    exists l | l in db.leases :: db.leases[l].run == r && db.leases[l].status.Active?
  }

  function OldestFirst(db: Db): map<nat, Rank> {
    map r | r in db.runs :: Rank(db.runs[r].startedAt, 0, r)
  }

  function NewestFirst(db: Db): map<nat, Rank> {
    map r | r in db.runs :: Rank(-db.runs[r].startedAt, 0, -(r as int))
  }

  /** Source first, then newest scraped, then highest id. */
  function JobOrder(db: Db): map<nat, Rank> {
    map j | j in db.jobs :: Rank(db.jobs[j].sourceRank, -db.jobs[j].scrapedAt, -(j as int))
  }

  function OpenRuns(db: Db, j: JobId): set<RunId> {
    set r | r in db.runs && db.runs[r].job == j && !Terminal(db.runs[r].status)
  }

  function ExecutingRuns(db: Db): set<RunId> {
    set r | r in db.runs && Executing(db.runs[r].status)
  }

  const GLOBAL_HOLD_REASONS: set<string> :=
    {"auth_required", "login_required", "captcha_challenge", "otp_required",
     "verification_required", "security_challenge"}

  function HoldRuns(db: Db): set<RunId> {
    set r | r in db.runs && db.runs[r].status.ManualReview? && db.runs[r].reviewReason.Some?
            && db.runs[r].reviewReason.value in GLOBAL_HOLD_REASONS
  }

  function PendingRuns(db: Db, s: RunStatus): set<RunId> {
    set r | r in db.runs && db.runs[r].status == s && !Leased(db, r)
  }

  /** The checks on the job row, in their order, once no open run blocks it. */
  function DecideJob(job: Job): Readiness {
    match job.status
    case Claimed => ApplicationClaimed
    case Applied => AlreadyApplied
    case JobFailed => ApplicationTerminal
    case Skipped => ApplicationTerminal
    case _ =>
      if job.priority != 0 then ManualOnly
      else if job.enrichment !in {"done", "done_verified"} then WaitingOnEnrichment
      else if job.applyType == "easy_apply" then EasyApplyExcluded
      else if job.applyType != "external_apply" then UnsupportedApplyType
      else if !job.autoApply then NotAutoApplyEligible
      else if job.applyUrl == "" then MissingApplyUrl
      else if !job.resumeReady || job.resumeVersion == "" || job.resumePdf == "" then WaitingOnResume
      else Ready
  }

  ghost function Decide(db: Db, j: JobId): Readiness {
    if j !in db.jobs then MissingJob
    else
      match First(OpenRuns(db, j), NewestFirst(db))
      case Some(r) =>
        if db.runs[r].status.ManualReview? then ManualReviewHold(r) else ActiveRun(r)
      case None => DecideJob(db.jobs[j])
  }

  ghost function ReadyJobs(db: Db): set<JobId> {
    set j | j in db.jobs && Decide(db, j).Ready?
  }

  ghost function PickNextJob(db: Db): Pick {
    match First(ExecutingRuns(db), OldestFirst(db))
    case Some(r) => ActiveRunInProgress(r)
    case None =>
      if HoldRuns(db) != {} then GlobalHold
      else match First(ReadyJobs(db), JobOrder(db))
        case Some(j) => Picked(j)
        case None => Idle
  }

  // ----- writing the tables -----

  function SetJob(jobs: map<JobId, Job>, j: JobId, s: JobStatus): map<JobId, Job> {
    if j in jobs then jobs[j := jobs[j].(status := s)] else jobs
  }

  /** Every change of a run row writes the row, its job's status and one event together. */
  function Post(db: Db, r: RunId, run: Run, job: Option<JobStatus>, kind: EventKind): Db {
    db.(runs := db.runs[r := run],
        jobs := if job.Some? then SetJob(db.jobs, run.job, job.value) else db.jobs,
        events := db.events + [Event(r, kind)])
  }

  /** The concern flags that already recommend a manual review when a run starts. */
  function SeedFlags(concernFlags: seq<string>): seq<string> {
    if MANUAL_REVIEW_SEED_FLAG in concernFlags then [MANUAL_REVIEW_SEED_FLAG] else []
  }

  const MANUAL_REVIEW_SEED_FLAG := "manual_review_recommended"

  ghost function BuildApplyContext(db: Db, j: JobId, r: RunId): Outcome {
    if j !in db.jobs then Refuse(db, NotFound)
    else if !Decide(db, j).Ready? then Refuse(db, NotReady(Decide(db, j)))
    else if r in db.runs then Refuse(db, DuplicateId)
    else
      var job := db.jobs[j];
      var run := Run(j, ApplyPrepared, false, None, SeedFlags(job.concernFlags), false, None, None,
                     db.now, db.now, None);
      Outcome(Post(db, r, run, if job.status.Fresh? then Some(Claimed) else None, RunStarted), Done)
  }

  function RequestFill(db: Db, r: RunId): Outcome {
    if r !in db.runs then Refuse(db, NotFound)
    else if !db.runs[r].status.ApplyPrepared? then Refuse(db, WrongStatus)
    else Outcome(Post(db, r, db.runs[r].(status := FillRequested, updatedAt := db.now), None,
                      FillAsked), Done)
  }

  /** `pick_next_job`, `build_apply_context` and `request_fill` without anything in between. */
  ghost function RunOnce(db: Db, r: RunId, prepareOnly: bool): Outcome {
    match PickNextJob(db)
    case Picked(j) =>
      var built := BuildApplyContext(db, j, r);
      if built.reply.Rejected? || prepareOnly then built else RequestFill(built.db, r)
    case p => Outcome(db, NotPicked(p))
  }

  function MarkManualReview(db: Db, r: RunId, reason: string): Db {
    if r !in db.runs || Terminal(db.runs[r].status) || db.runs[r].status.ManualReview? then db
    else
      Post(db, r, db.runs[r].(status := ManualReview, reviewRequired := true,
                              reviewReason := Some(reason), reviewFlags := [reason],
                              updatedAt := db.now, completedAt := None),
           Some(Claimed), ReviewRequired(reason))
  }

  predicate Due(db: Db, l: LeaseId) {
    l in db.leases && db.leases[l].status.Active? && db.leases[l].expiresAt <= db.now
  }

  function CloseRow(db: Db, l: LeaseId, s: LeaseStatus): Db
    requires l in db.leases
  {
    db.(leases := db.leases[l := db.leases[l].(status := s, completedAt := Some(db.now))])
  }

  function ExpireLease(db: Db, l: LeaseId, markRuns: bool): Db {
    if !Due(db, l) then db
    else
      var closed := CloseRow(db, l, TimedOut);
      if markRuns then MarkManualReview(closed, db.leases[l].run, "worker_timeout") else closed
  }

  function ExpireLeases(db: Db, rows: seq<LeaseId>, markRuns: bool): Db {
    if rows == [] then db
    else ExpireLease(ExpireLeases(db, rows[..|rows|-1], markRuns), rows[|rows|-1], markRuns)
  }

  function TimeOutFill(db: Db, r: RunId, cutoff: int): Db {
    if r in db.runs && db.runs[r].status.FillRequested? && !Leased(db, r)
       && db.runs[r].updatedAt <= cutoff
    then MarkManualReview(db, r, "worker_timeout") else db
  }

  function TimeOutFills(db: Db, rows: seq<RunId>, cutoff: int): Db {
    if rows == [] then db
    else TimeOutFill(TimeOutFills(db, rows[..|rows|-1], cutoff), rows[|rows|-1], cutoff)
  }

  function TimeOutSubmit(db: Db, r: RunId, cutoff: int): Db {
    if r in db.runs && db.runs[r].status.SubmitApproved? && db.runs[r].updatedAt <= cutoff
    then MarkManualReview(db, r, "submit_not_confirmed") else db
  }

  function TimeOutSubmits(db: Db, rows: seq<RunId>, cutoff: int): Db {
    if rows == [] then db
    else TimeOutSubmit(TimeOutSubmits(db, rows[..|rows|-1], cutoff), rows[|rows|-1], cutoff)
  }

  /** One reconcile pass. The three row lists are the queries' answers, in any order. */
  function Reconcile(db: Db, leaseRows: seq<LeaseId>, fillRows: seq<RunId>,
                     submitRows: seq<RunId>, fillTimeout: int, submitTimeout: Option<int>): Db
  {
    var expired := ExpireLeases(db, leaseRows, true);
    var filled := TimeOutFills(expired, fillRows, db.now - fillTimeout);
    if submitTimeout.None? then filled
    else TimeOutSubmits(filled, submitRows, db.now - submitTimeout.value)
  }

  datatype TaskType = FillTask | InvestigationTask

  function ClaimStatus(t: TaskType): RunStatus {
    if t.FillTask? then FillRequested else InvestigationQueued
  }

  ghost function ClaimNext(db: Db, rows: seq<LeaseId>, t: TaskType, l: LeaseId, runtime: string,
                           seconds: int): Outcome
  {
    if runtime == "" || seconds < 30 then Refuse(db, BadArgument)
    else
      var swept := ExpireLeases(db, rows, false);
      SweptKeepsRows(db, rows);
      match First(PendingRuns(swept, ClaimStatus(t)), OldestFirst(swept))
      case None => Outcome(swept, NothingPending)
      case Some(r) =>
        if l in db.leases then Refuse(db, DuplicateId)
        else
          var lease := Lease(r, runtime, Active, db.now, db.now, db.now + seconds, None);
          Outcome(swept.(leases := swept.leases[l := lease],
                         events := swept.events + [Event(r, LeaseClaimed(l))]), LeasedRun(r))
  }

  lemma {:induction false} SweptKeepsRows(db: Db, rows: seq<LeaseId>)
    ensures ExpireLeases(db, rows, false).leases.Keys == db.leases.Keys
    ensures ExpireLeases(db, rows, false) == db.(leases := ExpireLeases(db, rows, false).leases)
  {
    if rows != [] { SweptKeepsRows(db, rows[..|rows|-1]); }
  }

  function Heartbeat(db: Db, l: LeaseId, seconds: int): Outcome {
    if seconds < 30 then Refuse(db, BadArgument)
    else
      var checked := CheckLease(db, l);
      if checked.reply.Rejected? then checked
      else Outcome(db.(leases := db.leases[l := db.leases[l].(heartbeatAt := db.now,
                                                              expiresAt := db.now + seconds)]), Done)
  }

  /** The first transaction of a lease completion: an expired lease is closed, then refused. */
  function CheckLease(db: Db, l: LeaseId): (o: Outcome)
    ensures !o.reply.Rejected? ==> o.db == db && l in db.leases && db.leases[l].status.Active?
  {
    if l !in db.leases then Refuse(db, NotFound)
    else if !db.leases[l].status.Active? then Refuse(db, LeaseNotActive)
    else if Due(db, l) then Outcome(CloseRow(db, l, TimedOut), Rejected(LeaseExpired))
    else Outcome(db, Done)
  }

  /** The last transaction of a lease completion; it does not look at the lease's status. */
  function CloseLease(db: Db, l: LeaseId): Outcome {
    if l !in db.leases then Refuse(db, NotFound)
    else
      var closed := CloseRow(db, l, Completed);
      Outcome(closed.(events := db.events + [Event(db.leases[l].run, LeaseCompleted(l))]), Done)
  }

  // ----- fill results -----

  const INVESTIGATION_TRIGGER_CODES: set<string> :=
    {"unknown_widget", "captcha_hcaptcha", "captcha_recaptcha", "captcha_cloudflare",
     "captcha_unknown"}

  const FLAG_TO_CODE: map<string, string> := map[
    "unknown_widget" := "unknown_widget",
    "captcha_challenge" := "captcha_unknown",
    "login_required" := "login_required",
    "auth_required" := "auth_required",
    "otp_required" := "otp_required",
    "verification_required" := "verification_required",
    "security_challenge" := "security_challenge",
    "missing_required_fields" := "missing_required_field",
    "resume_upload_failure" := "resume_upload_failure",
    "unsupported_ats_step" := "unsupported_ats_step"]

  predicate Mentions(s: string, part: string) {
    |part| <= |s| && (s[..|part|] == part || (s != "" && Mentions(s[1..], part)))
  }

  function CodeFromFlags(flags: seq<string>): Option<string> {
    if flags == [] then None
    else if flags[0] in FLAG_TO_CODE then Some(FLAG_TO_CODE[flags[0]])
    else CodeFromFlags(flags[1..])
  }

  function DeriveFailureCode(f: FillResult): string {
    if f.explicitCode != "" then f.explicitCode
    else if f.captchaType != "" then
      if Mentions(f.captchaType, "hcaptcha") then "captcha_hcaptcha"
      else if Mentions(f.captchaType, "recaptcha") then "captcha_recaptcha"
      else if Mentions(f.captchaType, "cloudflare") then "captcha_cloudflare"
      else "captcha_unknown"
    else
      match CodeFromFlags(f.reviewFlags)
      case Some(code) => code
      case None =>
        if f.status == "failed" || f.status == "error" then "fill_failed"
        else if f.status == "manual_review" then "manual_review"
        else "unknown"
  }

  function Judge(f: FillResult): Verdict {
    var code := DeriveFailureCode(f);
    if code in INVESTIGATION_TRIGGER_CODES then
      Verdict(InvestigationQueued, Some(code), false, None, Claimed)
    else if f.reviewFlags != [] then
      Verdict(ManualReview, Some(code), true, Some(f.reviewFlags[0]), Claimed)
    else if f.status == "failed" || f.status == "error" then
      Verdict(Failed, Some(code), false, None, JobFailed)
    else
      Verdict(AwaitingSubmitApproval, None, false, None, Claimed)
  }

  function RecordFillResult(db: Db, r: RunId, f: FillResult): Outcome {
    if r !in db.runs then Refuse(db, NotFound)
    else
      var run := db.runs[r];
      if !(run.status.ApplyPrepared? || run.status.FillRequested?) then Refuse(db, WrongStatus)
      else
        var v := Judge(f);
        Outcome(Post(db, r, run.(status := v.status, reviewRequired := v.reviewRequired,
                                 reviewReason := v.reviewReason, reviewFlags := f.reviewFlags,
                                 failureCode := v.failureCode, updatedAt := db.now,
                                 completedAt := if v.status.Failed? then Some(db.now) else None),
                     Some(v.jobStatus), FillRecorded(run.status, v, f)), Done)
  }

  // ----- investigation, review, submit gate -----

  function QueueInvestigation(db: Db, r: RunId): Outcome {
    if r !in db.runs then Refuse(db, NotFound)
    else
      var run := db.runs[r];
      if !(run.status.ManualReview? || run.status.Failed? || run.status.FillRequested?
           || run.status.ApplyPrepared?)
      then Refuse(db, WrongStatus)
      else Outcome(Post(db, r, run.(status := InvestigationQueued, updatedAt := db.now), None,
                        InvestigationAsked(run.status)), Done)
  }

  function RecordInvestigationResult(db: Db, r: RunId): Outcome {
    if r !in db.runs then Refuse(db, NotFound)
    else if !db.runs[r].status.InvestigationQueued? then Refuse(db, WrongStatus)
    else Outcome(Post(db, r, db.runs[r].(status := InvestigationComplete, updatedAt := db.now),
                      Some(JobFailed), InvestigationRecorded), Done)
  }

  function ResolveReview(db: Db, r: RunId, decision: string): Outcome {
    if decision != "continue" && decision != "fail" then Refuse(db, BadArgument)
    else if r !in db.runs then Refuse(db, NotFound)
    else if !db.runs[r].status.ManualReview? then Refuse(db, WrongStatus)
    else
      var go := decision == "continue";
      Outcome(Post(db, r, db.runs[r].(status := if go then AwaitingSubmitApproval else Failed,
                                      reviewRequired := false, reviewReason := None,
                                      updatedAt := db.now,
                                      completedAt := if go then None else Some(db.now)),
                   Some(if go then Claimed else JobFailed),
                   ReviewResolved(if go then Continue else Fail)), Done)
  }

  function ApproveSubmit(db: Db, r: RunId, a: ApprovalId, decision: string): Outcome {
    if decision != "approve" && decision != "deny" then Refuse(db, BadArgument)
    else if r !in db.runs then Refuse(db, NotFound)
    else if !db.runs[r].status.AwaitingSubmitApproval? then Refuse(db, WrongStatus)
    else if a in db.approvals then Refuse(db, DuplicateId)
    else
      var ok := decision == "approve";
      var run := db.runs[r];
      var verdict := if ok then Approve else Deny;
      Outcome(Post(db.(approvals := db.approvals[a := Approval(run.job, r, verdict)]), r,
                   run.(status := if ok then SubmitApproved else SubmitDenied,
                        submitAllowed := ok, approvalId := Some(a), updatedAt := db.now,
                        completedAt := if ok then None else Some(db.now)),
                   Some(if ok then Claimed else Skipped), ApprovalRecorded(a, verdict)), Done)
  }

  function MarkSubmitted(db: Db, r: RunId): Outcome {
    if r !in db.runs then Refuse(db, NotFound)
    else if !db.runs[r].status.SubmitApproved? then Refuse(db, WrongStatus)
    else Outcome(Post(db, r, db.runs[r].(status := Submitted, updatedAt := db.now,
                                         completedAt := Some(db.now)),
                      Some(Applied), SubmitRecorded), Done)
  }

  // ----- interleavings -----

  /** A lease completion between its transactions. */
  datatype Call =
    | Checked(lease: LeaseId, result: FillResult)
    | Routed(lease: LeaseId, result: FillResult, investigate: bool)
    | Recorded(lease: LeaseId)

  datatype System = System(db: Db, calls: map<nat, Call>)

  datatype Step =
    | Tick(elapsed: nat)
    | AddJob(j: JobId, job: Job)
    | EditJob(j: JobId, job: Job)
    | SkipJob(j: JobId)
    | DropJob(j: JobId)
    | StartRun(j: JobId, r: RunId)
    | DoRunOnce(r: RunId, prepareOnly: bool)
    | AskFill(r: RunId)
    | Claim(rows: seq<LeaseId>, t: TaskType, l: LeaseId, runtime: string, seconds: int)
    | Beat(l: LeaseId, seconds: int)
    | PostFill(r: RunId, result: FillResult)
    | AskInvestigation(r: RunId)
    | PostInvestigation(r: RunId)
    | Resolve(r: RunId, decision: string)
    | GateSubmit(r: RunId, a: ApprovalId, decision: string)
    | ConfirmSubmit(r: RunId)
    | DoReconcile(leaseRows: seq<LeaseId>, fillRows: seq<RunId>, submitRows: seq<RunId>,
                  fillTimeout: int, submitTimeout: Option<int>)
    | BeginCompletion(c: nat, l: LeaseId, result: FillResult)
    | RouteCompletion(c: nat)
    | RecordCompletion(c: nat)
    | EndCompletion(c: nat)

  /** A run names the job; job ids are never given out twice, so no new job can. */
  predicate HasRun(db: Db, j: JobId) {
    exists r | r in db.runs :: db.runs[r].job == j
  }

  /** What a step does to the tables. */
  ghost function NextDb(s: System, step: Step): Db {
    var db := s.db;
    match step
    case Tick(elapsed) => db.(now := db.now + elapsed)
    // Other components: new rows, changed fields, the operator's skip and deletion; never a reopened status.
    case AddJob(j, job) => if j in db.jobs || HasRun(db, j) then db else db.(jobs := db.jobs[j := job])
    case EditJob(j, job) =>
      if j in db.jobs then db.(jobs := db.jobs[j := job.(status := db.jobs[j].status)]) else db
    case SkipJob(j) => db.(jobs := SetJob(db.jobs, j, Skipped))
    case DropJob(j) => db.(jobs := db.jobs - {j})
    case StartRun(j, r) => BuildApplyContext(db, j, r).db
    case DoRunOnce(r, prepareOnly) => RunOnce(db, r, prepareOnly).db
    case AskFill(r) => RequestFill(db, r).db
    case Claim(rows, t, l, runtime, seconds) => ClaimNext(db, rows, t, l, runtime, seconds).db
    case Beat(l, seconds) => Heartbeat(db, l, seconds).db
    case PostFill(r, result) => RecordFillResult(db, r, result).db
    case AskInvestigation(r) => QueueInvestigation(db, r).db
    case PostInvestigation(r) => RecordInvestigationResult(db, r).db
    case Resolve(r, decision) => ResolveReview(db, r, decision).db
    case GateSubmit(r, a, decision) => ApproveSubmit(db, r, a, decision).db
    case ConfirmSubmit(r) => MarkSubmitted(db, r).db
    case DoReconcile(ls, fs, ss, ft, st) => Reconcile(db, ls, fs, ss, ft, st)
    case BeginCompletion(c, l, _) => if c in s.calls then db else CheckLease(db, l).db
    case RouteCompletion(_) => db
    case RecordCompletion(c) =>
      if c in s.calls && s.calls[c].Routed? && s.calls[c].lease in db.leases then
        RecordRouted(db, s.calls[c]).db
      else db
    case EndCompletion(c) =>
      if c in s.calls && s.calls[c].Recorded? then CloseLease(db, s.calls[c].lease).db else db
  }

  function RecordRouted(db: Db, call: Call): Outcome
    requires call.Routed? && call.lease in db.leases
  {
    var r := db.leases[call.lease].run;
    if call.investigate then RecordInvestigationResult(db, r)
    else RecordFillResult(db, r, call.result)
  }

  /** How a completion moves on; a refused transaction ends it. */
  function NextCalls(s: System, step: Step): map<nat, Call> {
    match step
    case BeginCompletion(c, l, result) =>
      if c in s.calls || CheckLease(s.db, l).reply.Rejected? then s.calls
      else s.calls[c := Checked(l, result)]
    case RouteCompletion(c) =>
      if c in s.calls && s.calls[c].Checked? && s.calls[c].lease in s.db.leases then
        var r := s.db.leases[s.calls[c].lease].run;
        var inv := r in s.db.runs && s.db.runs[r].status.InvestigationQueued?;
        s.calls[c := Routed(s.calls[c].lease, s.calls[c].result, inv)]
      else s.calls
    case RecordCompletion(c) =>
      if c in s.calls && s.calls[c].Routed? && s.calls[c].lease in s.db.leases then
        if RecordRouted(s.db, s.calls[c]).reply.Rejected? then s.calls - {c}
        else s.calls[c := Recorded(s.calls[c].lease)]
      else s.calls
    case EndCompletion(c) =>
      if c in s.calls && s.calls[c].Recorded? then s.calls - {c} else s.calls
    case _ => s.calls
  }

  ghost function Next(s: System, step: Step): System {
    System(NextDb(s, step), NextCalls(s, step))
  }

  /** No runs, leases, approvals or events yet; any jobs. */
  predicate Initial(s: System) {
    s.db.runs == map[] && s.db.leases == map[] && s.db.approvals == map[] && s.db.events == []
    && s.calls == map[]
  }

  ghost function Execute(s: System, steps: seq<Step>): System {
    if steps == [] then s else Next(Execute(s, steps[..|steps|-1]), steps[|steps|-1])
  }
}

/**
  The status chart: what each request makes of a run in each status, of its job, and of a posted fill.
  The chart speaks of statuses and of the caller's data only.
 */
module CoordinatorChart {
  import opened Sequences
  import opened Wrappers

  import opened CoordinatorModel
  import opened CoordinatorSafety

  // ----- what a fill result says -----

  lemma {:induction false} MentionsIsContains(s: string, part: string)
    ensures Mentions(s, part) <==> Contains(s, part)
  {
    if |part| <= |s| && s[..|part|] == part {
      assert OccursAt(s, part, 0);
    } else if |part| <= |s| && s != "" {
      MentionsIsContains(s[1..], part);
      if Contains(s[1..], part) {
        var i: nat :| OccursAt(s[1..], part, i);
        assert OccursAt(s, part, i + 1);
      }
      if Contains(s, part) {
        var i: nat :| OccursAt(s, part, i);
        assert i > 0;
        assert OccursAt(s[1..], part, i - 1);
      }
    }
  }

  /** Flags that stand for a failure code: themselves, but for two. */
  predicate Coded(flag: string) {
    flag in {"unknown_widget", "captcha_challenge", "login_required", "auth_required", "otp_required",
             "verification_required", "security_challenge", "missing_required_fields", "resume_upload_failure",
             "unsupported_ats_step"}
  }

  function CodeOf(flag: string): string {
    if flag == "captcha_challenge" then "captcha_unknown"
    else if flag == "missing_required_fields" then "missing_required_field"
    else flag
  }

  /** The flag is the first one that stands for a code. */
  ghost predicate FirstCoded(flags: seq<string>, flag: string) {
    exists i | 0 <= i < |flags| :: flags[i] == flag && Coded(flag) && forall k | 0 <= k < i :: !Coded(flags[k])
  }

  lemma FlagCodes(flag: string)
    ensures flag in FLAG_TO_CODE <==> Coded(flag)
    ensures Coded(flag) ==> FLAG_TO_CODE[flag] == CodeOf(flag)
  {
  }

  lemma {:induction false} CodeFromFirstCoded(flags: seq<string>)
    ensures CodeFromFlags(flags).None? <==> forall k | 0 <= k < |flags| :: !Coded(flags[k])
    ensures forall flag | FirstCoded(flags, flag) :: CodeFromFlags(flags) == Some(CodeOf(flag))
    ensures CodeFromFlags(flags).Some? ==> exists flag :: FirstCoded(flags, flag)
  {
    if flags != [] {
      hide FLAG_TO_CODE, Coded, CodeOf;
      FlagCodes(flags[0]);
      if Coded(flags[0]) {
        assert FirstCoded(flags, flags[0]);
      } else {
        CodeFromFirstCoded(flags[1..]);
        forall flag ensures FirstCoded(flags, flag) <==> FirstCoded(flags[1..], flag) {
          if FirstCoded(flags, flag) {
            var i :| 0 <= i < |flags| && flags[i] == flag && Coded(flag) && forall k | 0 <= k < i :: !Coded(flags[k]);
            assert flags[1..][i - 1] == flag;
          }
          if FirstCoded(flags[1..], flag) {
            var i :| 0 <= i < |flags[1..]| && flags[1..][i] == flag && Coded(flag)
                     && forall k | 0 <= k < i :: !Coded(flags[1..][k]);
            assert flags[i + 1] == flag;
            forall k | 0 <= k < i + 1 ensures !Coded(flags[k]) {
              if k > 0 { assert flags[1..][k - 1] == flags[k]; }
            }
          }
        }
        if forall k | 0 <= k < |flags[1..]| :: !Coded(flags[1..][k]) {
          forall k | 0 <= k < |flags| ensures !Coded(flags[k]) {
            if k > 0 { assert flags[1..][k - 1] == flags[k]; }
          }
        }
      }
    }
  }

  /** The failure code: the one given, else the captcha's, else the first coded flag's, else the status's. */
  ghost predicate Names(f: FillResult, code: string) {
    if f.explicitCode != "" then code == f.explicitCode
    else if f.captchaType != "" then
      && (Contains(f.captchaType, "hcaptcha") ==> code == "captcha_hcaptcha")
      && (!Contains(f.captchaType, "hcaptcha") && Contains(f.captchaType, "recaptcha") ==> code == "captcha_recaptcha")
      && (!Contains(f.captchaType, "hcaptcha") && !Contains(f.captchaType, "recaptcha") ==>
            code == if Contains(f.captchaType, "cloudflare") then "captcha_cloudflare" else "captcha_unknown")
    else if exists i | 0 <= i < |f.reviewFlags| :: Coded(f.reviewFlags[i]) then
      exists flag :: FirstCoded(f.reviewFlags, flag) && code == CodeOf(flag)
    else code == if f.status == "failed" || f.status == "error" then "fill_failed"
                 else if f.status == "manual_review" then "manual_review" else "unknown"
  }

  lemma CodeIsNamed(f: FillResult)
    ensures Names(f, DeriveFailureCode(f))
  {
    hide Mentions, Contains, Coded, CodeOf, CodeFromFlags, FirstCoded;
    MentionsIsContains(f.captchaType, "hcaptcha");
    MentionsIsContains(f.captchaType, "recaptcha");
    MentionsIsContains(f.captchaType, "cloudflare");
    CodeFromFirstCoded(f.reviewFlags);
  }

  /** What sends a fill to investigation: certain codes, any captcha at all, or a widget or captcha flag
      before any other coded one. */
  ghost predicate Investigable(f: FillResult) {
    if f.explicitCode != "" then
      f.explicitCode in {"unknown_widget", "captcha_hcaptcha", "captcha_recaptcha", "captcha_cloudflare",
                         "captcha_unknown"}
    else f.captchaType != "" || FirstCoded(f.reviewFlags, "unknown_widget")
         || FirstCoded(f.reviewFlags, "captcha_challenge")
  }

  lemma TriggersInvestigation(f: FillResult)
    ensures DeriveFailureCode(f) in INVESTIGATION_TRIGGER_CODES <==> Investigable(f)
  {
    CodeIsNamed(f);
    var code := DeriveFailureCode(f);
    hide Contains, DeriveFailureCode, FirstCoded;
    if f.explicitCode == "" && f.captchaType == "" {
      if exists i | 0 <= i < |f.reviewFlags| :: Coded(f.reviewFlags[i]) {
        var flag :| FirstCoded(f.reviewFlags, flag) && code == CodeOf(flag);
        FirstIsOne(f.reviewFlags, flag);
        assert code in INVESTIGATION_TRIGGER_CODES <==> flag == "unknown_widget" || flag == "captcha_challenge";
      } else {
        NoneIsFirst(f.reviewFlags);
      }
    }
  }

  lemma FirstIsOne(flags: seq<string>, flag: string)
    requires FirstCoded(flags, flag)
    ensures Coded(flag) && forall other | FirstCoded(flags, other) :: other == flag
  {
    hide Coded;
    var i :| 0 <= i < |flags| && flags[i] == flag && Coded(flag) && forall k | 0 <= k < i :: !Coded(flags[k]);
    forall other | FirstCoded(flags, other) ensures other == flag {
      var m :| 0 <= m < |flags| && flags[m] == other && Coded(other) && forall k | 0 <= k < m :: !Coded(flags[k]);
      assert !(i < m) && !(m < i);
    }
  }

  lemma NoneIsFirst(flags: seq<string>)
    requires !exists i | 0 <= i < |flags| :: Coded(flags[i])
    ensures forall flag :: !FirstCoded(flags, flag)
  {
  }

  /** Where a posted fill takes a run that waits for one. */
  ghost function FillStatus(f: FillResult): RunStatus {
    if Investigable(f) then InvestigationQueued
    else if f.reviewFlags != [] then ManualReview
    else if f.status in {"failed", "error"} then Failed
    else AwaitingSubmitApproval
  }

  /** The submit gate is opened to a fill exactly if nothing is the matter with it. */
  lemma CleanFillMeans(f: FillResult)
    ensures CleanFill(f) <==> FillStatus(f).AwaitingSubmitApproval?
  {
    TriggersInvestigation(f);
    hide DeriveFailureCode, Investigable;
  }

  // ----- the chart -----

  /** The requests that concern one existing run. */
  predicate Concerns(step: Step, r: RunId) {
    || step == AskFill(r) || step == AskInvestigation(r) || step == PostInvestigation(r) || step == ConfirmSubmit(r)
    || (step.PostFill? && step.r == r) || (step.Resolve? && step.r == r) || (step.GateSubmit? && step.r == r)
  }

  /** The status a request leads to; none if it is refused. */
  ghost function Chart(was: RunStatus, step: Step): Option<RunStatus> {
    match was
    case ApplyPrepared =>
      if step.AskFill? then Some(FillRequested)
      else if step.PostFill? then Some(FillStatus(step.result))
      else if step.AskInvestigation? then Some(InvestigationQueued)
      else None
    case FillRequested =>
      if step.PostFill? then Some(FillStatus(step.result))
      else if step.AskInvestigation? then Some(InvestigationQueued)
      else None
    case AwaitingSubmitApproval =>
      if step.GateSubmit? && step.decision == "approve" then Some(SubmitApproved)
      else if step.GateSubmit? && step.decision == "deny" then Some(SubmitDenied)
      else None
    case SubmitApproved => if step.ConfirmSubmit? then Some(Submitted) else None
    case ManualReview =>
      if step.Resolve? && step.decision == "continue" then Some(AwaitingSubmitApproval)
      else if step.Resolve? && step.decision == "fail" then Some(Failed)
      else if step.AskInvestigation? then Some(InvestigationQueued)
      else None
    case InvestigationQueued => if step.PostInvestigation? then Some(InvestigationComplete) else None
    case Failed => if step.AskInvestigation? then Some(InvestigationQueued) else None
    case _ => None
  }

  /** What becomes of the job's status; nothing when a run merely waits for a worker. */
  function JobAfter(step: Step, next: RunStatus): Option<JobStatus> {
    if step.AskFill? || step.AskInvestigation? then None
    else
      match next
      case Submitted => Some(Applied)
      case SubmitDenied => Some(Skipped)
      case Failed => Some(JobFailed)
      case InvestigationComplete => Some(JobFailed)
      case _ => Some(Claimed)
  }

  /** A request follows the chart: the run gets its status now, ends exactly in an ending status, its job
      follows, and nothing else of runs and jobs changes. What the chart does not know is refused. */
  ghost predicate Follows(before: Db, db: Db, r: RunId, step: Step, next: RunStatus)
    requires r in before.runs
  {
    && db.runs.Keys == before.runs.Keys && db.jobs.Keys == before.jobs.Keys
    && (forall q | q in before.runs && q != r :: db.runs[q] == before.runs[q])
    && (forall j | j in before.jobs && j != before.runs[r].job :: db.jobs[j] == before.jobs[j])
    && var was, run := before.runs[r], db.runs[r];
       && run.job == was.job && run.startedAt == was.startedAt
       && run.status == next && run.updatedAt == before.now
       && (next.Failed? || next.SubmitDenied? || next.Submitted? ==> run.completedAt == Some(before.now))
       && (next.AwaitingSubmitApproval? || next.SubmitApproved? || next.ManualReview? ==> run.completedAt.None?)
       && (was.job in before.jobs ==>
             var job := before.jobs[was.job];
             db.jobs[was.job] == match JobAfter(step, next)
                                 case None => job
                                 case Some(status) => job.(status := status))
  }

  ghost predicate FollowsChart(before: Db, db: Db, r: RunId, step: Step)
    requires r in before.runs
  {
    match Chart(before.runs[r].status, step)
    case Some(next) => Follows(before, db, r, step, next)
    case None => db == before
  }

  lemma StepFollowsChart(s: System, step: Step, r: RunId)
    requires r in s.db.runs && Concerns(step, r) && (step.GateSubmit? ==> step.a !in s.db.approvals)
    ensures FollowsChart(s.db, Next(s, step).db, r, step)
  {
    hide NextCalls, RequestFill, RecordFillResult, QueueInvestigation, RecordInvestigationResult, ResolveReview,
         ApproveSubmit, MarkSubmitted, FollowsChart;
    if step.PostFill? {
      FillFollowsChart(s, step, r);
    } else if step.Resolve? || step.GateSubmit? {
      DecisionFollowsChart(s, step, r);
    } else if step.AskInvestigation? || step.PostInvestigation? {
      InvestigationFollowsChart(s, step, r);
    } else {
      CallFollowsChart(s, step, r);
    }
  }

  /** One row change that fits the chart. */
  lemma PostFollows(before: Db, db: Db, r: RunId, run: Run, job: Option<JobStatus>, kind: EventKind, step: Step)
    requires r in before.runs && db.runs == before.runs && db.jobs == before.jobs
    requires var was := before.runs[r];
             run.job == was.job && run.startedAt == was.startedAt && run.updatedAt == before.now
    requires Terminal(run.status) ==> run.completedAt == Some(before.now)
    requires run.status.AwaitingSubmitApproval? || run.status.SubmitApproved? || run.status.ManualReview? ==>
               run.completedAt.None?
    requires job == JobAfter(step, run.status)
    ensures Follows(before, Post(db, r, run, job, kind), r, step, run.status)
  {
    hide JobAfter;
  }

  lemma FillFollowsChart(s: System, step: Step, r: RunId)
    requires r in s.db.runs && Concerns(step, r) && step.PostFill?
    ensures FollowsChart(s.db, NextDb(s, step), r, step)
  {
    hide DeriveFailureCode, Investigable, INVESTIGATION_TRIGGER_CODES, Post, Follows;
    TriggersInvestigation(step.result);
    var was, v := s.db.runs[r], Judge(step.result);
    if BeforeFill(was.status) {
      PostFollows(s.db, s.db, r, was.(status := v.status, reviewRequired := v.reviewRequired,
                                      reviewReason := v.reviewReason, reviewFlags := step.result.reviewFlags,
                                      failureCode := v.failureCode, updatedAt := s.db.now,
                                      completedAt := if v.status.Failed? then Some(s.db.now) else None),
                  Some(v.jobStatus), FillRecorded(was.status, v, step.result), step);
    }
  }

  lemma DecisionFollowsChart(s: System, step: Step, r: RunId)
    requires r in s.db.runs && Concerns(step, r) && (step.GateSubmit? ==> step.a !in s.db.approvals)
    requires step.Resolve? || step.GateSubmit?
    ensures FollowsChart(s.db, NextDb(s, step), r, step)
  {
    hide FillStatus, Post, Follows;
    var db, was := s.db, s.db.runs[r];
    if step.GateSubmit? && was.status.AwaitingSubmitApproval? {
      var ok := step.decision == "approve";
      var verdict := if ok then Approve else Deny;
      PostFollows(db, db.(approvals := db.approvals[step.a := Approval(was.job, r, verdict)]), r,
                  was.(status := if ok then SubmitApproved else SubmitDenied, submitAllowed := ok,
                       approvalId := Some(step.a), updatedAt := db.now,
                       completedAt := if ok then None else Some(db.now)),
                  Some(if ok then Claimed else Skipped), ApprovalRecorded(step.a, verdict), step);
    }
    if step.Resolve? && was.status.ManualReview? {
      var go := step.decision == "continue";
      PostFollows(db, db, r, was.(status := if go then AwaitingSubmitApproval else Failed, reviewRequired := false,
                                  reviewReason := None, updatedAt := db.now,
                                  completedAt := if go then None else Some(db.now)),
                  Some(if go then Claimed else JobFailed), ReviewResolved(if go then Continue else Fail), step);
    }
  }

  lemma InvestigationFollowsChart(s: System, step: Step, r: RunId)
    requires r in s.db.runs && Concerns(step, r) && (step.AskInvestigation? || step.PostInvestigation?)
    ensures FollowsChart(s.db, NextDb(s, step), r, step)
  {
    hide FillStatus, Post, Follows;
    var db, was := s.db, s.db.runs[r];
    if step.AskInvestigation? {
      PostFollows(db, db, r, was.(status := InvestigationQueued, updatedAt := db.now), None,
                  InvestigationAsked(was.status), step);
    } else {
      PostFollows(db, db, r, was.(status := InvestigationComplete, updatedAt := db.now), Some(JobFailed),
                  InvestigationRecorded, step);
    }
  }

  lemma CallFollowsChart(s: System, step: Step, r: RunId)
    requires r in s.db.runs && Concerns(step, r) && (step.AskFill? || step.ConfirmSubmit?)
    ensures FollowsChart(s.db, NextDb(s, step), r, step)
  {
    hide FillStatus, Post, Follows;
    var db, was := s.db, s.db.runs[r];
    if step.AskFill? {
      PostFollows(db, db, r, was.(status := FillRequested, updatedAt := db.now), None, FillAsked, step);
    } else {
      PostFollows(db, db, r, was.(status := Submitted, updatedAt := db.now, completedAt := Some(db.now)),
                  Some(Applied), SubmitRecorded, step);
    }
  }

  ghost function Answer(db: Db, step: Step, r: RunId): Reply
    requires Concerns(step, r)
  {
    match step
    case AskFill(_) => RequestFill(db, r).reply
    case PostFill(_, f) => RecordFillResult(db, r, f).reply
    case AskInvestigation(_) => QueueInvestigation(db, r).reply
    case PostInvestigation(_) => RecordInvestigationResult(db, r).reply
    case Resolve(_, decision) => ResolveReview(db, r, decision).reply
    case GateSubmit(_, a, decision) => ApproveSubmit(db, r, a, decision).reply
    case ConfirmSubmit(_) => MarkSubmitted(db, r).reply
  }

  /** The caller is told whether the chart was followed, and if not, what the first obstacle was. */
  lemma AnswerFollowsChart(db: Db, step: Step, r: RunId)
    requires Concerns(step, r)
    ensures Answer(db, step, r) ==
              if (step.GateSubmit? && step.decision != "approve" && step.decision != "deny")
                 || (step.Resolve? && step.decision != "continue" && step.decision != "fail")
              then Rejected(BadArgument)
              else if r !in db.runs then Rejected(NotFound)
              else if Chart(db.runs[r].status, step).None? then Rejected(WrongStatus)
              else if step.GateSubmit? && step.a in db.approvals then Rejected(DuplicateId)
              else Done
  {
    hide Judge, Post, FillStatus;
  }

  /** What a recorded fill leaves on the run for people to see. */
  lemma FillLeaves(s: System, r: RunId, f: FillResult)
    requires r in s.db.runs && BeforeFill(s.db.runs[r].status)
    ensures var run := Next(s, PostFill(r, f)).db.runs[r];
            && run.reviewFlags == f.reviewFlags
            && (run.reviewRequired <==> run.status.ManualReview?)
            && run.reviewReason == (if run.status.ManualReview? then Some(f.reviewFlags[0]) else None)
            && (run.status.AwaitingSubmitApproval? <==> run.failureCode.None?)
            && (run.failureCode.Some? ==> Names(f, run.failureCode.value))
  {
    hide DeriveFailureCode, Names, NextCalls;
    CodeIsNamed(f);
  }

  /** Runs held for a person to log in or to pass a check stop the scheduler; other coded flags do not. */
  lemma HoldReasons(reason: string)
    ensures reason in GLOBAL_HOLD_REASONS <==>
              Coded(reason) && reason !in {"unknown_widget", "missing_required_fields", "resume_upload_failure",
                                           "unsupported_ats_step"}
  {
  }
}

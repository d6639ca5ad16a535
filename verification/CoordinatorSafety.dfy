/**
  What every interleaving of coordinator transactions keeps: the event log determines each run's
  row, one run per job, at most one active lease and one recorded fill per run, and the approval
  trail behind every submission.
 */
module CoordinatorSafety {
  import opened Wrappers
  import opened Query
  import opened CoordinatorModel

  // ----- replaying a run's events -----

  /** The part of a run row that its events determine. */
  datatype Summary = Summary(status: RunStatus, reviewRequired: bool,
                             reviewReason: Option<string>, submitAllowed: bool,
                             approvalId: Option<ApprovalId>, failureCode: Option<string>)

  function SummaryOf(run: Run): Summary {
    Summary(run.status, run.reviewRequired, run.reviewReason, run.submitAllowed, run.approvalId,
            run.failureCode)
  }

  function Fold(s: Option<Summary>, kind: EventKind): Option<Summary> {
    if kind.RunStarted? then Some(Summary(ApplyPrepared, false, None, false, None, None))
    else if s.None? then None
    else
      var v := s.value;
      match kind
      case FillAsked => Some(v.(status := FillRequested))
      case ReviewRequired(reason) =>
        Some(v.(status := ManualReview, reviewRequired := true, reviewReason := Some(reason)))
      case FillRecorded(_, f, _) =>
        Some(v.(status := f.status, reviewRequired := f.reviewRequired,
                reviewReason := f.reviewReason, failureCode := f.failureCode))
      case InvestigationAsked(_) => Some(v.(status := InvestigationQueued))
      case InvestigationRecorded => Some(v.(status := InvestigationComplete))
      case ReviewResolved(d) =>
        Some(v.(status := if d.Continue? then AwaitingSubmitApproval else Failed,
                reviewRequired := false, reviewReason := None))
      case ApprovalRecorded(a, d) =>
        Some(v.(status := if d.Approve? then SubmitApproved else SubmitDenied,
                submitAllowed := d.Approve?, approvalId := Some(a)))
      case SubmitRecorded => Some(v.(status := Submitted))
      case _ => s
  }

  function Replay(es: seq<Event>, r: RunId): Option<Summary> {
    if es == [] then None
    else
      var earlier := Replay(es[..|es|-1], r);
      var e := es[|es|-1];
      if e.run == r then Fold(earlier, e.kind) else earlier
  }

  function Stored(db: Db, r: RunId): Option<Summary> {
    if r in db.runs then Some(SummaryOf(db.runs[r])) else None
  }

  ghost predicate Sourced(db: Db) {
    forall r: RunId :: Replay(db.events, r) == Stored(db, r)
  }

  lemma ReplayAppend(es: seq<Event>, e: Event, r: RunId)
    ensures Replay(es + [e], r) == if e.run == r then Fold(Replay(es, r), e.kind) else Replay(es, r)
  {
    assert (es + [e])[..|es|] == es;
  }

  // ----- the trail behind a submission -----

  /** Lease events leave the run row alone; all other events change it. */
  predicate Moves(kind: EventKind) { !kind.LeaseClaimed? && !kind.LeaseCompleted? }

  predicate CleanFill(f: FillResult) {
    f.reviewFlags == [] && DeriveFailureCode(f) !in INVESTIGATION_TRIGGER_CODES
    && f.status != "failed" && f.status != "error"
  }

  predicate Clears(kind: EventKind) {
    kind == ReviewResolved(Continue) || (kind.FillRecorded? && CleanFill(kind.result))
  }

  ghost predicate ClearedAt(es: seq<Event>, r: RunId, i: nat) {
    i < |es| && es[i].run == r && Clears(es[i].kind)
  }

  ghost predicate ApprovedAt(es: seq<Event>, r: RunId, j: nat, a: ApprovalId) {
    j < |es| && es[j] == Event(r, ApprovalRecorded(a, Approve))
  }

  /** Nothing moves the run strictly between two places in the log. */
  ghost predicate Quiet(es: seq<Event>, r: RunId, from: nat, to: nat) {
    to <= |es| && forall m: nat | from < m < to :: es[m].run == r ==> !Moves(es[m].kind)
  }

  ghost predicate AwaitingTrail(es: seq<Event>, r: RunId) {
    exists i: nat :: ClearedAt(es, r, i) && Quiet(es, r, i, |es|)
  }

  ghost predicate ApprovedTrail(es: seq<Event>, r: RunId, a: ApprovalId) {
    exists i: nat, j: nat :: i < j && ClearedAt(es, r, i) && ApprovedAt(es, r, j, a)
                   && Quiet(es, r, i, j) && Quiet(es, r, j, |es|)
  }

  /** Clearance, approval and submission are the run's last three moves, in this order. */
  ghost predicate SubmittedTrail(es: seq<Event>, r: RunId, a: ApprovalId) {
    exists i: nat, j: nat, k: nat :: i < j < k < |es| && ClearedAt(es, r, i) && ApprovedAt(es, r, j, a)
                      && es[k] == Event(r, SubmitRecorded)
                      && Quiet(es, r, i, j) && Quiet(es, r, j, k) && Quiet(es, r, k, |es|)
  }

  ghost predicate Trail(es: seq<Event>, r: RunId, run: Run) {
    && (run.status.AwaitingSubmitApproval? ==> AwaitingTrail(es, r))
    && (run.status.SubmitApproved? ==>
          run.approvalId.Some? && ApprovedTrail(es, r, run.approvalId.value))
    && (run.status.Submitted? ==>
          run.approvalId.Some? && SubmittedTrail(es, r, run.approvalId.value))
  }

  // ----- the other invariants -----

  function FillCount(es: seq<Event>, r: RunId): nat {
    if es == [] then 0
    else FillCount(es[..|es|-1], r)
         + if es[|es|-1].run == r && es[|es|-1].kind.FillRecorded? then 1 else 0
  }

  predicate BeforeFill(s: RunStatus) { s.ApplyPrepared? || s.FillRequested? }

  ghost predicate FilledOnce(db: Db) {
    forall r: RunId :: FillCount(db.events, r) <=
                       if r in db.runs && !BeforeFill(db.runs[r].status) then 1 else 0
  }

  ghost predicate OneRunPerJob(db: Db) {
    && (forall q, r | q in db.runs && r in db.runs && db.runs[q].job == db.runs[r].job :: q == r)
    && (forall r | r in db.runs :: Blocking(db, db.runs[r]))
  }

  predicate Blocking(db: Db, run: Run) {
    run.job in db.jobs ==> !Terminal(run.status) || Closed(db.jobs[run.job].status)
  }

  ghost predicate OneActiveLease(db: Db) {
    && (forall l | l in db.leases :: db.leases[l].run in db.runs)
    && (forall l, m | l in db.leases && m in db.leases && db.leases[l].status.Active?
                      && db.leases[m].status.Active? && db.leases[l].run == db.leases[m].run
          :: l == m)
  }

  predicate Approvable(approvals: map<ApprovalId, Approval>, r: RunId, run: Run) {
    && (run.approvalId.Some? ==> run.approvalId.value in approvals)
    && (run.submitAllowed <==> run.approvalId.Some?
                               && approvals[run.approvalId.value] == Approval(run.job, r, Approve))
    && (run.status.SubmitApproved? || run.status.Submitted? ==> run.submitAllowed)
  }

  ghost predicate Gated(db: Db) {
    forall r | r in db.runs :: Approvable(db.approvals, r, db.runs[r])
  }

  ghost predicate Trailed(db: Db) {
    forall r | r in db.runs :: Trail(db.events, r, db.runs[r])
  }

  ghost predicate Inv(db: Db) {
    Sourced(db) && Trailed(db) && FilledOnce(db) && OneRunPerJob(db) && OneActiveLease(db)
    && Gated(db)
  }

  // ----- one row change with its event -----

  /** The status changes the coordinator makes. */
  predicate Edge(a: RunStatus, b: RunStatus) {
    match a
    case ApplyPrepared => b.FillRequested? || b.ManualReview? || b.InvestigationQueued?
                          || b.Failed? || b.AwaitingSubmitApproval?
    case FillRequested => b.ManualReview? || b.InvestigationQueued? || b.Failed?
                          || b.AwaitingSubmitApproval?
    case AwaitingSubmitApproval => b.SubmitApproved? || b.SubmitDenied? || b.ManualReview?
    case SubmitApproved => b.Submitted? || b.ManualReview?
    case ManualReview => b.AwaitingSubmitApproval? || b.Failed? || b.InvestigationQueued?
    case InvestigationQueued => b.InvestigationComplete? || b.ManualReview?
    case InvestigationComplete => b.ManualReview?
    case Failed => b.InvestigationQueued?
    case _ => false
  }

  /** Events that bring a run back among the executing ones. */
  predicate Reopens(kind: EventKind) {
    kind == ReviewResolved(Continue) || kind.InvestigationAsked?
  }

  /** What every row change of an existing run satisfies. */
  ghost predicate Legal(db: Db, r: RunId, run: Run, job: Option<JobStatus>, kind: EventKind) {
    && r in db.runs && Moves(kind)
    && (var was := db.runs[r];
    && run.job == was.job && run.startedAt == was.startedAt
    && Fold(Some(SummaryOf(was)), kind) == Some(SummaryOf(run))
    && Edge(was.status, run.status)
    && (Terminal(run.status) ==> job.Some? && Closed(job.value))
    && (kind.FillRecorded? ==> BeforeFill(was.status) && !BeforeFill(run.status))
    && (run.status.AwaitingSubmitApproval? ==> Clears(kind))
    && (run.status.SubmitApproved? ==>
          was.status.AwaitingSubmitApproval? && run.approvalId.Some?
          && kind == ApprovalRecorded(run.approvalId.value, Approve))
    && (run.status.Submitted? ==>
          was.status.SubmitApproved? && run.approvalId == was.approvalId && kind == SubmitRecorded)
    && Approvable(db.approvals, r, run)
    && (Executing(run.status) && !Executing(was.status) ==> Reopens(kind)))
  }

  lemma AppendKeepsTrail(es: seq<Event>, e: Event, r: RunId, run: Run)
    requires Trail(es, r, run)
    requires e.run == r ==> !Moves(e.kind)
    ensures Trail(es + [e], r, run)
  {
    if run.status.AwaitingSubmitApproval? {
      var i: nat :| ClearedAt(es, r, i) && Quiet(es, r, i, |es|);
      assert ClearedAt(es + [e], r, i) && Quiet(es + [e], r, i, |es| + 1);
    }
    if run.status.SubmitApproved? {
      var a := run.approvalId.value;
      var i: nat, j: nat :| i < j && ClearedAt(es, r, i) && ApprovedAt(es, r, j, a)
                  && Quiet(es, r, i, j) && Quiet(es, r, j, |es|);
      assert ClearedAt(es + [e], r, i) && ApprovedAt(es + [e], r, j, a)
             && Quiet(es + [e], r, i, j) && Quiet(es + [e], r, j, |es| + 1);
    }
    if run.status.Submitted? {
      var a := run.approvalId.value;
      var i: nat, j: nat, k: nat :| i < j < k < |es| && ClearedAt(es, r, i) && ApprovedAt(es, r, j, a)
                     && es[k] == Event(r, SubmitRecorded)
                     && Quiet(es, r, i, j) && Quiet(es, r, j, k) && Quiet(es, r, k, |es|);
      var es' := es + [e];
      assert ClearedAt(es', r, i) && ApprovedAt(es', r, j, a) && es'[k] == Event(r, SubmitRecorded)
             && Quiet(es', r, i, j) && Quiet(es', r, j, k) && Quiet(es', r, k, |es'|);
    }
  }

  lemma MoveExtendsTrail(db: Db, r: RunId, run: Run, job: Option<JobStatus>, kind: EventKind)
    requires Trailed(db) && Legal(db, r, run, job, kind)
    ensures Trail(db.events + [Event(r, kind)], r, run)
  {
    var es := db.events;
    var es' := es + [Event(r, kind)];
    assert Trail(es, r, db.runs[r]);
    if run.status.AwaitingSubmitApproval? {
      assert ClearedAt(es', r, |es|) && Quiet(es', r, |es|, |es'|);
    }
    if run.status.SubmitApproved? {
      var i: nat :| ClearedAt(es, r, i) && Quiet(es, r, i, |es|);
      assert ClearedAt(es', r, i) && ApprovedAt(es', r, |es|, run.approvalId.value)
             && Quiet(es', r, i, |es|) && Quiet(es', r, |es|, |es'|);
    }
    if run.status.Submitted? {
      var a := run.approvalId.value;
      var i: nat, j: nat :| i < j && ClearedAt(es, r, i) && ApprovedAt(es, r, j, a)
                  && Quiet(es, r, i, j) && Quiet(es, r, j, |es|);
      var k := |es|;
      assert i < j < k && ClearedAt(es', r, i) && ApprovedAt(es', r, j, a)
             && es'[k] == Event(r, SubmitRecorded)
             && Quiet(es', r, i, j) && Quiet(es', r, j, k) && Quiet(es', r, k, |es'|);
    }
  }

  lemma PostKeepsLog(db: Db, r: RunId, run: Run, job: Option<JobStatus>, kind: EventKind)
    requires Inv(db) && Legal(db, r, run, job, kind)
    ensures var db' := Post(db, r, run, job, kind);
            Sourced(db') && Trailed(db') && FilledOnce(db')
  {
    var db' := Post(db, r, run, job, kind);
    forall q: RunId ensures Replay(db'.events, q) == Stored(db', q) {
      ReplayAppend(db.events, Event(r, kind), q);
      assert Replay(db.events, q) == Stored(db, q);
    }
    forall q | q in db'.runs ensures Trail(db'.events, q, db'.runs[q]) {
      if q == r { MoveExtendsTrail(db, r, run, job, kind); }
      else { AppendKeepsTrail(db.events, Event(r, kind), q, db.runs[q]); }
    }
    forall q: RunId
      ensures FillCount(db'.events, q) <=
              if q in db'.runs && !BeforeFill(db'.runs[q].status) then 1 else 0
    {
      assert db'.events[..|db.events|] == db.events;
      assert FillCount(db.events, q) <=
             if q in db.runs && !BeforeFill(db.runs[q].status) then 1 else 0;
    }
  }

  lemma PostKeepsInv(db: Db, r: RunId, run: Run, job: Option<JobStatus>, kind: EventKind)
    requires Inv(db) && Legal(db, r, run, job, kind)
    ensures Inv(Post(db, r, run, job, kind))
  {
    PostKeepsLog(db, r, run, job, kind);
    var db' := Post(db, r, run, job, kind);
    forall q | q in db'.runs ensures Blocking(db', db'.runs[q]) {
      assert Blocking(db, db.runs[q]);
    }
    forall q | q in db'.runs ensures Approvable(db'.approvals, q, db'.runs[q]) {
      assert Approvable(db.approvals, q, db.runs[q]);
    }
  }
}

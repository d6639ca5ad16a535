/** When waiting ends: how long a lease lasts, and when an unanswered fill or submission is given up. */
module CoordinatorTiming {
  import opened Query
  import opened Sequences
  import opened Wrappers

  import opened CoordinatorModel
  import opened CoordinatorReconcile
  import opened CoordinatorEffects

  // ----- leases -----

  /** The lease is held, and was granted or renewed just now for so many seconds. */
  predicate Granted(db: Db, l: LeaseId, seconds: int) {
    l in db.leases && db.leases[l].status.Active?
    && db.leases[l].heartbeatAt == db.now && db.leases[l].expiresAt == db.now + seconds
  }

  ghost predicate Free(db: Db, r: RunId) {
    forall l | l in db.leases && db.leases[l].run == r :: !db.leases[l].status.Active?
  }

  /** A worker gets the oldest free run that waits for its kind of work, for the seconds it asked for. */
  lemma ClaimTakesOldest(s: System, rows: seq<LeaseId>, t: TaskType, l: LeaseId, runtime: string, seconds: int)
    ensures var o := ClaimNext(s.db, rows, t, l, runtime, seconds);
            var db := Next(s, Claim(rows, t, l, runtime, seconds)).db;
            var waits := if t.FillTask? then FillRequested else InvestigationQueued;
            var swept := ExpireLeases(s.db, rows, false);
            o.reply.LeasedRun? ==>
              var r := o.reply.run;
              && l !in s.db.leases && Granted(db, l, seconds)
              && db.leases[l].run == r && db.leases[l].runtime == runtime && db.leases[l].claimedAt == s.db.now
              && db.runs == s.db.runs && r in db.runs && db.runs[r].status == waits && Free(swept, r)
              && forall q | q in db.runs && q != r && db.runs[q].status == waits && Free(swept, q) :: Older(db, r, q)
  {
    hide ExpireLeases;
    SweptKeepsRows(s.db, rows);
    var o := ClaimNext(s.db, rows, t, l, runtime, seconds);
    if o.reply.LeasedRun? {
      var swept := ExpireLeases(s.db, rows, false);
      forall q | q in swept.runs ensures Leased(swept, q) <==> !Free(swept, q) {}
      assert o.reply.run in PendingRuns(swept, ClaimStatus(t));
      forall q | q in swept.runs && q != o.reply.run && swept.runs[q].status == ClaimStatus(t) && Free(swept, q)
        ensures Older(swept, o.reply.run, q)
      {
        assert q in PendingRuns(swept, ClaimStatus(t));
      }
    }
  }

  /** A claim is refused or in vain only for these reasons. */
  lemma ClaimIsServed(s: System, rows: seq<LeaseId>, t: TaskType, l: LeaseId, runtime: string, seconds: int)
    ensures var reply := ClaimNext(s.db, rows, t, l, runtime, seconds).reply;
            var swept := ExpireLeases(s.db, rows, false);
            && (reply == Rejected(BadArgument) <==> runtime == "" || seconds < 30)
            && (reply.NothingPending? ==> forall q | q in s.db.runs && Free(swept, q) ::
                  s.db.runs[q].status != if t.FillTask? then FillRequested else InvestigationQueued)
            && (reply.Rejected? && !reply.error.BadArgument? ==> l in s.db.leases)
  {
    hide ExpireLeases;
    SweptKeepsRows(s.db, rows);
    var swept := ExpireLeases(s.db, rows, false);
    if ClaimNext(s.db, rows, t, l, runtime, seconds).reply.NothingPending? {
      forall q | q in swept.runs && Free(swept, q) ensures swept.runs[q].status != ClaimStatus(t) {
        assert q !in PendingRuns(swept, ClaimStatus(t));
      }
    }
  }

  function Wait(s: System, elapsed: nat): System { System(s.db.(now := s.db.now + elapsed), s.calls) }

  /** A lease lasts exactly the seconds it was granted for: as long, it can be renewed and completed and
      survives a reconcile pass; from then on it is timed out by the first of these, and by a reconcile pass
      its unfinished run goes to a person. */
  lemma LeaseLastsAsGranted(s: System, l: LeaseId, seconds: int, elapsed: nat, again: int, c: nat, f: FillResult)
    requires Granted(s.db, l, seconds) && again >= 30 && c !in s.calls
    ensures Wait(s, elapsed) == Next(s, Tick(elapsed))
    ensures var later := Wait(s, elapsed);
            if elapsed < seconds then
              && Granted(Next(later, Beat(l, again)).db, l, again)
              && Next(later, BeginCompletion(c, l, f)).calls == s.calls[c := Checked(l, f)]
            else
              && Next(later, Beat(l, again)).db.leases[l].status.TimedOut?
              && Next(later, BeginCompletion(c, l, f)).calls == s.calls
              && Next(later, BeginCompletion(c, l, f)).db.leases[l].status.TimedOut?
  {
  }

  lemma ReconcileEndsLeases(s: System, l: LeaseId, seconds: int, elapsed: nat, ls: seq<LeaseId>, fs: seq<RunId>,
                            ss: seq<RunId>, fillTimeout: int, submitTimeout: Option<int>)
    requires Granted(s.db, l, seconds)
    requires Queried(Wait(s, elapsed).db, ls, fs, ss, fillTimeout)
    ensures var db := Next(Wait(s, elapsed), DoReconcile(ls, fs, ss, fillTimeout, submitTimeout)).db;
            var r := s.db.leases[l].run;
            && l in db.leases && (db.leases[l].status.TimedOut? <==> elapsed >= seconds)
            && (elapsed < seconds ==> db.leases[l] == s.db.leases[l])
            && (elapsed >= seconds && r in s.db.runs && !Terminal(s.db.runs[r].status)
                && !s.db.runs[r].status.ManualReview? ==>
                  r in db.runs && db.runs[r].status.ManualReview?
                  && db.runs[r].reviewReason == Some("worker_timeout"))
  {
    hide Reconcile;
    var later := Wait(s, elapsed).db;
    ReconcileComputes(later, ls, fs, ss, fillTimeout, submitTimeout);
    assert Due(later, l) <==> elapsed >= seconds;
    hide Queried, HasLiveLease, NextCalls;
  }

  /** Completing a live lease, with nothing in between, is posting the result to the run the lease is for, as
      an investigation's if one is queued and as a fill's otherwise; then the lease is completed. */
  lemma CompletionDelivers(s: System, c: nat, l: LeaseId, f: FillResult)
    requires c !in s.calls && l in s.db.leases && s.db.leases[l].status.Active? && s.db.leases[l].expiresAt > s.db.now
    requires s.db.leases[l].run in s.db.runs
    ensures var r := s.db.leases[l].run;
            var routed := Next(Next(s, BeginCompletion(c, l, f)), RouteCompletion(c));
            var recorded := Next(routed, RecordCompletion(c));
            var posted := Next(s, if s.db.runs[r].status.InvestigationQueued? then PostInvestigation(r)
                                  else PostFill(r, f)).db;
            var done := Next(recorded, EndCompletion(c)).db;
            && recorded.db == posted
            && (posted != s.db ==>
                  && done.runs == posted.runs && done.jobs == posted.jobs
                  && done.leases == posted.leases[l := s.db.leases[l].(status := Completed,
                                                                       completedAt := Some(s.db.now))]
                  && done.events == posted.events + [Event(r, LeaseCompleted(l))])
            && (posted == s.db ==> done == s.db)
  {
    var r := s.db.leases[l].run;
    var investigate := s.db.runs[r].status.InvestigationQueued?;
    CompletionStarts(s, c, l, f);
    CompletionEnds(System(s.db, s.calls[c := Routed(l, f, investigate)]), c, l, f, investigate);
    hide RecordFillResult, RecordInvestigationResult, CheckLease, CloseLease;
  }

  lemma CompletionStarts(s: System, c: nat, l: LeaseId, f: FillResult)
    requires c !in s.calls && l in s.db.leases && s.db.leases[l].status.Active? && s.db.leases[l].expiresAt > s.db.now
    requires s.db.leases[l].run in s.db.runs
    ensures var investigate := s.db.runs[s.db.leases[l].run].status.InvestigationQueued?;
            Next(Next(s, BeginCompletion(c, l, f)), RouteCompletion(c))
            == System(s.db, s.calls[c := Routed(l, f, investigate)])
  {
    hide RecordRouted, CloseLease;
    var begun := Next(s, BeginCompletion(c, l, f));
    assert begun == System(s.db, s.calls[c := Checked(l, f)]);
  }

  lemma CompletionEnds(s: System, c: nat, l: LeaseId, f: FillResult, investigate: bool)
    requires c in s.calls && s.calls[c] == Routed(l, f, investigate) && l in s.db.leases
    ensures var r := s.db.leases[l].run;
            var recorded := Next(s, RecordCompletion(c));
            var posted := Next(s, if investigate then PostInvestigation(r) else PostFill(r, f)).db;
            var done := Next(recorded, EndCompletion(c)).db;
            && recorded.db == posted
            && (posted != s.db ==>
                  && done.runs == posted.runs && done.jobs == posted.jobs
                  && done.leases == posted.leases[l := s.db.leases[l].(status := Completed,
                                                                       completedAt := Some(s.db.now))]
                  && done.events == posted.events + [Event(r, LeaseCompleted(l))])
            && (posted == s.db ==> done == s.db)
  {
    PostIsRecorded(s.db, s.db.leases[l].run, f);
    hide RecordFillResult, RecordInvestigationResult, CheckLease;
  }

  lemma PostIsRecorded(db: Db, r: RunId, f: FillResult)
    ensures var fill := RecordFillResult(db, r, f);
            && fill.db.leases == db.leases && fill.db.now == db.now && (fill.reply.Rejected? <==> fill.db == db)
    ensures var found := RecordInvestigationResult(db, r);
            && found.db.leases == db.leases && found.db.now == db.now && (found.reply.Rejected? <==> found.db == db)
  {
    assert RecordFillResult(db, r, f).reply.Done? ==>
        |RecordFillResult(db, r, f).db.events| == |db.events| + 1;
    assert RecordInvestigationResult(db, r).reply.Done? ==>
        |RecordInvestigationResult(db, r).db.events| == |db.events| + 1;
  }

  // ----- unanswered runs -----

  lemma FreeHasNoLease(db: Db, r: RunId)
    requires Free(db, r)
    ensures !HasDueLease(db, r) && !HasLiveLease(db, r)
  {
  }

  /** A reconcile pass gives up a run that waits for a fill, or for the confirmation of a submission, without
      a lease exactly if its last change lies that far back. */
  lemma ReconcileGivesUp(s: System, r: RunId, ls: seq<LeaseId>, fs: seq<RunId>, ss: seq<RunId>, fillTimeout: int,
                         submitTimeout: Option<int>)
    requires r in s.db.runs && Free(s.db, r) && Queried(s.db, ls, fs, ss, fillTimeout)
    ensures var was := s.db.runs[r];
            var db := Next(s, DoReconcile(ls, fs, ss, fillTimeout, submitTimeout)).db;
            && r in db.runs
            && (was.status.FillRequested? ==>
                  db.runs[r].status == (if s.db.now - was.updatedAt >= fillTimeout then ManualReview else was.status)
                  && (db.runs[r].status.ManualReview? ==> db.runs[r].reviewReason == Some("worker_timeout")))
            && (was.status.SubmitApproved? ==>
                  db.runs[r].status == (if submitTimeout.Some? && s.db.now - was.updatedAt >= submitTimeout.value
                                        then ManualReview else was.status)
                  && (db.runs[r].status.ManualReview? ==> db.runs[r].reviewReason == Some("submit_not_confirmed")))
  {
    hide Reconcile, Queried;
    ReconcileComputes(s.db, ls, fs, ss, fillTimeout, submitTimeout);
    FreeHasNoLease(s.db, r);
    hide HasDueLease, HasLiveLease, Free, SameKeys;
  }

  /** A requested fill nobody has leased is given up once it has waited for the timeout, and not before. */
  lemma FillTimesOut(s: System, r: RunId, elapsed: nat, ls: seq<LeaseId>, fs: seq<RunId>, ss: seq<RunId>,
                     fillTimeout: int, submitTimeout: Option<int>)
    requires r in s.db.runs && s.db.runs[r].status.ApplyPrepared? && Free(s.db, r)
    requires Queried(Wait(Next(s, AskFill(r)), elapsed).db, ls, fs, ss, fillTimeout)
    ensures var db := Next(Wait(Next(s, AskFill(r)), elapsed), DoReconcile(ls, fs, ss, fillTimeout, submitTimeout)).db;
            && r in db.runs
            && (elapsed >= fillTimeout ==>
                  db.runs[r].status.ManualReview? && db.runs[r].reviewReason == Some("worker_timeout"))
            && (elapsed < fillTimeout ==> db.runs[r].status.FillRequested?)
  {
    var later := Wait(Next(s, AskFill(r)), elapsed);
    AskedNow(s, r);
    hide Next, Queried;
    ReconcileGivesUp(later, r, ls, fs, ss, fillTimeout, submitTimeout);
  }

  lemma AskedNow(s: System, r: RunId)
    requires r in s.db.runs && s.db.runs[r].status.ApplyPrepared? && Free(s.db, r)
    ensures var db := Next(s, AskFill(r)).db;
            r in db.runs && db.runs[r].status.FillRequested? && db.runs[r].updatedAt == db.now && Free(db, r)
  {
    hide NextCalls;
  }

  /** An approved submission nobody has confirmed likewise, if a timeout for it is given. */
  lemma SubmitTimesOut(s: System, r: RunId, a: ApprovalId, elapsed: nat, ls: seq<LeaseId>, fs: seq<RunId>,
                       ss: seq<RunId>, fillTimeout: int, submitTimeout: Option<int>)
    requires r in s.db.runs && s.db.runs[r].status.AwaitingSubmitApproval? && a !in s.db.approvals && Free(s.db, r)
    requires Queried(Wait(Next(s, GateSubmit(r, a, "approve")), elapsed).db, ls, fs, ss, fillTimeout)
    ensures var db := Next(Wait(Next(s, GateSubmit(r, a, "approve")), elapsed),
                           DoReconcile(ls, fs, ss, fillTimeout, submitTimeout)).db;
            && r in db.runs
            && (submitTimeout.Some? && elapsed >= submitTimeout.value ==>
                  db.runs[r].status.ManualReview? && db.runs[r].reviewReason == Some("submit_not_confirmed"))
            && (submitTimeout.None? || elapsed < submitTimeout.value ==> db.runs[r].status.SubmitApproved?)
  {
    var later := Wait(Next(s, GateSubmit(r, a, "approve")), elapsed);
    ApprovedNow(s, r, a);
    hide Next, Queried;
    ReconcileGivesUp(later, r, ls, fs, ss, fillTimeout, submitTimeout);
  }

  lemma ApprovedNow(s: System, r: RunId, a: ApprovalId)
    requires r in s.db.runs && s.db.runs[r].status.AwaitingSubmitApproval? && a !in s.db.approvals && Free(s.db, r)
    ensures var db := Next(s, GateSubmit(r, a, "approve")).db;
            r in db.runs && db.runs[r].status.SubmitApproved? && db.runs[r].updatedAt == db.now && Free(db, r)
  {
    hide NextCalls;
  }

  // ----- what giving up means -----

  /** The row of an unfinished run that was handed to a person, with the reason to show. */
  ghost predicate HandedOver(was: Run, run: Run, now: int) {
    && !Terminal(was.status) && !was.status.ManualReview?
    && run.job == was.job && run.startedAt == was.startedAt && run.submitAllowed == was.submitAllowed
    && run.approvalId == was.approvalId && run.failureCode == was.failureCode
    && run.status.ManualReview? && run.reviewRequired && run.completedAt.None? && run.updatedAt == now
    && exists reason | reason in {"worker_timeout", "submit_not_confirmed"} ::
         run.reviewReason == Some(reason) && run.reviewFlags == [reason]
  }

  ghost predicate LostRun(db: Db, db': Db, j: JobId)
    requires db.runs.Keys == db'.runs.Keys
  {
    exists r | r in db.runs :: db.runs[r].job == j && db'.runs[r] != db.runs[r]
  }

  /** Runs are handed over or left alone. */
  ghost predicate RunsGivenUp(db: Db, db': Db) {
    && db'.now == db.now && db'.runs.Keys == db.runs.Keys
    && forall r | r in db.runs :: db'.runs[r] == db.runs[r] || HandedOver(db.runs[r], db'.runs[r], db.now)
  }

  /** And the jobs of those handed over are claimed, all others left alone. */
  ghost predicate GivesUp(db: Db, db': Db) {
    && RunsGivenUp(db, db') && db'.jobs.Keys == db.jobs.Keys
    && forall j | j in db.jobs ::
         db'.jobs[j] == if LostRun(db, db', j) then db.jobs[j].(status := Claimed) else db.jobs[j]
  }

  lemma RunsGivenUpChain(a: Db, b: Db, c: Db)
    requires RunsGivenUp(a, b) && RunsGivenUp(b, c)
    ensures RunsGivenUp(a, c)
    ensures forall j :: LostRun(a, c, j) <==> LostRun(a, b, j) || LostRun(b, c, j)
  {
    forall r | r in a.runs
      ensures c.runs[r] == a.runs[r] || HandedOver(a.runs[r], c.runs[r], a.now)
      ensures c.runs[r] != a.runs[r] <==> b.runs[r] != a.runs[r] || c.runs[r] != b.runs[r]
    {
    }
    hide HandedOver;
    forall j ensures LostRun(a, c, j) <==> LostRun(a, b, j) || LostRun(b, c, j) {
      if LostRun(a, b, j) { var r :| r in a.runs && a.runs[r].job == j && b.runs[r] != a.runs[r]; }
      if LostRun(b, c, j) { var r :| r in b.runs && b.runs[r].job == j && c.runs[r] != b.runs[r]; }
    }
  }

  lemma GivesUpChain(a: Db, b: Db, c: Db)
    requires GivesUp(a, b) && GivesUp(b, c)
    ensures GivesUp(a, c)
  {
    RunsGivenUpChain(a, b, c);
    hide RunsGivenUp, LostRun;
  }

  lemma MarkGivesUp(db: Db, r: RunId, reason: string)
    requires reason in {"worker_timeout", "submit_not_confirmed"}
    ensures GivesUp(db, MarkManualReview(db, r, reason))
  {
  }

  lemma {:induction false} ExpiryGivesUp(db: Db, rows: seq<LeaseId>)
    ensures GivesUp(db, ExpireLeases(db, rows, true))
  {
    hide GivesUp, MarkManualReview;
    NothingGivenUp(db, db);
    if rows != [] {
      var most, l := ExpireLeases(db, rows[..|rows|-1], true), rows[|rows|-1];
      ExpiryGivesUp(db, rows[..|rows|-1]);
      if Due(most, l) {
        var closed := CloseRow(most, l, TimedOut);
        NothingGivenUp(most, closed);
        MarkGivesUp(closed, most.leases[l].run, "worker_timeout");
        GivesUpChain(most, closed, ExpireLeases(db, rows, true));
        GivesUpChain(db, most, ExpireLeases(db, rows, true));
      }
    }
  }

  lemma NothingGivenUp(db: Db, db': Db)
    requires db'.runs == db.runs && db'.jobs == db.jobs && db'.now == db.now
    ensures GivesUp(db, db')
  {
  }

  lemma {:induction false} FillTimeoutsGiveUp(db: Db, rows: seq<RunId>, cutoff: int)
    ensures GivesUp(db, TimeOutFills(db, rows, cutoff))
  {
    hide GivesUp, MarkManualReview;
    NothingGivenUp(db, db);
    if rows != [] {
      var most := TimeOutFills(db, rows[..|rows|-1], cutoff);
      FillTimeoutsGiveUp(db, rows[..|rows|-1], cutoff);
      MarkGivesUp(most, rows[|rows|-1], "worker_timeout");
      NothingGivenUp(most, most);
      GivesUpChain(db, most, TimeOutFills(db, rows, cutoff));
    }
  }

  lemma {:induction false} SubmitTimeoutsGiveUp(db: Db, rows: seq<RunId>, cutoff: int)
    ensures GivesUp(db, TimeOutSubmits(db, rows, cutoff))
  {
    hide GivesUp, MarkManualReview;
    NothingGivenUp(db, db);
    if rows != [] {
      var most := TimeOutSubmits(db, rows[..|rows|-1], cutoff);
      SubmitTimeoutsGiveUp(db, rows[..|rows|-1], cutoff);
      MarkGivesUp(most, rows[|rows|-1], "submit_not_confirmed");
      NothingGivenUp(most, most);
      GivesUpChain(db, most, TimeOutSubmits(db, rows, cutoff));
    }
  }

  /** A reconcile pass changes runs and jobs in no other way. */
  lemma ReconcileHandsOver(db: Db, ls: seq<LeaseId>, fs: seq<RunId>, ss: seq<RunId>, fillTimeout: int,
                           submitTimeout: Option<int>)
    ensures GivesUp(db, Reconcile(db, ls, fs, ss, fillTimeout, submitTimeout))
  {
    hide GivesUp, ExpireLeases, TimeOutFills, TimeOutSubmits;
    var expired := ExpireLeases(db, ls, true);
    ExpiryGivesUp(db, ls);
    FillTimeoutsGiveUp(expired, fs, db.now - fillTimeout);
    var filled := TimeOutFills(expired, fs, db.now - fillTimeout);
    GivesUpChain(db, expired, filled);
    if submitTimeout.Some? {
      SubmitTimeoutsGiveUp(filled, ss, db.now - submitTimeout.value);
      GivesUpChain(db, filled, TimeOutSubmits(filled, ss, db.now - submitTimeout.value));
    }
  }
}

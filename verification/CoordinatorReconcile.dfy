/** What one reconcile pass does to every row, in closed form, and that a second pass does nothing. */
module CoordinatorReconcile {
  import opened Wrappers
  import opened Query
  import opened CoordinatorModel

  predicate Markable(s: RunStatus) { !Terminal(s) && !s.ManualReview? }

  function Marked(run: Run, reason: string, now: int): Run {
    run.(status := ManualReview, reviewRequired := true, reviewReason := Some(reason),
         reviewFlags := [reason], updatedAt := now, completedAt := None)
  }

  /** The runs whose due leases are among the rows. */
  function HitRuns(db: Db, rows: seq<LeaseId>): set<RunId> {
    set l | l in rows && Due(db, l) :: db.leases[l].run
  }

  ghost predicate HasDueLease(db: Db, r: RunId) {
    exists l :: Due(db, l) && db.leases[l].run == r
  }

  ghost predicate HasLiveLease(db: Db, r: RunId) {
    exists l | l in db.leases :: db.leases[l].status.Active? && !Due(db, l) && db.leases[l].run == r
  }

  /** Why a run is sent to manual review, if it is. */
  ghost function Reason(db: Db, r: RunId, fillTimeout: int, submitTimeout: Option<int>): Option<string>
    requires r in db.runs
  {
    var run := db.runs[r];
    if !Markable(run.status) then None
    else if HasDueLease(db, r) then Some("worker_timeout")
    else if run.status.FillRequested? && !HasLiveLease(db, r) && run.updatedAt <= db.now - fillTimeout
    then Some("worker_timeout")
    else if run.status.SubmitApproved? && submitTimeout.Some?
            && run.updatedAt <= db.now - submitTimeout.value
    then Some("submit_not_confirmed")
    else None
  }

  lemma RowsGrow(db: Db, rows: seq<LeaseId>, i: nat)
    requires i < |rows|
    ensures rows[..i + 1] == rows[..i] + [rows[i]] && rows[..i + 1][..i] == rows[..i]
    ensures HitRuns(db, rows[..i + 1]) ==
            HitRuns(db, rows[..i]) + if Due(db, rows[i]) then {db.leases[rows[i]].run} else {}
  {
    assert rows[..i + 1] == rows[..i] + [rows[i]];
  }

  function ClosedIf(db: Db, l: LeaseId, hit: bool): Lease
    requires l in db.leases
  {
    if hit && Due(db, l) then db.leases[l].(status := TimedOut, completedAt := Some(db.now))
    else db.leases[l]
  }

  /** The rows are the same rows and time has not moved. */
  ghost predicate SameKeys(db: Db, db': Db) {
    db'.now == db.now && db'.runs.Keys == db.runs.Keys && db'.leases.Keys == db.leases.Keys
  }

  lemma {:induction false} UnseenLeaseUntouched(db: Db, rows: seq<LeaseId>, l: LeaseId, markRuns: bool)
    requires l in db.leases && l !in rows
    ensures var db' := ExpireLeases(db, rows, markRuns);
            db'.now == db.now && l in db'.leases && db'.leases[l] == db.leases[l]
  {
    if rows != [] { UnseenLeaseUntouched(db, rows[..|rows|-1], l, markRuns); }
  }

  lemma ExpireLeaseComputes(db: Db, x: LeaseId)
    ensures var db' := ExpireLease(db, x, true);
            && SameKeys(db, db')
            && (forall l | l in db.leases :: db'.leases[l] == ClosedIf(db, l, l == x))
            && (forall r | r in db.runs ::
                  db'.runs[r] == if Markable(db.runs[r].status) && Due(db, x) && db.leases[x].run == r
                                 then Marked(db.runs[r], "worker_timeout", db.now) else db.runs[r])
  {
  }

  lemma {:induction false} ExpireLeasesComputes(db: Db, rows: seq<LeaseId>)
    ensures var db' := ExpireLeases(db, rows, true);
            && SameKeys(db, db')
            && (forall l | l in db.leases :: db'.leases[l] == ClosedIf(db, l, l in rows))
            && (forall r | r in db.runs ::
                  db'.runs[r] == if Markable(db.runs[r].status) && r in HitRuns(db, rows)
                                 then Marked(db.runs[r], "worker_timeout", db.now) else db.runs[r])
  {
    if rows != [] {
      var init := rows[..|rows|-1];
      var x := rows[|rows|-1];
      ExpireLeasesComputes(db, init);
      var most := ExpireLeases(db, init, true);
      ExpireLeaseComputes(most, x);
      hide ExpireLease;
      assert Due(most, x) <==> Due(db, x) && x !in init;
      RowsGrow(db, rows, |rows| - 1);
      assert rows[..|rows|] == rows;
    }
  }

  predicate StaleFill(db: Db, r: RunId, cutoff: int) {
    r in db.runs && db.runs[r].status.FillRequested? && !Leased(db, r)
    && db.runs[r].updatedAt <= cutoff
  }

  lemma {:induction false} TimeOutFillsComputes(db: Db, rows: seq<RunId>, cutoff: int)
    ensures var db' := TimeOutFills(db, rows, cutoff);
            && SameKeys(db, db') && db'.leases == db.leases
            && forall r | r in db.runs ::
                 db'.runs[r] == if r in rows && StaleFill(db, r, cutoff)
                                then Marked(db.runs[r], "worker_timeout", db.now) else db.runs[r]
  {
    if rows != [] {
      TimeOutFillsComputes(db, rows[..|rows|-1], cutoff);
      assert rows == rows[..|rows|-1] + [rows[|rows|-1]];
      var most := TimeOutFills(db, rows[..|rows|-1], cutoff);
      assert forall r: RunId :: Leased(most, r) == Leased(db, r);
    }
  }

  ghost predicate NoStaleFill(db: Db, cutoff: int) { forall r: RunId :: !StaleFill(db, r, cutoff) }

  ghost predicate NoStaleSubmit(db: Db, cutoff: int) {
    forall r: RunId :: !StaleSubmit(db, r, cutoff)
  }

  predicate StaleSubmit(db: Db, r: RunId, cutoff: int) {
    r in db.runs && db.runs[r].status.SubmitApproved? && db.runs[r].updatedAt <= cutoff
  }

  lemma {:induction false} TimeOutSubmitsComputes(db: Db, rows: seq<RunId>, cutoff: int)
    ensures var db' := TimeOutSubmits(db, rows, cutoff);
            && SameKeys(db, db') && db'.leases == db.leases
            && forall r | r in db.runs ::
                 db'.runs[r] == if r in rows && StaleSubmit(db, r, cutoff)
                                then Marked(db.runs[r], "submit_not_confirmed", db.now)
                                else db.runs[r]
  {
    if rows != [] {
      TimeOutSubmitsComputes(db, rows[..|rows|-1], cutoff);
      assert rows == rows[..|rows|-1] + [rows[|rows|-1]];
    }
  }

  /** The row lists hold at least what the three queries select, each when it runs. */
  ghost predicate Queried(db: Db, ls: seq<LeaseId>, fs: seq<RunId>, ss: seq<RunId>,
                          fillTimeout: int)
  {
    var expired := ExpireLeases(db, ls, true);
    var filled := TimeOutFills(expired, fs, db.now - fillTimeout);
    && (forall l | l in db.leases && db.leases[l].status.Active? :: l in ls)
    && (forall r | r in expired.runs && expired.runs[r].status.FillRequested? :: r in fs)
    && (forall r | r in filled.runs && filled.runs[r].status.SubmitApproved? :: r in ss)
  }

  lemma LeasedAfterExpiry(db: Db, ls: seq<LeaseId>, r: RunId)
    requires forall l | l in db.leases && db.leases[l].status.Active? :: l in ls
    ensures Leased(ExpireLeases(db, ls, true), r) <==> HasLiveLease(db, r)
    ensures (r in HitRuns(db, ls)) == HasDueLease(db, r)
  {
    ExpireLeasesComputes(db, ls);
    var expired := ExpireLeases(db, ls, true);
    if HasLiveLease(db, r) {
      var l :| l in db.leases && db.leases[l].status.Active? && !Due(db, l) && db.leases[l].run == r;
      assert expired.leases[l] == db.leases[l];
    }
    if Leased(expired, r) {
      var l :| l in expired.leases && expired.leases[l].run == r && expired.leases[l].status.Active?;
      assert !Due(db, l) && db.leases[l].run == r;
    }
  }

  /** The run row a reason leads to. */
  function Reviewed(run: Run, reason: Option<string>, now: int): Run {
    if reason.Some? then Marked(run, reason.value, now) else run
  }

  lemma FillSweepComputes(db: Db, ls: seq<LeaseId>, fs: seq<RunId>, ss: seq<RunId>,
                          fillTimeout: int)
    requires Queried(db, ls, fs, ss, fillTimeout)
    ensures var db' := TimeOutFills(ExpireLeases(db, ls, true), fs, db.now - fillTimeout);
            && SameKeys(db, db')
            && (forall l | l in db.leases :: db'.leases[l] == ClosedIf(db, l, true))
            && (forall r | r in db.runs ::
                  db'.runs[r] == Reviewed(db.runs[r], Reason(db, r, fillTimeout, None), db.now))
  {
    hide ExpireLeases, TimeOutFills, HitRuns, HasDueLease, HasLiveLease, Leased;
    ExpireLeasesComputes(db, ls);
    TimeOutFillsComputes(ExpireLeases(db, ls, true), fs, db.now - fillTimeout);
    forall r | r in db.runs
      ensures Leased(ExpireLeases(db, ls, true), r) <==> HasLiveLease(db, r)
      ensures (r in HitRuns(db, ls)) == HasDueLease(db, r)
    {
      LeasedAfterExpiry(db, ls, r);
    }
  }

  /** Every row after a reconcile pass, whatever order the queries answer in: exactly the due
      leases are closed and exactly the runs with a reason are sent to manual review. */
  lemma ReconcileComputes(db: Db, ls: seq<LeaseId>, fs: seq<RunId>, ss: seq<RunId>,
                          fillTimeout: int, submitTimeout: Option<int>)
    requires Queried(db, ls, fs, ss, fillTimeout)
    ensures var db' := Reconcile(db, ls, fs, ss, fillTimeout, submitTimeout);
            && SameKeys(db, db')
            && (forall l | l in db.leases :: db'.leases[l] == ClosedIf(db, l, true))
            && (forall r | r in db.runs ::
                  db'.runs[r] == Reviewed(db.runs[r], Reason(db, r, fillTimeout, submitTimeout), db.now))
  {
    hide ExpireLeases, TimeOutFills, TimeOutSubmits, HasDueLease, HasLiveLease;
    FillSweepComputes(db, ls, fs, ss, fillTimeout);
    var filled := TimeOutFills(ExpireLeases(db, ls, true), fs, db.now - fillTimeout);
    if submitTimeout.Some? {
      TimeOutSubmitsComputes(filled, ss, db.now - submitTimeout.value);
    }
  }

  /** Nothing is left to time out: no lease is due, every requested fill is leased or fresh, every
      approved submit is fresh when a submit timeout is given, and finished runs are untouched. */
  lemma ReconcileLeavesNothingDue(db: Db, ls: seq<LeaseId>, fs: seq<RunId>, ss: seq<RunId>,
                                  fillTimeout: int, submitTimeout: Option<int>)
    requires Queried(db, ls, fs, ss, fillTimeout)
    ensures var db' := Reconcile(db, ls, fs, ss, fillTimeout, submitTimeout);
            && SameKeys(db, db')
            && (forall l: LeaseId :: !Due(db', l))
            && NoStaleFill(db', db.now - fillTimeout)
            && (submitTimeout.Some? ==> NoStaleSubmit(db', db.now - submitTimeout.value))
            && (forall r | r in db.runs && Terminal(db.runs[r].status) :: db'.runs[r] == db.runs[r])
  {
    ReconcileComputes(db, ls, fs, ss, fillTimeout, submitTimeout);
    var db' := Reconcile(db, ls, fs, ss, fillTimeout, submitTimeout);
    var cutoff := db.now - fillTimeout;
    forall r: RunId ensures !StaleFill(db', r, cutoff) {
      if r in db.runs && HasLiveLease(db, r) {
        var l :| l in db.leases && db.leases[l].status.Active? && !Due(db, l) && db.leases[l].run == r;
        assert db'.leases[l] == db.leases[l];
        assert Leased(db', r);
      }
    }
  }

  lemma {:induction false} NoDueLeaseNoExpiry(db: Db, rows: seq<LeaseId>)
    requires forall l: LeaseId :: !Due(db, l)
    ensures ExpireLeases(db, rows, true) == db
  {
    if rows != [] { NoDueLeaseNoExpiry(db, rows[..|rows|-1]); }
  }

  lemma {:induction false} NoStaleFillNoMark(db: Db, rows: seq<RunId>, cutoff: int)
    requires NoStaleFill(db, cutoff)
    ensures TimeOutFills(db, rows, cutoff) == db
  {
    if rows != [] {
      NoStaleFillNoMark(db, rows[..|rows|-1], cutoff);
      assert !StaleFill(db, rows[|rows|-1], cutoff);
    }
  }

  lemma {:induction false} NoStaleSubmitNoMark(db: Db, rows: seq<RunId>, cutoff: int)
    requires NoStaleSubmit(db, cutoff)
    ensures TimeOutSubmits(db, rows, cutoff) == db
  {
    if rows != [] {
      NoStaleSubmitNoMark(db, rows[..|rows|-1], cutoff);
      assert !StaleSubmit(db, rows[|rows|-1], cutoff);
    }
  }

  /** Reconciling again at the same time changes nothing at all, not even the event log. */
  lemma ReconcileIsIdempotent(db: Db, ls: seq<LeaseId>, fs: seq<RunId>, ss: seq<RunId>,
                              fillTimeout: int, submitTimeout: Option<int>,
                              ls': seq<LeaseId>, fs': seq<RunId>, ss': seq<RunId>)
    requires Queried(db, ls, fs, ss, fillTimeout)
    ensures var db' := Reconcile(db, ls, fs, ss, fillTimeout, submitTimeout);
            Reconcile(db', ls', fs', ss', fillTimeout, submitTimeout) == db'
  {
    var db' := Reconcile(db, ls, fs, ss, fillTimeout, submitTimeout);
    ReconcileLeavesNothingDue(db, ls, fs, ss, fillTimeout, submitTimeout);
    NoDueLeaseNoExpiry(db', ls');
    NoStaleFillNoMark(db', fs', db.now - fillTimeout);
    if submitTimeout.Some? { NoStaleSubmitNoMark(db', ss', db.now - submitTimeout.value); }
  }
}

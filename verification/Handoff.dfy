/**
  Handing prepared jobs to the application service one at a time, and what is reported about each
  when a transfer stops half-way.
 */
module Handoff {
  import opened Sequences
  import opened Wrappers

  datatype Status = NotSent | Unconfirmed | Confirmed
  datatype Outcome = Outcome(job: nat, status: Status)

  /** One entry of a confirmation list, with the job it names. */
  datatype Ack = Ack(source: Option<nat>, reference: string)

  /** What came back for one transfer: no usable connection, or a response with its parsed list. */
  datatype Answer = Unreachable(code: nat) | Responded(code: nat, accepted: Option<seq<Ack>>)

  datatype Reply =
    | BadSelection
    | Refused(code: nat, outcomes: seq<Outcome>)
    | Stopped(code: nat, queued: seq<Ack>, outcomes: seq<Outcome>)
    | Done(queued: seq<Ack>)

  /** First occurrences, in order. */
  function Dedupe(ids: seq<nat>): (r: seq<nat>)
    ensures Distinct(r) && forall i: nat :: i in r <==> i in ids
  {
    if ids == [] then []
    else
      var n := |ids| - 1;
      var before := Dedupe(ids[..n]);
      assert ids == ids[..n] + [ids[n]];
      if ids[n] in before then before else before + [ids[n]]
  }

  /** A job comes before another exactly as it first occurs before it. */
  lemma {:induction false} DedupeKeepsFirst(ids: seq<nat>, i: nat, k: nat)
    requires i < k < |Dedupe(ids)|
    ensures exists p | 0 <= p <= |ids| :: Dedupe(ids)[i] in ids[..p] && Dedupe(ids)[k] !in ids[..p]
  {
    var n := |ids| - 1;
    var before := Dedupe(ids[..n]);
    if k < |before| {
      DedupeKeepsFirst(ids[..n], i, k);
      var p :| 0 <= p <= n && before[i] in ids[..n][..p] && before[k] !in ids[..n][..p];
      assert ids[..n][..p] == ids[..p];
    } else {
      assert before[i] in before && 0 <= n <= |ids|;
    }
  }

  predicate ValidSelection(ids: seq<int>) {
    1 <= |ids| <= 30 && forall i | 0 <= i < |ids| :: ids[i] >= 1
  }

  function Naturals(ids: seq<int>): seq<nat>
    requires ValidSelection(ids)
  {
    seq(|ids|, i requires 0 <= i < |ids| => ids[i])
  }

  // ----- validating the whole selection -----

  /** The first rejection among the jobs; `check` is the error code of a job that is not ready. */
  function FirstRejection(jobs: seq<nat>, check: nat -> Option<nat>): Option<nat> {
    if jobs == [] then None
    else
      var before := FirstRejection(jobs[..|jobs|-1], check);
      if before.Some? then before else check(jobs[|jobs|-1])
  }

  lemma {:induction false} NoRejection(jobs: seq<nat>, check: nat -> Option<nat>)
    ensures FirstRejection(jobs, check).None? <==> forall i | 0 <= i < |jobs| :: check(jobs[i]).None?
  {
    if jobs != [] {
      NoRejection(jobs[..|jobs|-1], check);
      assert forall i | 0 <= i < |jobs| - 1 :: jobs[..|jobs|-1][i] == jobs[i];
    }
  }

  /** The rejection reported is that of the first job rejected. */
  lemma {:induction false} FirstRejectionIsFirst(jobs: seq<nat>, check: nat -> Option<nat>, i: nat)
    requires i < |jobs| && check(jobs[i]).Some? && forall k | 0 <= k < i :: check(jobs[k]).None?
    ensures FirstRejection(jobs, check) == check(jobs[i])
  {
    var n := |jobs| - 1;
    if i < n {
      FirstRejectionIsFirst(jobs[..n], check, i);
    } else {
      NoRejection(jobs[..n], check);
    }
  }

  method PreparedJobs(ids: seq<nat>, check: nat -> Option<nat>) returns (jobs: seq<nat>, error: Option<nat>)
    ensures error == FirstRejection(Dedupe(ids), check)
    ensures error.None? ==> jobs == Dedupe(ids)
  {
    var distinct := Dedupe(ids);
    jobs := [];
    for i := 0 to |distinct|
      invariant jobs == distinct[..i] && FirstRejection(distinct[..i], check).None?
    {
      assert distinct[..i + 1][..i] == distinct[..i];
      var rejected := check(distinct[i]);
      if rejected.Some? {
        RejectionStands(distinct, check, i + 1);
        return jobs, rejected;
      }
      jobs := jobs + [distinct[i]];
    }
    assert distinct[..|distinct|] == distinct;
    error := None;
  }

  lemma {:induction false} RejectionStands(jobs: seq<nat>, check: nat -> Option<nat>, n: nat)
    requires n <= |jobs| && FirstRejection(jobs[..n], check).Some?
    ensures FirstRejection(jobs, check) == FirstRejection(jobs[..n], check)
    decreases |jobs| - n
  {
    if n == |jobs| {
      assert jobs[..n] == jobs;
    } else {
      assert jobs[..n + 1][..n] == jobs[..n];
      RejectionStands(jobs, check, n + 1);
    }
  }

  // ----- the ledger of a transfer -----

  /** The service confirmed exactly this job. */
  predicate Confirms(answer: Answer, job: nat) {
    answer.Responded? && answer.code < 400 && answer.accepted.Some?
    && |answer.accepted.value| == 1 && answer.accepted.value[0].source == Some(job)
  }

  /** The code reported for an answer that is no confirmation. */
  function FailureCode(answer: Answer): nat {
    if answer.Unreachable? then answer.code else if answer.code >= 400 then answer.code else 502
  }

  /** How many transfers are confirmed before the first that is not; `answer(k, job)` is the k-th answer. */
  function ConfirmedCount(jobs: seq<nat>, answer: (nat, nat) -> Answer): (k: nat)
    ensures k <= |jobs|
    ensures forall i: nat | i < k :: Confirms(answer(i, jobs[i]), jobs[i])
    ensures k < |jobs| ==> !Confirms(answer(k, jobs[k]), jobs[k])
  {
    if jobs == [] then 0
    else
      var n := |jobs| - 1;
      var k := ConfirmedCount(jobs[..n], answer);
      if k == n && Confirms(answer(n, jobs[n]), jobs[n]) then n + 1 else k
  }

  /** A confirmed prefix, at most one unconfirmed entry, then entries not sent. */
  function Ledger(jobs: seq<nat>, confirmed: nat): seq<Outcome> {
    seq(|jobs|, i requires 0 <= i < |jobs| =>
      Outcome(jobs[i], if i < confirmed then Confirmed else if i == confirmed then Unconfirmed else NotSent))
  }

  function Untouched(jobs: seq<nat>): seq<Outcome> {
    seq(|jobs|, i requires 0 <= i < |jobs| => Outcome(jobs[i], NotSent))
  }

  /** The confirmations received, in order, each for its job. */
  ghost predicate Acknowledges(queued: seq<Ack>, jobs: seq<nat>, answer: (nat, nat) -> Answer) {
    |queued| <= |jobs| && forall i: nat | i < |queued| ::
      Confirms(answer(i, jobs[i]), jobs[i]) && queued[i] == answer(i, jobs[i]).accepted.value[0]
  }

  /** What a client can conclude from the outcomes: confirmed jobs are those the service confirmed,
      jobs not sent were never transferred, and only the last transfer can be in doubt. */
  lemma OutcomesTellTheTruth(jobs: seq<nat>, answer: (nat, nat) -> Answer, i: nat)
    requires Distinct(jobs) && i < |jobs|
    ensures var k := ConfirmedCount(jobs, answer);
            var sent := if k < |jobs| then jobs[..k + 1] else jobs;
            var status := Ledger(jobs, k)[i].status;
            && (status.NotSent? <==> jobs[i] !in sent)
            && (status.Confirmed? <==> jobs[i] in sent && Confirms(answer(i, jobs[i]), jobs[i]))
            && (status.Unconfirmed? <==> jobs[i] in sent && !Confirms(answer(i, jobs[i]), jobs[i]))
            && (status.Unconfirmed? ==> jobs[i] == sent[|sent|-1])
            && |Ledger(jobs, k)| == |jobs| && Ledger(jobs, k)[i].job == jobs[i]
  {
    var k := ConfirmedCount(jobs, answer);
    var sent := if k < |jobs| then jobs[..k + 1] else jobs;
    assert i < |sent| ==> sent[i] == jobs[i];
    if jobs[i] in sent {
      var m :| 0 <= m < |sent| && sent[m] == jobs[i];
      assert jobs[m] == jobs[i];
    }
  }

  /** A transfer is confirmed by exactly one entry for its own job, in a response that is no error; anything
      else is reported with the response's error code, or as a bad gateway. */
  lemma ConfirmationMeans(answer: Answer, job: nat)
    ensures Confirms(answer, job) <==>
              exists code: nat, reference: string ::
                answer == Responded(code, Some([Ack(Some(job), reference)])) && code < 400
    ensures !Confirms(answer, job) ==>
              FailureCode(answer) == match answer
                                     case Unreachable(code) => code
                                     case Responded(code, _) => if code >= 400 then code else 502
  {
    if Confirms(answer, job) {
      assert answer.accepted.value == [Ack(Some(job), answer.accepted.value[0].reference)];
    }
  }

  method Transfer(jobs: seq<nat>, answer: (nat, nat) -> Answer)
    returns (reply: Reply, sent: seq<nat>, outcomes: seq<Outcome>)
    ensures var k := ConfirmedCount(jobs, answer);
            && outcomes == Ledger(jobs, k)
            && sent == (if k < |jobs| then jobs[..k + 1] else jobs)
            && (k == |jobs| <==> reply.Done?)
            && (k < |jobs| ==> reply.Stopped? && reply.outcomes == outcomes
                               && reply.code == FailureCode(answer(k, jobs[k])))
            && (reply.Done? || reply.Stopped?) && |reply.queued| == k && Acknowledges(reply.queued, jobs, answer)
  {
    outcomes := Untouched(jobs);
    var queued: seq<Ack> := [];
    sent := [];
    for i := 0 to |jobs|
      invariant i <= ConfirmedCount(jobs, answer)
      invariant outcomes ==
                  seq(|jobs|, k requires 0 <= k < |jobs| => Outcome(jobs[k], if k < i then Confirmed else NotSent))
      invariant sent == jobs[..i] && |queued| == i && Acknowledges(queued, jobs, answer)
    {
      outcomes := outcomes[i := Outcome(jobs[i], Unconfirmed)];
      sent := sent + [jobs[i]];
      var response := answer(i, jobs[i]);
      if !Confirms(response, jobs[i]) {
        assert ConfirmedCount(jobs, answer) == i;
        assert outcomes == Ledger(jobs, i);
      }
      if response.Unreachable? { return Stopped(response.code, queued, outcomes), sent, outcomes; }
      if response.code >= 400 { return Stopped(response.code, queued, outcomes), sent, outcomes; }
      if response.accepted.None? || |response.accepted.value| != 1
         || response.accepted.value[0].source != Some(jobs[i])
      {
        return Stopped(502, queued, outcomes), sent, outcomes;
      }
      queued := queued + response.accepted.value;
      outcomes := outcomes[i := Outcome(jobs[i], Confirmed)];
    }
    assert outcomes == Ledger(jobs, |jobs|);
    reply := Done(queued);
  }

  method Handoff(ids: seq<int>, check: nat -> Option<nat>, answer: (nat, nat) -> Answer)
    returns (reply: Reply, sent: seq<nat>)
    ensures ValidSelection(ids) <==> 1 <= |ids| <= 30 && !exists i | 0 <= i < |ids| :: ids[i] < 1
    ensures !ValidSelection(ids) ==> reply.BadSelection? && sent == []
    ensures ValidSelection(ids) ==>
              var jobs := Dedupe(Naturals(ids));
              var rejected := FirstRejection(jobs, check);
              var k := ConfirmedCount(jobs, answer);
              if rejected.Some? then
                reply == Refused(rejected.value, Untouched(jobs)) && sent == []
              else if k < |jobs| then
                && reply.Stopped? && reply.code == FailureCode(answer(k, jobs[k]))
                && reply.outcomes == Ledger(jobs, k) && sent == jobs[..k + 1]
                && |reply.queued| == k && Acknowledges(reply.queued, jobs, answer)
              else
                reply.Done? && sent == jobs && |reply.queued| == |jobs| && Acknowledges(reply.queued, jobs, answer)
  {
    if |ids| < 1 || |ids| > 30 { return BadSelection, []; }
    for i := 0 to |ids|
      invariant forall k | 0 <= k < i :: ids[k] >= 1
    {
      if ids[i] < 1 { return BadSelection, []; }
    }
    var jobs, error := PreparedJobs(Naturals(ids), check);
    if error.Some? { return Refused(error.value, Untouched(Dedupe(Naturals(ids)))), []; }
    var outcomes;
    reply, sent, outcomes := Transfer(jobs, answer);
  }
}

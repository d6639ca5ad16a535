/** What becomes of one row: where its payload comes from, and what callers see on it after each operation. */
module ResumeQueueRows {
  import opened Wrappers
  import opened ResumeQueue
  import opened ResumeQueueRuns

  // ----- the payload -----

  /** The payload, overwritten in order by the edits made while the row was queued. */
  ghost function Edited(rows: Rows, ops: seq<Op>, id: nat, payload: Payload): Payload
    requires Legal(rows, ops)
    decreases |ops|
  {
    if ops == [] then payload
    else
      var op := ops[0];
      var edits := op.Patch? && op.id == id && id in rows && rows[id].status.Queued?;
      Edited(After(rows, op), ops[1..], id, if edits then payload + op.changes else payload)
  }

  /** A row keeps its payload but for those edits, and its creation time. */
  lemma {:induction false} PayloadStays(rows: Rows, ops: seq<Op>, id: nat)
    requires Legal(rows, ops) && forall op | op in ops :: Spares(op, id)
    requires id in rows
    ensures id in Run(rows, ops)
    ensures Run(rows, ops)[id].input == Edited(rows, ops, id, rows[id].input)
    ensures Run(rows, ops)[id].created == rows[id].created
    decreases |ops|
  {
    if ops != [] {
      assert ops[0] in ops;
      OneCallKeepsPayload(rows, ops[0], id);
      PayloadStays(After(rows, ops[0]), ops[1..], id);
    }
  }

  lemma OneCallKeepsPayload(rows: Rows, op: Op, id: nat)
    requires Allowed(rows, op) && Spares(op, id) && id in rows
    ensures id in After(rows, op) && After(rows, op)[id].created == rows[id].created
    ensures After(rows, op)[id].input == if op.Patch? && op.id == id && rows[id].status.Queued?
                                         then rows[id].input + op.changes else rows[id].input
  {
  }

  /** What is enqueued is what is stored: from the call on, whatever else happens. */
  lemma EnqueuedIsStored(rows: Rows, id: nat, now: nat, input: Payload, more: seq<Op>)
    requires id !in rows && Legal(rows, [Enqueue(id, now, input)] + more)
    requires forall op | op in more :: Spares(op, id)
    ensures var ops := [Enqueue(id, now, input)] + more;
            var begun := After(rows, Enqueue(id, now, input));
            && begun[id].status.Queued? && begun[id].percent.None? && begun[id].started.None?
            && begun[id].ended.None? && begun[id].error.None? && begun[id].log.None? && begun[id].revision == 0
            && Legal(begun, more) && id in Run(rows, ops)
            && Run(rows, ops)[id].input == Edited(begun, more, id, input)
            && Run(rows, ops)[id].created == now
  {
    var ops := [Enqueue(id, now, input)] + more;
    assert ops[1..] == more;
    PayloadStays(After(rows, Enqueue(id, now, input)), more, id);
  }

  lemma {:induction false} RunSplits(rows: Rows, a: seq<Op>, b: seq<Op>)
    requires Legal(rows, a + b)
    ensures Legal(rows, a) && Legal(Run(rows, a), b) && Run(rows, a + b) == Run(Run(rows, a), b)
    decreases |a|
  {
    if a == [] {
      assert a + b == b;
    } else {
      assert (a + b)[1..] == a[1..] + b;
      RunSplits(After(rows, a[0]), a[1..], b);
    }
  }

  /** The row was put into the table by the k-th call, and holds that call's payload but for later edits. */
  ghost predicate PutBy(ops: seq<Op>, id: nat, k: nat, row: Row) {
    && k < |ops| && Legal(map[], ops[..k + 1])
    && var rows := Run(map[], ops[..k + 1]);
       && Legal(rows, ops[k + 1..])
       && ops[k].Enqueue? && ops[k].id == id && ops[k].now == row.created
       && row.input == Edited(rows, ops[k + 1..], id, ops[k].input)
  }

  /** Every row of the table was put there by a call that gave its payload. */
  lemma {:induction false} RowWasEnqueued(ops: seq<Op>, id: nat) returns (k: nat)
    requires Legal(map[], ops) && id in Run(map[], ops)
    ensures PutBy(ops, id, k, Run(map[], ops)[id])
    decreases |ops|
  {
    var n := |ops| - 1;
    assert ops != [];
    var before, op := ops[..n], ops[n];
    assert ops == before + [op];
    RunSplits(map[], before, [op]);
    var rows := Run(map[], before);
    LastCall(rows, op);
    hide Run, Legal, PutBy, After;
    if id in rows {
      k := RowWasEnqueued(before, id);
      StayingKeepsPayload(rows, op, id);
      PutEarlier(before, op, id, k, rows[id], After(rows, op)[id]);
    } else {
      k := n;
      OnlyEnqueueAdds(rows, op, id);
      PutLast(before, op, id, After(rows, op)[id]);
    }
  }

  lemma LastCall(rows: Rows, op: Op)
    requires Legal(rows, [op])
    ensures Allowed(rows, op) && Run(rows, [op]) == After(rows, op)
  {
    assert [op][1..] == [];
  }

  lemma PutEarlier(before: seq<Op>, op: Op, id: nat, k: nat, was: Row, row: Row)
    requires Legal(map[], before + [op]) && Legal(map[], before)
    requires PutBy(before, id, k, was) && row.created == was.created
    requires var rows := Run(map[], before);
             row.input == if op.Patch? && op.id == id && id in rows && rows[id].status.Queued?
                          then was.input + op.changes else was.input
    ensures PutBy(before + [op], id, k, row)
  {
    var ops := before + [op];
    var front, rest := ops[..k + 1], before[k + 1..];
    assert before[..k + 1] == front && ops[k + 1..] == rest + [op];
    assert before == front + rest && ops == front + (rest + [op]);
    RunSplits(map[], front, rest);
    RunSplits(map[], front, rest + [op]);
    EditedLast(Run(map[], front), rest, op, id, ops[k].input);
    hide Run, Legal, Edited;
  }

  lemma PutLast(before: seq<Op>, op: Op, id: nat, row: Row)
    requires Legal(map[], before + [op]) && op == Enqueue(id, row.created, row.input)
    ensures PutBy(before + [op], id, |before|, row)
  {
    var ops := before + [op];
    assert ops[..|before| + 1] == ops && ops[|before| + 1..] == [];
  }

  lemma StayingKeepsPayload(rows: Rows, op: Op, id: nat)
    requires Allowed(rows, op) && id in rows && id in After(rows, op)
    ensures After(rows, op)[id].created == rows[id].created
    ensures After(rows, op)[id].input == if op.Patch? && op.id == id && rows[id].status.Queued?
                                         then rows[id].input + op.changes else rows[id].input
  {
  }

  lemma OnlyEnqueueAdds(rows: Rows, op: Op, id: nat)
    requires Allowed(rows, op) && id !in rows && id in After(rows, op)
    ensures op.Enqueue? && op.id == id && After(rows, op)[id].input == op.input && After(rows, op)[id].created == op.now
  {
  }

  lemma {:induction false} EditedLast(rows: Rows, ops: seq<Op>, op: Op, id: nat, payload: Payload)
    requires Legal(rows, ops + [op])
    ensures Legal(rows, ops) && Allowed(Run(rows, ops), op)
    ensures var was := Run(rows, ops);
            Edited(rows, ops + [op], id, payload)
            == if op.Patch? && op.id == id && id in was && was[id].status.Queued?
               then Edited(rows, ops, id, payload) + op.changes else Edited(rows, ops, id, payload)
    decreases |ops|
  {
    if ops == [] {
      assert ops + [op] == [op] && [op][1..] == [];
    } else {
      assert (ops + [op])[1..] == ops[1..] + [op];
      var edits := ops[0].Patch? && ops[0].id == id && id in rows && rows[id].status.Queued?;
      EditedLast(After(rows, ops[0]), ops[1..], op, id, if edits then payload + ops[0].changes else payload);
    }
  }

  // ----- which row is claimed, and which ones change places -----

  predicate Unfinished(row: Row) { row.status.Queued? || row.status.Running? || row.status.CancelRequested? }

  /** A worker gets a queued row of the least position, and of those the one created first. */
  lemma ClaimTakesEarliest(rows: Rows, taken: Option<nat>, now: nat)
    requires Allowed(rows, Claim(taken, now))
    ensures taken.None? <==> forall q: nat | q in rows :: !rows[q].status.Queued?
    ensures taken.Some? ==>
              && taken.value in rows && rows[taken.value].status.Queued?
              && forall q: nat | q in rows && rows[q].status.Queued? ::
                   var a, b := rows[taken.value], rows[q];
                   a.position <= b.position && (a.position == b.position ==> a.created <= b.created)
  {
    if taken.None? {
      forall q: nat | q in rows ensures !rows[q].status.Queued? { assert q !in QueuedIds(rows); }
    } else {
      forall q: nat | q in rows && rows[q].status.Queued? ensures NotLater(rows[taken.value], rows[q]) {
        assert IsQueued(rows, q);
      }
    }
  }

  /** Up means the nearest active row of a lower position, down the nearest of a higher one; the two exchange
      their positions, and nothing moves if there is no such row. */
  lemma MoveExchanges(rows: Rows, id: nat, up: bool, other: Option<nat>)
    requires Allowed(rows, Move(id, up, other)) && id in rows && Unfinished(rows[id])
    ensures other.None? ==>
              After(rows, Move(id, up, other)) == rows
              && forall q: nat | q in rows && Unfinished(rows[q]) ::
                   if up then rows[q].position >= rows[id].position else rows[q].position <= rows[id].position
    ensures other.Some? ==>
              var k := other.value;
              && k in rows && k != id && Unfinished(rows[k])
              && After(rows, Move(id, up, other))
                 == rows[id := rows[id].(position := rows[k].position)][k := rows[k].(position := rows[id].position)]
              && (if up then rows[k].position < rows[id].position else rows[k].position > rows[id].position)
              && forall q: nat | q in rows && Unfinished(rows[q]) && q != id ::
                   if up then rows[q].position >= rows[id].position || rows[q].position <= rows[k].position
                   else rows[q].position <= rows[id].position || rows[q].position >= rows[k].position
  {
    forall q: nat
      ensures Beyond(rows, id, up, q) <==>
                q in rows && Unfinished(rows[q])
                && if up then rows[q].position < rows[id].position else rows[q].position > rows[id].position
    {
    }
  }

  // ----- what an operation leaves on its row -----

  ghost predicate Busy(rows: Rows) { exists i | i in rows :: Unfinished(rows[i]) }

  /** What callers see on a row after a call, whatever the row held before. */
  lemma CallShows(rows: Rows, op: Op, id: nat)
    requires Allowed(rows, op) && id in rows
    ensures var rows' := After(rows, op);
            var was := rows[id];
            match op
            case Claim(Some(taken), now) => taken == id ==>
              rows'[id] == was.(status := Running, started := Some(now), percent := None, revision := was.revision + 1)
            case Cancel(i, now, reason) => i == id ==>
              rows'[id] == if Unfinished(was)
                           then was.(status := Cancelled, ended := Some(now), error := Some(reason),
                                     revision := was.revision + 1)
                           else was
            case Finish(i, status, now, error, log) => i == id ==>
              rows'[id] == if was.status.Cancelled? then was
                           else was.(status := status, ended := Some(now), error := error, log := log,
                                     revision := was.revision + 1)
            case Recover =>
              id in rows' && rows'[id].position == was.position && rows'[id].created == was.created
              && (was.status.Running? ==> rows'[id].status.Queued? && rows'[id].started.None?
                                          && rows'[id].percent.None? && rows'[id].error.None?)
              && (!was.status.Running? ==> rows'[id] == was)
            case Update(i, report) => i == id ==>
              && rows'[id] == was.(percent := rows'[id].percent, revision := was.revision + 1)
              && (report.NoPercent? ==> rows'[id].percent == was.percent)
              && (report.Percent? && (report.value.None? || was.percent.None?) ==> rows'[id].percent == report.value)
              && (report.Percent? && report.value.Some? && was.percent.Some? ==>
                    rows'[id].percent in {was.percent, report.value} && rows'[id].percent.Some?
                    && rows'[id].percent.value >= was.percent.value && rows'[id].percent.value >= report.value.value)
            case SetLog(i, path) => i == id ==> rows'[id].log == Some(path) && rows'[id].status == was.status
            case Delete(i) => (id in rows' <==> i != id || Unfinished(was))
            case Clear(includeAdHoc) =>
              id in rows' <==> Busy(rows) || (!includeAdHoc && forall key | key in {"job_id", "jobId"} ::
                                                key in was.input ==> was.input[key].None?)
            case _ => true
  {
    assert Busy(rows) <==> ActiveIds(rows) != {} by {
      if Busy(rows) {
        var i :| i in rows && Unfinished(rows[i]);
        assert i in ActiveIds(rows);
      }
    }
  }
}

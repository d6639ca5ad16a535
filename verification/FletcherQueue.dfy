/** The queue table and its operations, row by row, against the functions of ResumeQueue. */
module FletcherQueue {
  import opened Wrappers
  import opened ResumeQueue

  /** What a call gives back: a job row, a missing key, or a refused request. */
  datatype Reply = Job(row: Row) | Missing | Refused

  class JobTable {
    var rows: Rows

    constructor ()
      ensures rows == map[]
    {
      rows := map[];
    }

    method Enqueue(id: nat, now: nat, input: Payload) returns (reply: Reply)
      modifies this
      ensures rows == After(old(rows), Op.Enqueue(id, now, input))
      ensures reply == if id in old(rows) then Refused else if id in rows then Job(rows[id]) else Missing
    {
      var max := 0;
      ghost var seen: set<nat> := {};
      var left := rows.Keys;
      while left != {}
        invariant left <= rows.Keys && seen == rows.Keys - left
        invariant forall i | i in seen && rows[i].status.Queued? :: rows[i].position <= max
        invariant max == 0 || exists i | i in seen :: rows[i].status.Queued? && rows[i].position == max
        decreases left
      {
        var i :| i in left;
        left := left - {i};
        seen := seen + {i};
        if rows[i].status.Queued? && rows[i].position > max { max := rows[i].position; }
      }
      MaxIsMax(rows, max);
      if id in rows { return Refused; }
      rows := rows[id := NewRow(max + 1, now, input)];
      reply := Job(rows[id]);
    }

    /** The database returns some row of the least (position, created) among the queued ones. */
    method ClaimNext(now: nat) returns (taken: Option<nat>)
      modifies this
      ensures Allowed(old(rows), Claim(taken, now)) && rows == After(old(rows), Claim(taken, now))
    {
      var queued := QueuedIds(rows);
      if queued == {} { return None; }
      var best :| best in queued;
      var left := queued - {best};
      while left != {}
        invariant left <= queued && best in queued
        invariant forall q | q in queued - left :: NotLater(rows[best], rows[q])
        decreases left
      {
        var i :| i in left;
        left := left - {i};
        if !NotLater(rows[best], rows[i]) { best := i; }
      }
      forall q | IsQueued(rows, q) ensures NotLater(rows[best], rows[q]) { assert q in queued; }
      rows := rows[best := rows[best].(status := Running, started := Some(now), percent := None,
                                       revision := rows[best].revision + 1)];
      taken := Some(best);
    }

    method Cancel(id: nat, now: nat, reason: string) returns (reply: Reply)
      modifies this
      ensures rows == After(old(rows), Op.Cancel(id, now, reason))
      ensures reply == if id in rows then Job(rows[id]) else Missing
    {
      if id !in rows { return Missing; }
      var row := rows[id];
      if Active(row.status) {
        rows := rows[id := row.(status := Cancelled, ended := Some(now), error := Some(reason),
                                revision := row.revision + 1)];
      }
      reply := Job(rows[id]);
    }

    /** Cancels one after the other; a missing job stops the sweep, with the earlier ones cancelled. */
    method CancelAll(ids: seq<nat>, now: nat, reason: string) returns (done: nat)
      modifies this
      ensures done <= |ids| && (done < |ids| ==> ids[done] !in rows)
      ensures rows.Keys == old(rows).Keys
      ensures forall i: nat | i in rows && i !in ids[..done] :: rows[i] == old(rows)[i]
      ensures forall i: nat | i in rows && i in ids[..done] :: !Active(rows[i].status)
    {
      done := 0;
      while done < |ids|
        invariant done <= |ids| && rows.Keys == old(rows).Keys
        invariant forall i: nat | i in rows && i !in ids[..done] :: rows[i] == old(rows)[i]
        invariant forall i: nat | i in rows && i in ids[..done] :: !Active(rows[i].status)
      {
        var one := Cancel(ids[done], now, reason);
        if one.Missing? { break; }
        done := done + 1;
      }
    }

    method Move(id: nat, up: bool) returns (reply: Reply, ghost other: Option<nat>)
      modifies this
      ensures Allowed(old(rows), Op.Move(id, up, other)) && rows == After(old(rows), Op.Move(id, up, other))
      ensures reply == if id !in rows then Missing else if Active(old(rows)[id].status) then Job(rows[id]) else Refused
    {
      other := None;
      if id !in rows { return Missing, None; }
      if !Active(rows[id].status) { return Refused, None; }
      var beyond := set q | q in rows && Beyond(rows, id, up, q);
      if beyond == {} {
        forall q ensures !Beyond(rows, id, up, q) { assert q in rows && Beyond(rows, id, up, q) ==> q in beyond; }
        return Job(rows[id]), None;
      }
      var best :| best in beyond;
      var left := beyond - {best};
      while left != {}
        invariant left <= beyond && best in beyond
        invariant forall q | q in beyond - left ::
                    if up then rows[q].position <= rows[best].position else rows[q].position >= rows[best].position
        decreases left
      {
        var q :| q in left;
        left := left - {q};
        if (up && rows[q].position > rows[best].position) || (!up && rows[q].position < rows[best].position) {
          best := q;
        }
      }
      other := Some(best);
      assert forall q | Beyond(rows, id, up, q) :: q in beyond;
      var mine, theirs := rows[id].position, rows[best].position;
      rows := rows[id := rows[id].(position := theirs)];
      rows := rows[best := rows[best].(position := mine)];
      reply := Job(rows[id]);
    }

    method Recover() returns (recovered: set<nat>)
      modifies this
      ensures rows == After(old(rows), Op.Recover)
      ensures recovered == set i | i in old(rows) && old(rows)[i].status.Running?
    {
      recovered := set i | i in rows && rows[i].status.Running?;
      var left := recovered;
      while left != {}
        invariant left <= recovered && rows.Keys == old(rows).Keys
        invariant forall i: nat | i in rows ::
                    rows[i] == if i in left then old(rows)[i] else Requeued(old(rows)[i])
        decreases left
      {
        var i :| i in left;
        left := left - {i};
        rows := rows[i := rows[i].(status := Queued, started := None, percent := None, error := None,
                                   revision := rows[i].revision + 1)];
      }
    }

    method UpdateProgress(id: nat, report: Report) returns (reply: Reply)
      modifies this
      ensures rows == After(old(rows), Update(id, report))
      ensures reply == if id in rows then Job(rows[id]) else Missing
    {
      if id !in rows { return Missing; }
      var row := rows[id];
      var merged := report;
      if row.percent.Some? && report.Percent? && report.value.Some? {
        merged := Percent(Some(if row.percent.value > report.value.value then row.percent.value
                               else report.value.value));
      }
      var percent := if merged.Percent? then merged.value else row.percent;
      rows := rows[id := row.(percent := percent, revision := row.revision + 1)];
      reply := Job(rows[id]);
    }

    method SetLogPath(id: nat, path: string) returns (reply: Reply)
      modifies this
      ensures rows == After(old(rows), SetLog(id, path))
      ensures reply == if id in rows then Job(rows[id]) else Missing
    {
      if id !in rows { return Missing; }
      rows := rows[id := rows[id].(log := Some(path), revision := rows[id].revision + 1)];
      reply := Job(rows[id]);
    }

    method Finish(id: nat, status: Status, now: nat, error: Option<string>, log: Option<string>)
      returns (reply: Reply)
      modifies this
      ensures rows == After(old(rows), Op.Finish(id, status, now, error, log))
      ensures reply == if id in rows then Job(rows[id]) else Missing
    {
      if id !in rows { return Missing; }
      if rows[id].status.Cancelled? { return Job(rows[id]); }
      rows := rows[id := rows[id].(status := status, ended := Some(now), error := error, log := log,
                                   revision := rows[id].revision + 1)];
      reply := Job(rows[id]);
    }

    method Delete(id: nat) returns (reply: Reply)
      modifies this
      ensures rows == After(old(rows), Op.Delete(id))
      ensures reply == if id !in old(rows) then Missing
                       else if Active(old(rows)[id].status) then Refused else Job(old(rows)[id])
    {
      if id !in rows { return Missing; }
      if Active(rows[id].status) { return Refused; }
      reply := Job(rows[id]);
      rows := rows - {id};
    }

    method PatchInput(id: nat, changes: Payload) returns (reply: Reply)
      modifies this
      ensures rows == After(old(rows), Patch(id, changes))
      ensures reply == if id !in old(rows) then Missing
                       else if old(rows)[id].status.Queued? then Job(rows[id]) else Refused
    {
      if id !in rows { return Missing; }
      if !rows[id].status.Queued? { return Refused; }
      rows := rows[id := rows[id].(input := rows[id].input + changes, revision := rows[id].revision + 1)];
      reply := Job(rows[id]);
    }

    method ClearHistory(includeAdHoc: bool) returns (ok: bool)
      modifies this
      ensures rows == After(old(rows), Clear(includeAdHoc))
      ensures ok <==> ActiveIds(old(rows)) == {}
    {
      if ActiveIds(rows) != {} { return false; }
      var doomed: set<nat> := {};
      var left := rows.Keys;
      while left != {}
        invariant left <= rows.Keys && doomed <= rows.Keys
        invariant forall i: nat | i in rows ::
                    i in doomed <==> i !in left && (includeAdHoc || JobLinked(rows[i].input))
        decreases left
      {
        var i :| i in left;
        left := left - {i};
        if !includeAdHoc && !JobLinked(rows[i].input) { continue; }
        doomed := doomed + {i};
      }
      rows := rows - doomed;
      ok := true;
    }
  }

  lemma MaxIsMax(rows: Rows, max: nat)
    requires forall i | i in rows && rows[i].status.Queued? :: rows[i].position <= max
    requires max == 0 || exists i | i in rows :: rows[i].status.Queued? && rows[i].position == max
    ensures NextPosition(rows) == max + 1
  {
    if max > 0 {
      var i :| i in rows && rows[i].status.Queued? && rows[i].position == max;
      assert i in QueuedIds(rows);
    }
  }
}

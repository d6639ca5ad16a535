/**
  The resume-preparation queue: its rows, one function per committed operation, and the sequence
  that the queued rows form when read in (position, created) order.
 */
module ResumeQueue {
  import opened Sequences
  import opened Wrappers

  datatype Status = Queued | Running | CancelRequested | Cancelled | Ended(name: string)

  type Payload = map<string, Option<string>>

  datatype Row = Row(status: Status, position: nat, created: nat, input: Payload, revision: nat,
                     started: Option<nat>, ended: Option<nat>, percent: Option<int>,
                     error: Option<string>, log: Option<string>)

  type Rows = map<nat, Row>

  /** The `percent` entry of a progress update: absent, or present and possibly not a number. */
  datatype Report = NoPercent | Percent(value: Option<int>)

  /** The operations. Choices the database makes between ties are part of the operation. */
  datatype Op =
    | Enqueue(id: nat, now: nat, input: Payload)
    | Claim(taken: Option<nat>, now: nat)
    | Cancel(id: nat, now: nat, reason: string)
    | Move(id: nat, up: bool, other: Option<nat>)
    | Recover
    | Update(id: nat, report: Report)
    | SetLog(id: nat, path: string)
    | Finish(id: nat, status: Status, now: nat, error: Option<string>, log: Option<string>)
    | Delete(id: nat)
    | Patch(id: nat, changes: Payload)
    | Clear(includeAdHoc: bool)

  predicate Active(s: Status) {
    s.Queued? || s.Running? || s.CancelRequested?
  }

  predicate IsQueued(rows: Rows, id: nat) { id in rows && rows[id].status.Queued? }

  predicate IsActive(rows: Rows, id: nat) { id in rows && Active(rows[id].status) }

  function QueuedIds(rows: Rows): set<nat> { set i | i in rows && rows[i].status.Queued? }

  function ActiveIds(rows: Rows): set<nat> { set i | i in rows && Active(rows[i].status) }

  /** The greatest position among some rows, 0 when there are none. */
  ghost function MaxPosition(rows: Rows, ids: set<nat>): (m: nat)
    requires ids <= rows.Keys
    ensures forall i | i in ids :: rows[i].position <= m
    ensures ids == {} ==> m == 0
    ensures ids != {} ==> exists i | i in ids :: rows[i].position == m
  {
    if ids == {} then 0
    else
      var i :| i in ids;
      var rest := MaxPosition(rows, ids - {i});
      assert ids == {i} + (ids - {i});
      if rows[i].position > rest then rows[i].position else rest
  }

  ghost function NextPosition(rows: Rows): nat { MaxPosition(rows, QueuedIds(rows)) + 1 }

  function NewRow(position: nat, now: nat, input: Payload): Row {
    Row(Queued, position, now, input, 0, None, None, None, None, None)
  }

  predicate NotLater(a: Row, b: Row) {
    a.position < b.position || (a.position == b.position && a.created <= b.created)
  }

  /** A row that `ORDER BY position, created_at LIMIT 1` may return. */
  ghost predicate IsHead(rows: Rows, id: nat) {
    IsQueued(rows, id) && forall q | IsQueued(rows, q) :: NotLater(rows[id], rows[q])
  }

  predicate Beyond(rows: Rows, id: nat, up: bool, other: nat)
    requires id in rows
  {
    IsActive(rows, other)
    && if up then rows[other].position < rows[id].position else rows[other].position > rows[id].position
  }

  /** The active row with the nearest lower (or higher) position. */
  ghost predicate IsNeighbour(rows: Rows, id: nat, up: bool, other: nat)
    requires id in rows
  {
    && Beyond(rows, id, up, other)
    && forall q | Beyond(rows, id, up, q) ::
         if up then rows[q].position <= rows[other].position else rows[q].position >= rows[other].position
  }

  function Swapped(rows: Rows, a: nat, b: nat): Rows
    requires a in rows && b in rows
  {
    rows[a := rows[a].(position := rows[b].position)][b := rows[b].(position := rows[a].position)]
  }

  function Requeued(row: Row): Row {
    if row.status.Running?
    then row.(status := Queued, started := None, percent := None, error := None, revision := row.revision + 1)
    else row
  }

  function MergedPercent(current: Option<int>, report: Report): Option<int> {
    match report
    case NoPercent => current
    case Percent(next) =>
      if current.Some? && next.Some? && current.value > next.value then current else next
  }

  predicate JobLinked(input: Payload) {
    ("job_id" in input && input["job_id"].Some?) || ("jobId" in input && input["jobId"].Some?)
  }

  function Cleared(rows: Rows, includeAdHoc: bool): Rows {
    if ActiveIds(rows) != {} then rows
    else map i | i in rows && !includeAdHoc && !JobLinked(rows[i].input) :: rows[i]
  }

  /** The choices the database may make: the claimed row is a head, the swapped one a neighbour. */
  ghost predicate Allowed(rows: Rows, op: Op) {
    match op
    case Claim(None, _) => QueuedIds(rows) == {}
    case Claim(Some(id), _) => IsHead(rows, id)
    case Move(id, up, other) =>
      if !IsActive(rows, id) then other.None?
      else if other.Some? then IsNeighbour(rows, id, up, other.value)
      else forall q :: !Beyond(rows, id, up, q)
    case _ => true
  }

  ghost function After(rows: Rows, op: Op): Rows
    requires Allowed(rows, op)
  {
    match op
    case Enqueue(id, now, input) =>
      if id in rows then rows else rows[id := NewRow(NextPosition(rows), now, input)]
    case Claim(None, _) => rows
    case Claim(Some(id), now) =>
      rows[id := rows[id].(status := Running, started := Some(now), percent := None,
                           revision := rows[id].revision + 1)]
    case Cancel(id, now, reason) =>
      if !IsActive(rows, id) then rows
      else rows[id := rows[id].(status := Cancelled, ended := Some(now), error := Some(reason),
                                revision := rows[id].revision + 1)]
    case Move(id, _, None) => rows
    case Move(id, _, Some(other)) => Swapped(rows, id, other)
    case Recover => map i | i in rows :: Requeued(rows[i])
    case Update(id, report) =>
      if id !in rows then rows
      else rows[id := rows[id].(percent := MergedPercent(rows[id].percent, report),
                                revision := rows[id].revision + 1)]
    case SetLog(id, path) =>
      if id !in rows then rows
      else rows[id := rows[id].(log := Some(path), revision := rows[id].revision + 1)]
    case Finish(id, status, now, error, log) =>
      if id !in rows || rows[id].status.Cancelled? then rows
      else rows[id := rows[id].(status := status, ended := Some(now), error := error, log := log,
                                revision := rows[id].revision + 1)]
    case Delete(id) =>
      if id !in rows || Active(rows[id].status) then rows else rows - {id}
    case Patch(id, changes) =>
      if !IsQueued(rows, id) then rows
      else rows[id := rows[id].(input := rows[id].input + changes, revision := rows[id].revision + 1)]
    case Clear(includeAdHoc) => Cleared(rows, includeAdHoc)
  }

  // ----- the queue as a sequence -----

  ghost predicate InOrder(rows: Rows, v: seq<nat>) {
    && (forall i | i in v :: i in rows)
    && forall i, k | 0 <= i < k < |v| :: NotLater(rows[v[i]], rows[v[k]])
  }

  /** A listing of the queued rows by position, then creation time. */
  ghost predicate IsView(rows: Rows, v: seq<nat>) {
    Distinct(v) && InOrder(rows, v) && forall i: nat :: i in v <==> IsQueued(rows, i)
  }

  /** No two queued rows share both keys, so the listing is unique. */
  ghost predicate KeysDiffer(rows: Rows) {
    forall a, b | IsQueued(rows, a) && IsQueued(rows, b) && a != b ::
      !(NotLater(rows[a], rows[b]) && NotLater(rows[b], rows[a]))
  }

  lemma OrderedFrom(rows: Rows, v: seq<nat>, k: nat, i: nat)
    requires InOrder(rows, v) && k <= i < |v|
    ensures NotLater(rows[v[k]], rows[v[i]])
  {
  }

  lemma {:induction false} ViewIsUnique(rows: Rows, v: seq<nat>, w: seq<nat>)
    requires IsView(rows, v) && IsView(rows, w) && KeysDiffer(rows)
    ensures v == w
  {
    DistinctSize(v);
    DistinctSize(w);
    assert Elements(v) == Elements(w);
    for k := 0 to |v|
      invariant forall i | 0 <= i < k :: v[i] == w[i]
    {
      var i := PlaceFrom(v, w, k);
      var m := PlaceFrom(w, v, k);
      OrderedFrom(rows, w, k, i);
      OrderedFrom(rows, v, k, m);
      assert v[k] in v && w[k] in w;
    }
  }

  lemma PlaceFrom(v: seq<nat>, w: seq<nat>, k: nat) returns (i: nat)
    requires Distinct(v) && k < |v| && k < |w| && v[k] in w
    requires forall j | 0 <= j < k :: v[j] == w[j]
    ensures k <= i < |w| && w[i] == v[k]
  {
    i :| 0 <= i < |w| && w[i] == v[k];
    forall j | 0 <= j < k ensures w[j] != v[k] { assert w[j] == v[j]; }
  }

  /** Enqueue appends: the listings after it are those before it with the new row at the end. */
  lemma EnqueueAppends(rows: Rows, id: nat, now: nat, input: Payload, v: seq<nat>)
    requires id !in rows
    ensures var rows' := After(rows, Enqueue(id, now, input));
            && (IsView(rows, v) ==> IsView(rows', v + [id]))
            && (IsView(rows', v) ==> v != [] && v[|v|-1] == id && IsView(rows, v[..|v|-1]))
  {
    var rows' := After(rows, Enqueue(id, now, input));
    forall q | IsQueued(rows, q) ensures rows[q].position < rows'[id].position {
      assert q in QueuedIds(rows);
    }
    if IsView(rows', v) {
      assert IsQueued(rows', id);
      var k :| 0 <= k < |v| && v[k] == id;
      var n := |v| - 1;
      OrderedFrom(rows', v, k, n);
      assert v[n] in v && v[n] == id;
      WithoutAtMembers(v, n);
      assert WithoutAt(v, n) == v[..n];
    }
  }

  /** Claim takes the head: the listings after it are the tails of those that start with the claimed row. */
  lemma ClaimTakesHead(rows: Rows, id: nat, now: nat, v: seq<nat>)
    requires IsHead(rows, id)
    ensures IsView(After(rows, Claim(Some(id), now)), v) <==> IsView(rows, [id] + v)
  {
    var rows' := After(rows, Claim(Some(id), now));
    forall q: nat ensures IsQueued(rows', q) <==> IsQueued(rows, q) && q != id {}
    var w := [id] + v;
    if IsView(rows', v) {
      forall i, k | 0 <= i < k < |w|
        ensures w[i] != w[k] && w[k] in rows && w[i] in rows && NotLater(rows[w[i]], rows[w[k]])
      {
        assert w[k] == v[k - 1] && v[k - 1] in v;
        if i > 0 { assert w[i] == v[i - 1]; }
      }
      forall q: nat ensures q in w <==> IsQueued(rows, q) { assert q in w <==> q == id || q in v; }
    }
    if IsView(rows, w) {
      assert v == w[1..];
      forall k | 0 <= k < |v| ensures v[k] != id { assert w[k + 1] == v[k] && w[0] == id; }
      forall q: nat ensures q in v <==> IsQueued(rows', q) { assert q in w <==> q == id || q in v; }
    }
  }

  lemma HeadOfViewIsHead(rows: Rows, v: seq<nat>)
    requires IsView(rows, v) && v != []
    ensures IsHead(rows, v[0])
  {
    assert v[0] in v;
    forall q | IsQueued(rows, q) ensures NotLater(rows[v[0]], rows[q]) {
      var k :| 0 <= k < |v| && v[k] == q;
    }
  }

  /** A row that leaves the queue while the others keep their place. */
  ghost predicate OnlyLeaves(rows: Rows, rows': Rows, id: nat) {
    && (forall q: nat :: IsQueued(rows', q) <==> IsQueued(rows, q) && q != id)
    && forall q | IsQueued(rows', q) ::
         rows'[q].position == rows[q].position && rows'[q].created == rows[q].created
  }

  lemma LeavingRemoves(rows: Rows, rows': Rows, v: seq<nat>, k: nat)
    requires IsView(rows, v) && k < |v| && OnlyLeaves(rows, rows', v[k])
    ensures IsView(rows', WithoutAt(v, k))
  {
    var w := WithoutAt(v, k);
    WithoutAtMembers(v, k);
    forall i, j | 0 <= i < j < |w| ensures w[i] in w && w[j] in w && NotLater(rows[w[i]], rows[w[j]]) {
      OrderedFrom(rows, v, if i < k then i else i + 1, if j < k then j else j + 1);
    }
  }

  /** Cancelling a queued row removes it from the listing and changes nothing else in it. */
  lemma CancelRemoves(rows: Rows, v: seq<nat>, k: nat, now: nat, reason: string)
    requires IsView(rows, v) && k < |v|
    ensures IsView(After(rows, Cancel(v[k], now, reason)), WithoutAt(v, k))
  {
    assert v[k] in v;
    LeavingRemoves(rows, After(rows, Cancel(v[k], now, reason)), v, k);
  }

  /** Operations that do not touch queued rows' keys or which rows are queued. */
  ghost predicate KeepsQueue(rows: Rows, op: Op) {
    match op
    case Enqueue(id, _, _) => id in rows
    case Claim(taken, _) => taken.None?
    case Cancel(id, _, _) => !IsQueued(rows, id)
    case Move(_, _, other) => other.None?
    case Recover => forall i | i in rows :: !rows[i].status.Running?
    case Finish(id, status, _, _, _) => !IsQueued(rows, id) && status.Ended?
    case _ => true
  }

  lemma OtherOperationsKeepTheQueue(rows: Rows, op: Op, v: seq<nat>)
    requires Allowed(rows, op) && KeepsQueue(rows, op)
    ensures IsView(After(rows, op), v) <==> IsView(rows, v)
  {
    var rows' := After(rows, op);
    forall q: nat
      ensures IsQueued(rows', q) <==> IsQueued(rows, q)
      ensures IsQueued(rows, q) ==> rows'[q].position == rows[q].position && rows'[q].created == rows[q].created
    {
      if IsQueued(rows, q) { assert q in ActiveIds(rows); }
    }
    forall w: seq<nat> | forall i: nat :: i in w <==> IsQueued(rows, i)
      ensures InOrder(rows, w) <==> InOrder(rows', w)
    {
      forall i | 0 <= i < |w| ensures IsQueued(rows, w[i]) { assert w[i] in w; }
    }
  }

  // ----- recovery -----

  function Keep(v: seq<nat>, rows: Rows): seq<nat> {
    if v == [] then []
    else if IsQueued(rows, v[|v|-1]) then Keep(v[..|v|-1], rows) + [v[|v|-1]]
    else Keep(v[..|v|-1], rows)
  }

  lemma {:induction false} KeepIsSublist(v: seq<nat>, rows: Rows, big: Rows)
    requires Distinct(v) && InOrder(big, v)
    ensures Distinct(Keep(v, rows)) && InOrder(big, Keep(v, rows))
    ensures forall i: nat :: i in Keep(v, rows) <==> i in v && IsQueued(rows, i)
  {
    if v != [] {
      var n := |v| - 1;
      KeepIsSublist(v[..n], rows, big);
      var kept := Keep(v[..n], rows);
      forall i | 0 <= i < |kept| ensures kept[i] in v[..n] { assert kept[i] in kept; }
      forall i | i in v[..n] ensures i != v[n] && NotLater(big[i], big[v[n]]) {
        var k :| 0 <= k < n && v[k] == i;
      }
      assert v == v[..n] + [v[n]];
    }
  }

  /** Recovery leaves nothing running and merges the interrupted rows in at their old places: dropping
      them from a listing afterwards gives a listing from before. */
  lemma RecoverMerges(rows: Rows, v: seq<nat>)
    requires IsView(After(rows, Recover), v)
    ensures forall i | i in After(rows, Recover) :: !After(rows, Recover)[i].status.Running?
    ensures forall i: nat :: i in v <==> i in rows && (rows[i].status.Queued? || rows[i].status.Running?)
    ensures IsView(rows, Keep(v, rows))
  {
    var rows' := After(rows, Recover);
    KeepIsSublist(v, rows, rows');
    assert forall i: nat :: IsQueued(rows', i) <==> i in rows && (rows[i].status.Queued? || rows[i].status.Running?);
    var w := Keep(v, rows);
    forall i, k | 0 <= i < k < |w| ensures NotLater(rows[w[i]], rows[w[k]]) {
      assert w[i] in w && w[k] in w;
      assert NotLater(rows'[w[i]], rows'[w[k]]);
    }
  }

  /** A claim that is interrupted and recovered puts the row back where it was. */
  lemma RecoverUndoesClaim(rows: Rows, id: nat, now: nat, v: seq<nat>)
    requires IsHead(rows, id) && forall i | i in rows :: !rows[i].status.Running?
    ensures IsView(After(After(rows, Claim(Some(id), now)), Recover), v) <==> IsView(rows, v)
  {
    var rows' := After(After(rows, Claim(Some(id), now)), Recover);
    forall q: nat
      ensures IsQueued(rows', q) <==> IsQueued(rows, q)
      ensures IsQueued(rows, q) ==> rows'[q].position == rows[q].position && rows'[q].created == rows[q].created
    {
    }
    if forall i: nat :: i in v <==> IsQueued(rows, i) {
      forall i | 0 <= i < |v| ensures IsQueued(rows, v[i]) { assert v[i] in v; }
    }
  }
}

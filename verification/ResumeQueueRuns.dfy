/** What holds over every run of queue operations: first in, first out; moves; what stays. */
module ResumeQueueRuns {
  import opened Sequences
  import opened Wrappers
  import opened ResumeQueue

  // ----- listings exist -----

  lemma {:induction false} HeadExists(rows: Rows, ids: set<nat>) returns (h: nat)
    requires ids != {} && ids <= QueuedIds(rows)
    ensures h in ids && forall q: nat | q in ids :: NotLater(rows[h], rows[q])
  {
    var x :| x in ids;
    h := x;
    if ids != {x} {
      h := HeadExists(rows, ids - {x});
      if NotLater(rows[x], rows[h]) { h := x; }
    }
  }

  lemma {:induction false} ViewExists(rows: Rows)
    ensures exists v :: IsView(rows, v)
    decreases |QueuedIds(rows)|
  {
    if QueuedIds(rows) == {} {
      forall q: nat ensures !IsQueued(rows, q) { assert q !in QueuedIds(rows); }
      assert IsView(rows, []);
    } else {
      var h := HeadExists(rows, QueuedIds(rows));
      assert IsHead(rows, h) by {
        forall q | IsQueued(rows, q) ensures NotLater(rows[h], rows[q]) { assert q in QueuedIds(rows); }
      }
      HeadHasView(rows, h);
    }
  }

  /** Every head is the first of some listing. */
  lemma {:induction false} HeadHasView(rows: Rows, h: nat)
    requires IsHead(rows, h)
    ensures exists v :: IsView(rows, [h] + v)
    decreases |QueuedIds(rows)|, 0
  {
    var rows' := After(rows, Claim(Some(h), 0));
    assert QueuedIds(rows') == QueuedIds(rows) - {h};
    assert h in QueuedIds(rows);
    SubsetSize(QueuedIds(rows'), QueuedIds(rows) - {h});
    ViewExists(rows');
    var v :| IsView(rows', v);
    ClaimTakesHead(rows, h, 0, v);
  }

  // ----- moving -----

  ghost predicate PositionsDiffer(rows: Rows) {
    forall a, b | IsActive(rows, a) && IsActive(rows, b) && a != b :: rows[a].position != rows[b].position
  }

  function Holders(rows: Rows, p: nat): set<nat> {
    set i | i in rows && Active(rows[i].status) && rows[i].position == p
  }

  /** A move permutes the positions of the active rows and touches nothing else. */
  lemma MoveConservesPositions(rows: Rows, id: nat, up: bool, other: nat, p: nat)
    requires id in rows && IsActive(rows, id) && IsNeighbour(rows, id, up, other)
    ensures var rows' := After(rows, Move(id, up, Some(other)));
            && |Holders(rows', p)| == |Holders(rows, p)|
            && rows'.Keys == rows.Keys
            && forall i | i in rows :: rows'[i].(position := rows[i].position) == rows[i]
  {
    SwapConservesHolders(rows, id, other, p);
  }

  lemma SwapConservesHolders(rows: Rows, a: nat, b: nat, p: nat)
    requires IsActive(rows, a) && IsActive(rows, b) && rows[a].position != rows[b].position
    ensures |Holders(Swapped(rows, a, b), p)| == |Holders(rows, p)|
  {
    if p == rows[a].position {
      SwapMovesHolder(rows, a, b);
    } else if p == rows[b].position {
      SwapMovesHolder(rows, b, a);
      assert Swapped(rows, a, b) == Swapped(rows, b, a);
    } else {
      assert Holders(Swapped(rows, a, b), p) == Holders(rows, p);
    }
  }

  lemma SwapMovesHolder(rows: Rows, a: nat, b: nat)
    requires IsActive(rows, a) && IsActive(rows, b) && rows[a].position != rows[b].position
    ensures |Holders(Swapped(rows, a, b), rows[a].position)| == |Holders(rows, rows[a].position)|
  {
    var h := Holders(rows, rows[a].position);
    assert Holders(Swapped(rows, a, b), rows[a].position) == h - {a} + {b};
    assert a in h && b !in h;
  }

  /** After a move, the neighbours the other way are the active rows at the position just left. */
  lemma NeighboursBack(rows: Rows, id: nat, up: bool, other: nat)
    requires IsActive(rows, id) && IsNeighbour(rows, id, up, other)
    ensures var rows' := Swapped(rows, id, other);
            && IsActive(rows', id) && IsNeighbour(rows', id, !up, other)
            && forall back: nat :: IsNeighbour(rows', id, !up, back) <==>
                 IsActive(rows', back) && rows'[back].position == rows[id].position
  {
    var rows' := Swapped(rows, id, other);
    forall q: nat | Beyond(rows', id, !up, q)
      ensures if !up then rows'[q].position <= rows[id].position else rows'[q].position >= rows[id].position
    {
      if q != other { assert IsActive(rows, q) && rows'[q] == rows[q]; }
    }
    forall back: nat | IsActive(rows', back) && rows'[back].position == rows[id].position
      ensures IsNeighbour(rows', id, !up, back)
    {
      assert Beyond(rows', id, !up, back);
    }
    assert Beyond(rows', id, !up, other);
  }

  lemma AnotherShares(rows: Rows, id: nat, up: bool, other: nat) returns (x: nat)
    requires IsActive(rows, id) && IsNeighbour(rows, id, up, other)
    requires Holders(rows, rows[id].position) != {id}
    ensures IsNeighbour(Swapped(rows, id, other), id, !up, x)
    ensures Swapped(Swapped(rows, id, other), id, x) != rows
  {
    NeighboursBack(rows, id, up, other);
    var rows' := Swapped(rows, id, other);
    assert id in Holders(rows, rows[id].position);
    x :| x in Holders(rows, rows[id].position) && x != id;
    assert rows'[x] == rows[x];
    assert IsNeighbour(rows', id, !up, x);
    assert Swapped(rows', id, x)[x].position == rows[other].position != rows[x].position;
  }

  /** Moving back the other way restores the table, whichever neighbour the database picks, if and only if
      no other active row shared the position left. */
  lemma MoveBackRestoresIffUnshared(rows: Rows, id: nat, up: bool, other: nat)
    requires IsActive(rows, id) && IsNeighbour(rows, id, up, other)
    ensures var rows' := After(rows, Move(id, up, Some(other)));
            && IsActive(rows', id) && IsNeighbour(rows', id, !up, other)
            && ((forall back: nat | IsNeighbour(rows', id, !up, back) ::
                   After(rows', Move(id, !up, Some(back))) == rows)
                <==> Holders(rows, rows[id].position) == {id})
  {
    NeighboursBack(rows, id, up, other);
    var rows' := Swapped(rows, id, other);
    var left := Holders(rows, rows[id].position);
    assert id in left && other !in left;
    if left == {id} {
      forall back: nat | IsNeighbour(rows', id, !up, back) ensures Swapped(rows', id, back) == rows {
        OnlyOtherIsThere(rows, id, other, back);
        SwapTwice(rows, id, other);
      }
    } else {
      var x := AnotherShares(rows, id, up, other);
      assert After(rows', Move(id, !up, Some(x))) == Swapped(rows', id, x);
    }
  }

  lemma OnlyOtherIsThere(rows: Rows, id: nat, other: nat, back: nat)
    requires IsActive(rows, id) && IsActive(rows, other) && rows[id].position != rows[other].position
    requires Holders(rows, rows[id].position) == {id}
    requires var rows' := Swapped(rows, id, other);
             IsActive(rows', back) && rows'[back].position == rows[id].position
    ensures back == other
  {
    assert back in Holders(rows, rows[id].position) || back == other;
    assert Swapped(rows, id, other)[id].position != rows[id].position;
  }

  lemma SwapTwice(rows: Rows, a: nat, b: nat)
    requires a in rows && b in rows && a != b
    ensures Swapped(Swapped(rows, a, b), a, b) == rows
  {
    var twice := Swapped(Swapped(rows, a, b), a, b);
    assert twice[a] == rows[a] && twice[b] == rows[b];
  }

  function Lower(id: nat, up: bool, other: nat): nat { if up then other else id }

  function Higher(id: nat, up: bool, other: nat): nat { if up then id else other }

  lemma NothingBetween(rows: Rows, id: nat, up: bool, other: nat, q: nat)
    requires IsActive(rows, id) && IsNeighbour(rows, id, up, other) && IsActive(rows, q)
    ensures rows[q].position <= rows[Lower(id, up, other)].position
            || rows[q].position >= rows[Higher(id, up, other)].position
  {
    assert Beyond(rows, id, up, q) || !Beyond(rows, id, up, q);
  }

  /** Moving among queued rows swaps two adjacent entries of the listing. */
  lemma MoveSwapsAdjacent(rows: Rows, id: nat, up: bool, other: nat, v: seq<nat>) returns (k: nat)
    requires IsQueued(rows, id) && IsQueued(rows, other) && IsView(rows, v)
    requires IsNeighbour(rows, id, up, other) && PositionsDiffer(rows)
    ensures k + 1 < |v| && v[k] == Lower(id, up, other) && v[k + 1] == Higher(id, up, other)
    ensures IsView(After(rows, Move(id, up, Some(other))), SwapAt(v, k))
  {
    var lo, hi := Lower(id, up, other), Higher(id, up, other);
    k :| 0 <= k < |v| && v[k] == lo;
    var m :| 0 <= m < |v| && v[m] == hi;
    assert k < m by {
      if m <= k { OrderedFrom(rows, v, m, k); }
    }
    assert v[k + 1] in v;
    NothingBetween(rows, id, up, other, v[k + 1]);
    OrderedFrom(rows, v, k, k + 1);
    OrderedFrom(rows, v, k + 1, m);
    SwappedView(rows, id, other, v, k);
  }

  lemma SwappedView(rows: Rows, id: nat, other: nat, v: seq<nat>, k: nat)
    requires IsView(rows, v) && k + 1 < |v| && IsQueued(rows, id) && IsQueued(rows, other)
    requires (v[k] == id && v[k + 1] == other) || (v[k] == other && v[k + 1] == id)
    requires rows[id].position != rows[other].position
    requires PositionsDiffer(rows)
    ensures IsView(Swapped(rows, id, other), SwapAt(v, k))
  {
    var w := SwapAt(v, k);
    var rows' := Swapped(rows, id, other);
    SwapAtMembers(v, k);
    forall i | 0 <= i < |w| ensures rows'[w[i]].position == rows[v[i]].position {
      assert w[i] in v && v[i] in v;
      if v[i] == id || v[i] == other { assert i == k || i == k + 1; }
    }
    forall i, j | 0 <= i < j < |w| ensures NotLater(rows'[w[i]], rows'[w[j]]) {
      StrictlyOrdered(rows, v, i, j);
    }
  }

  lemma StrictlyOrdered(rows: Rows, v: seq<nat>, i: nat, j: nat)
    requires IsView(rows, v) && PositionsDiffer(rows) && i < j < |v|
    ensures rows[v[i]].position < rows[v[j]].position
  {
    assert v[i] in v && v[j] in v;
    assert IsActive(rows, v[i]) && IsActive(rows, v[j]);
    OrderedFrom(rows, v, i, j);
  }

  /** Swapping places with a running row leaves the listing of queued rows as it was. */
  lemma MovePastRunning(rows: Rows, id: nat, up: bool, other: nat, v: seq<nat>)
    requires IsActive(rows, id) && IsNeighbour(rows, id, up, other) && PositionsDiffer(rows)
    requires !IsQueued(rows, id) || !IsQueued(rows, other)
    ensures IsView(After(rows, Move(id, up, Some(other))), v) <==> IsView(rows, v)
  {
    var rows' := After(rows, Move(id, up, Some(other)));
    forall a, b | IsQueued(rows, a) && IsQueued(rows, b)
      ensures NotLater(rows[a], rows[b]) <==> NotLater(rows'[a], rows'[b])
    {
      NothingBetween(rows, id, up, other, a);
      NothingBetween(rows, id, up, other, b);
    }
    assert forall q: nat :: IsQueued(rows', q) <==> IsQueued(rows, q);
    if forall i: nat :: i in v <==> IsQueued(rows, i) {
      forall i | 0 <= i < |v| ensures IsQueued(rows, v[i]) { assert v[i] in v; }
    }
  }

  // ----- every run is a run of a queue -----

  /** A listing without two of its rows. */
  function Except(v: seq<nat>, a: nat, b: nat): seq<nat> {
    if v == [] then []
    else if v[|v|-1] == a || v[|v|-1] == b then Except(v[..|v|-1], a, b)
    else Except(v[..|v|-1], a, b) + [v[|v|-1]]
  }

  /** The two rows are neighbours and change places. */
  ghost predicate Exchanged(v: seq<nat>, v': seq<nat>, a: nat, b: nat) {
    exists k: nat | k + 1 < |v| :: {v[k], v[k + 1]} == {a, b} && v' == SwapAt(v, k)
  }

  /** How one operation changes a listing. A move leaves the order of the other rows alone; with distinct
      positions it exchanges two neighbours or, next to a claimed row, nothing. */
  ghost predicate QueueStep(rows: Rows, op: Op, v: seq<nat>, v': seq<nat>)
    requires Allowed(rows, op)
  {
    match op
    case Enqueue(id, _, _) => v' == if id in rows then v else v + [id]
    case Claim(None, _) => v == v' == []
    case Claim(Some(id), _) => v == [id] + v'
    case Cancel(id, _, _) => Left(rows, id, v, v')
    case Finish(id, _, _, _, _) => Left(rows, id, v, v')
    case Recover => v == Keep(v', rows)
    case Move(id, up, Some(other)) =>
      && Except(v, id, other) == Except(v', id, other)
      && (PositionsDiffer(rows) ==>
            if IsQueued(rows, id) && IsQueued(rows, other) then Exchanged(v, v', id, other) else v' == v)
    case _ => v' == v
  }

  ghost predicate Left(rows: Rows, id: nat, v: seq<nat>, v': seq<nat>) {
    if IsQueued(rows, id) then exists k: nat | k < |v| :: v[k] == id && v' == WithoutAt(v, k)
    else v' == v
  }

  /** A listing without one row can be completed with it. */
  lemma InsertBack(rows: Rows, rows': Rows, id: nat, v': seq<nat>) returns (v: seq<nat>, k: nat)
    requires OnlyLeaves(rows, rows', id) && IsQueued(rows, id) && IsView(rows', v')
    ensures IsView(rows, v) && k < |v| && v[k] == id && v' == WithoutAt(v, k)
  {
    forall i | 0 <= i < |v'| ensures IsQueued(rows, v'[i]) && v'[i] != id { assert v'[i] in v'; }
    k := 0;
    while k < |v'| && NotLater(rows[v'[k]], rows[id])
      invariant k <= |v'| && forall i | 0 <= i < k :: NotLater(rows[v'[i]], rows[id])
    {
      k := k + 1;
    }
    v := InsertAt(v', k, id);
    assert id !in v';
    InsertAtMembers(v', k, id);
    assert InOrder(rows, v') by {
      forall i, j | 0 <= i < j < |v'| ensures NotLater(rows[v'[i]], rows[v'[j]]) { OrderedFrom(rows', v', i, j); }
    }
    InsertedInOrder(rows, id, v', k);
  }

  lemma InsertedInOrder(rows: Rows, id: nat, v: seq<nat>, k: nat)
    requires InOrder(rows, v) && id in rows && k <= |v|
    requires forall i | 0 <= i < k :: NotLater(rows[v[i]], rows[id])
    requires k < |v| ==> !NotLater(rows[v[k]], rows[id])
    ensures InOrder(rows, InsertAt(v, k, id))
  {
    var w := InsertAt(v, k, id);
    forall i, j | 0 <= i < j < |w| ensures NotLater(rows[w[i]], rows[w[j]]) {
      if i == k {
        OrderedFrom(rows, v, k, j - 1);
      } else if j != k {
        OrderedFrom(rows, v, if i < k then i else i - 1, if j < k then j else j - 1);
      }
    }
  }

  /** Operations of the queue and its worker: a finish ends the row. */
  predicate Regular(op: Op) {
    op.Finish? ==> op.status.Ended?
  }

  lemma StepIsQueueStep(rows: Rows, op: Op, v': seq<nat>) returns (v: seq<nat>)
    requires Allowed(rows, op) && Regular(op)
    requires IsView(After(rows, op), v')
    ensures IsView(rows, v) && QueueStep(rows, op, v, v')
  {
    v := v';
    if KeepsQueue(rows, op) && !op.Recover? && !op.Claim? {
      OtherOperationsKeepTheQueue(rows, op, v');
    } else {
      v := QueueOperation(rows, op, v');
    }
  }

  lemma QueueOperation(rows: Rows, op: Op, v': seq<nat>) returns (v: seq<nat>)
    requires Allowed(rows, op) && Regular(op)
    requires !KeepsQueue(rows, op) || op.Recover? || op.Claim?
    requires IsView(After(rows, op), v')
    ensures IsView(rows, v) && QueueStep(rows, op, v, v')
  {
    match op
    case Enqueue(id, now, input) =>
      EnqueueAppends(rows, id, now, input, v');
      v := v'[..|v'|-1];
    case Claim(None, _) =>
      v := v';
      DistinctSize(v);
      assert Elements(v) == QueuedIds(rows);
    case Claim(Some(id), now) =>
      ClaimTakesHead(rows, id, now, v');
      v := [id] + v';
    case Recover =>
      RecoverMerges(rows, v');
      v := Keep(v', rows);
    case Move(id, up, Some(other)) =>
      v := UndoMove(rows, id, up, other, v');
    case Cancel(id, _, _) =>
      var k;
      v, k := InsertBack(rows, After(rows, op), id, v');
    case Finish(id, _, _, _, _) =>
      var k;
      v, k := InsertBack(rows, After(rows, op), id, v');
  }

  lemma UndoMove(rows: Rows, id: nat, up: bool, other: nat, v': seq<nat>) returns (v: seq<nat>)
    requires IsActive(rows, id) && IsNeighbour(rows, id, up, other)
    requires IsView(After(rows, Move(id, up, Some(other))), v')
    ensures IsView(rows, v) && QueueStep(rows, Move(id, up, Some(other)), v, v')
  {
    if PositionsDiffer(rows) {
      v := UndoCleanMove(rows, id, up, other, v');
    } else {
      v := UndoAnyMove(rows, id, other, v');
    }
  }

  lemma UndoCleanMove(rows: Rows, id: nat, up: bool, other: nat, v': seq<nat>) returns (v: seq<nat>)
    requires IsActive(rows, id) && IsNeighbour(rows, id, up, other) && PositionsDiffer(rows)
    requires IsView(After(rows, Move(id, up, Some(other))), v')
    ensures IsView(rows, v) && QueueStep(rows, Move(id, up, Some(other)), v, v')
  {
    if IsQueued(rows, id) && IsQueued(rows, other) {
      v := UndoExchange(rows, id, up, other, v');
    } else {
      MovePastRunning(rows, id, up, other, v');
      v := v';
    }
  }

  lemma UndoExchange(rows: Rows, id: nat, up: bool, other: nat, v': seq<nat>) returns (v: seq<nat>)
    requires IsQueued(rows, id) && IsQueued(rows, other)
    requires IsNeighbour(rows, id, up, other) && PositionsDiffer(rows)
    requires IsView(Swapped(rows, id, other), v')
    ensures IsView(rows, v) && Except(v, id, other) == Except(v', id, other) && Exchanged(v, v', id, other)
  {
    hide Except, Exchanged, InOrder, SwapAt, PositionsDiffer;
    var rows' := Swapped(rows, id, other);
    NeighboursBack(rows, id, up, other);
    MoveKeepsDistinct(rows, id, up, other);
    var k := MoveSwapsAdjacent(rows', id, !up, other, v');
    SwapTwice(rows, id, other);
    v := SwapAt(v', k);
    ExchangeBack(v', k, id, other);
  }

  lemma ExchangeBack(v': seq<nat>, k: nat, a: nat, b: nat)
    requires k + 1 < |v'| && {v'[k], v'[k + 1]} == {a, b}
    ensures var v := SwapAt(v', k);
            Except(v, a, b) == Except(v', a, b) && Exchanged(v, v', a, b)
  {
    var v := SwapAt(v', k);
    ExceptSwap(v', k, a, b);
    assert v' == SwapAt(v, k);
    assert {v[k], v[k + 1]} == {v'[k], v'[k + 1]};
  }

  lemma {:induction false} ExceptConcat(v: seq<nat>, w: seq<nat>, a: nat, b: nat)
    ensures Except(v + w, a, b) == Except(v, a, b) + Except(w, a, b)
  {
    if w == [] {
      assert v + w == v;
    } else {
      var n := |w| - 1;
      assert (v + w)[..|v + w| - 1] == v + w[..n];
      ExceptConcat(v, w[..n], a, b);
    }
  }

  lemma ExceptDrop(v: seq<nat>, k: nat, a: nat, b: nat)
    requires k < |v| && (v[k] == a || v[k] == b)
    ensures Except(WithoutAt(v, k), a, b) == Except(v, a, b)
  {
    ExceptConcat(v[..k], v[k + 1..], a, b);
    ExceptConcat(v[..k] + [v[k]], v[k + 1..], a, b);
    assert v == v[..k] + [v[k]] + v[k + 1..];
    assert (v[..k] + [v[k]])[..k] == v[..k];
  }

  lemma ExceptSwap(v: seq<nat>, k: nat, a: nat, b: nat)
    requires k + 1 < |v| && {v[k], v[k + 1]} == {a, b}
    ensures Except(SwapAt(v, k), a, b) == Except(v, a, b)
  {
    var w := SwapAt(v, k);
    assert v[k] in {a, b} && v[k + 1] in {a, b};
    assert WithoutAt(WithoutAt(v, k), k) == WithoutAt(WithoutAt(w, k), k);
    ExceptDrop(v, k, a, b);
    ExceptDrop(WithoutAt(v, k), k, a, b);
    ExceptDrop(w, k, a, b);
    ExceptDrop(WithoutAt(w, k), k, a, b);
  }

  /** A listing of the other rows. */
  lemma TakeOut(rows: Rows, id: nat, x: nat, v: seq<nat>) returns (u: seq<nat>)
    requires IsView(rows, v)
    ensures IsView(rows - {id}, u) && Except(u, id, x) == Except(v, id, x) && Except(u, x, id) == Except(v, x, id)
  {
    if IsQueued(rows, id) {
      var k :| 0 <= k < |v| && v[k] == id;
      u := WithoutAt(v, k);
      LeavingRemoves(rows, rows - {id}, v, k);
      ExceptDrop(v, k, id, x);
      ExceptDrop(v, k, x, id);
    } else {
      u := v;
      assert forall i: nat :: IsQueued(rows - {id}, i) <==> IsQueued(rows, i);
      forall i | 0 <= i < |v| ensures v[i] in rows - {id} { assert v[i] in v; }
    }
  }

  /** And back again. */
  lemma PutBack(rows: Rows, id: nat, x: nat, u: seq<nat>) returns (v: seq<nat>)
    requires id in rows && IsView(rows - {id}, u)
    ensures IsView(rows, v) && Except(u, id, x) == Except(v, id, x) && Except(u, x, id) == Except(v, x, id)
  {
    if IsQueued(rows, id) {
      var k;
      v, k := InsertBack(rows, rows - {id}, id, u);
      ExceptDrop(v, k, id, x);
      ExceptDrop(v, k, x, id);
    } else {
      v := u;
      assert forall i: nat :: IsQueued(rows - {id}, i) <==> IsQueued(rows, i);
    }
  }

  lemma UndoAnyMove(rows: Rows, id: nat, other: nat, v': seq<nat>) returns (v: seq<nat>)
    requires id in rows && other in rows && id != other && IsView(Swapped(rows, id, other), v')
    ensures IsView(rows, v) && Except(v, id, other) == Except(v', id, other)
  {
    hide IsView, Except;
    var rows' := Swapped(rows, id, other);
    var u := TakeOut(rows', id, other, v');
    var w := TakeOut(rows' - {id}, other, id, u);
    assert rows' - {id} - {other} == rows - {id} - {other};
    var x := PutBack(rows - {id}, other, id, w);
    v := PutBack(rows, id, other, x);
  }

  lemma MoveKeepsDistinct(rows: Rows, id: nat, up: bool, other: nat)
    requires IsActive(rows, id) && IsNeighbour(rows, id, up, other) && PositionsDiffer(rows)
    ensures PositionsDiffer(After(rows, Move(id, up, Some(other))))
  {
    var rows' := After(rows, Move(id, up, Some(other)));
    forall a, b | IsActive(rows', a) && IsActive(rows', b) && a != b ensures rows'[a].position != rows'[b].position {
      assert IsActive(rows, a) && IsActive(rows, b);
    }
  }

  ghost predicate Legal(rows: Rows, ops: seq<Op>)
    decreases |ops|
  {
    ops != [] ==> Allowed(rows, ops[0]) && Legal(After(rows, ops[0]), ops[1..])
  }

  ghost function Run(rows: Rows, ops: seq<Op>): Rows
    requires Legal(rows, ops)
    decreases |ops|
  {
    if ops == [] then rows else Run(After(rows, ops[0]), ops[1..])
  }

  /** A history of listings, one before each operation and one at the end, each a queue step from the last. */
  ghost predicate QueueHistory(rows: Rows, ops: seq<Op>, vs: seq<seq<nat>>)
    requires Legal(rows, ops)
    decreases |ops|
  {
    && |vs| == |ops| + 1 && IsView(rows, vs[0])
    && (ops != [] ==> QueueStep(rows, ops[0], vs[0], vs[1]) && QueueHistory(After(rows, ops[0]), ops[1..], vs[1..]))
  }

  /** Every run of the table is a run of a queue: any final listing is reached by queue steps. */
  lemma {:induction false} RunIsQueueRun(rows: Rows, ops: seq<Op>, last: seq<nat>) returns (vs: seq<seq<nat>>)
    requires Legal(rows, ops) && forall op | op in ops :: Regular(op)
    requires IsView(Run(rows, ops), last)
    ensures QueueHistory(rows, ops, vs) && vs[|ops|] == last
    decreases |ops|
  {
    if ops == [] {
      vs := [last];
    } else {
      var rest := RunIsQueueRun(After(rows, ops[0]), ops[1..], last);
      var first := StepIsQueueStep(rows, ops[0], rest[0]);
      vs := [first] + rest;
      assert vs[1..] == rest;
    }
  }

  // ----- when positions stay distinct -----

  ghost predicate KeepsPositionsApart(rows: Rows, op: Op) {
    match op
    case Enqueue(id, _, _) => id in rows || Holders(rows, NextPosition(rows)) == {}
    case _ => true
  }

  /** Distinct positions survive an operation exactly when an enqueue does not hit a position that a
      claimed row still holds. */
  lemma PositionsStayDistinct(rows: Rows, op: Op)
    requires Allowed(rows, op) && Regular(op) && PositionsDiffer(rows)
    ensures PositionsDiffer(After(rows, op)) <==> KeepsPositionsApart(rows, op)
  {
    if op.Enqueue? && op.id !in rows {
      NewPositionApart(rows, op.id, NewRow(NextPosition(rows), op.now, op.input));
    } else if op.Move? && op.other.Some? {
      MoveKeepsDistinct(rows, op.id, op.up, op.other.value);
    } else {
      ActiveRowsKeepPositions(rows, op);
    }
  }

  lemma NewPositionApart(rows: Rows, id: nat, row: Row)
    requires id !in rows && PositionsDiffer(rows) && Active(row.status)
    ensures PositionsDiffer(rows[id := row]) <==> Holders(rows, row.position) == {}
  {
    var rows' := rows[id := row];
    if Holders(rows, row.position) != {} {
      var h :| h in Holders(rows, row.position);
      assert IsActive(rows', h) && IsActive(rows', id) && h != id;
    }
    forall a | IsActive(rows, a) && rows[a].position == row.position ensures a in Holders(rows, row.position) {}
  }

  lemma ActiveRowsKeepPositions(rows: Rows, op: Op)
    requires Allowed(rows, op) && Regular(op)
    requires !(op.Enqueue? && op.id !in rows) && !(op.Move? && op.other.Some?)
    ensures var rows' := After(rows, op);
            forall a: nat | IsActive(rows', a) :: IsActive(rows, a) && rows'[a].position == rows[a].position
  {
  }

  /** Positions do clash: a row enqueued while the only other one is claimed takes the same position. */
  lemma RecoveredRowsCanShareAPosition()
    ensures exists ops :: Legal(map[], ops) && !PositionsDiffer(Run(map[], ops))
  {
    var r0: Rows := map[];
    var r1 := After(r0, Enqueue(1, 0, map[]));
    assert QueuedIds(r0) == {};
    assert r1 == map[1 := NewRow(1, 0, map[])];
    assert IsHead(r1, 1);
    var r2 := After(r1, Claim(Some(1), 1));
    assert QueuedIds(r2) == {};
    var r3 := After(r2, Enqueue(2, 2, map[]));
    assert r3[2] == NewRow(1, 2, map[]) && r3[1].position == 1 && r3[1].status.Running?;
    var ops := [Enqueue(1, 0, map[]), Claim(Some(1), 1), Enqueue(2, 2, map[])];
    assert ops[1..] == [Claim(Some(1), 1), Enqueue(2, 2, map[])];
    assert ops[1..][1..] == [Enqueue(2, 2, map[])] && ops[1..][1..][1..] == [];
    assert Legal(r3, []) && Legal(r2, ops[1..][1..]) && Legal(r1, ops[1..]);
    assert Run(r0, ops) == r3;
    assert IsActive(r3, 1) && IsActive(r3, 2);
  }

  // ----- what stays -----

  /** Operations other than those that delete the row. */
  predicate Spares(op: Op, id: nat) {
    !op.Clear? && (op.Delete? ==> op.id != id)
  }

  /** A cancelled row stays cancelled, whatever is called later. */
  lemma {:induction false} CancelledStays(rows: Rows, ops: seq<Op>, id: nat)
    requires Legal(rows, ops) && forall op | op in ops :: Spares(op, id)
    requires id in rows && rows[id].status.Cancelled?
    ensures id in Run(rows, ops) && Run(rows, ops)[id].status.Cancelled?
    decreases |ops|
  {
    if ops != [] {
      assert ops[0] in ops;
      CancelledStays(After(rows, ops[0]), ops[1..], id);
    }
  }

  /** A finished row never becomes active again: the worker cannot requeue it. */
  lemma {:induction false} FinishedStays(rows: Rows, ops: seq<Op>, id: nat)
    requires Legal(rows, ops) && forall op | op in ops :: Spares(op, id) && Regular(op)
    requires id in rows && !Active(rows[id].status)
    ensures id in Run(rows, ops) && !Active(Run(rows, ops)[id].status)
    decreases |ops|
  {
    if ops != [] {
      assert ops[0] in ops;
      FinishedStays(After(rows, ops[0]), ops[1..], id);
    }
  }

  /** A row disappears only by deleting or clearing it after it finished. */
  lemma {:induction false} RowsAreNotLost(rows: Rows, ops: seq<Op>, id: nat) returns (k: nat)
    requires Legal(rows, ops) && id in rows && id !in Run(rows, ops)
    ensures k < |ops| && Legal(rows, ops[..k])
    ensures id in Run(rows, ops[..k]) && !Active(Run(rows, ops[..k])[id].status)
    ensures ops[k] == Delete(id) || ops[k].Clear?
    decreases |ops|
  {
    var next := After(rows, ops[0]);
    if id !in next {
      k := 0;
      assert !Active(rows[id].status) by { assert id !in ActiveIds(rows); }
    } else {
      var j := RowsAreNotLost(next, ops[1..], id);
      k := j + 1;
      assert ops[..k][1..] == ops[1..][..j];
    }
  }

  /** Nothing that starts the job over, and no update that erases its percentage. */
  predicate SameClaim(op: Op, id: nat) {
    Spares(op, id) && !op.Recover? && op != Update(id, Percent(None)) && (op.Claim? ==> op.taken != Some(id))
  }

  /** Within one claim the stored percentage never decreases. */
  lemma {:induction false} PercentNeverDecreases(rows: Rows, ops: seq<Op>, id: nat)
    requires Legal(rows, ops) && forall op | op in ops :: SameClaim(op, id)
    requires id in rows && rows[id].percent.Some?
    ensures id in Run(rows, ops) && Run(rows, ops)[id].percent.Some?
    ensures Run(rows, ops)[id].percent.value >= rows[id].percent.value
    decreases |ops|
  {
    if ops != [] {
      assert ops[0] in ops;
      PercentNeverDecreases(After(rows, ops[0]), ops[1..], id);
    }
  }
}

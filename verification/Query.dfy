/** `SELECT … ORDER BY … LIMIT 1` over rows with unique integer ids. */
module Query {
  import opened Wrappers

  /** A sort key. The last component is the id or its negation, so keys of distinct rows differ. */
  datatype Rank = Rank(major: int, minor: int, tie: int)

  predicate Below(a: Rank, b: Rank) {
    a.major < b.major
    || (a.major == b.major && (a.minor < b.minor || (a.minor == b.minor && a.tie < b.tie)))
  }

  ghost predicate Keyed(ids: set<nat>, rank: map<nat, Rank>) {
    && ids <= rank.Keys
    && forall a, b | a in rank && b in rank && a != b :: rank[a].tie != rank[b].tie
  }

  ghost predicate IsFirst(ids: set<nat>, rank: map<nat, Rank>, r: nat)
    requires Keyed(ids, rank)
  {
    r in ids && forall q | q in ids :: q == r || Below(rank[r], rank[q])
  }

  ghost function First(ids: set<nat>, rank: map<nat, Rank>): (r: Option<nat>)
    requires Keyed(ids, rank)
    ensures r.None? <==> ids == {}
    ensures r.Some? ==> IsFirst(ids, rank, r.value)
  {
    if ids == {} then None
    else
      FirstExists(ids, rank);
      var r :| IsFirst(ids, rank, r);
      Some(r)
  }

  lemma {:induction false} FirstExists(ids: set<nat>, rank: map<nat, Rank>)
    requires ids != {} && Keyed(ids, rank)
    ensures exists r :: IsFirst(ids, rank, r)
  {
    var x :| x in ids;
    var rest := ids - {x};
    if rest == {} {
      assert ids == {x};
      assert IsFirst(ids, rank, x);
    } else {
      FirstExists(rest, rank);
      var r :| IsFirst(rest, rank, r);
      if Below(rank[x], rank[r]) {
        assert IsFirst(ids, rank, x);
      } else {
        assert IsFirst(ids, rank, r);
      }
    }
  }

  /** The row the database returns is the unique least one. */
  method SelectFirst(ids: set<nat>, rank: map<nat, Rank>) returns (r: Option<nat>)
    requires Keyed(ids, rank)
    ensures r == First(ids, rank)
  {
    if ids == {} { return None; }
    var best :| best in ids;
    var rest := ids - {best};
    while rest != {}
      invariant rest <= ids && best in ids - rest
      invariant forall q | q in ids - rest :: q == best || Below(rank[best], rank[q])
      decreases rest
    {
      var x :| x in rest;
      rest := rest - {x};
      if Below(rank[x], rank[best]) { best := x; }
    }
    assert IsFirst(ids, rank, best);
    return Some(best);
  }
}

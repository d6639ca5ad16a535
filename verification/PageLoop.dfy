/** `_fit_to_page` as it runs: lists per bucket, candidates, and a document changed in place. */
module PageLoop {
  import opened Sequences
  import opened Wrappers
  import opened PageFit
  import opened PageFitting

  // ----- grouping the sources by bucket -----

  /** Each bucket's list holds exactly its live bullets, once each. */
  ghost predicate Lists(perBucket: map<Bucket, seq<nat>>, sources: seq<Source>, live: set<nat>) {
    forall b | b in perBucket ::
      Distinct(perBucket[b]) && forall i: nat :: i in perBucket[b] <==> i in LiveIn(sources, live, b)
  }

  /** Each list holds the bucket's places among the first `n` sources. */
  ghost predicate ListsUpTo(perBucket: map<Bucket, seq<nat>>, sources: seq<Source>, n: nat)
    requires n <= |sources|
  {
    forall b | b in perBucket ::
      Distinct(perBucket[b])
      && forall i: nat :: i in perBucket[b] <==> i < n && sources[i].bucket == b
  }

  method GroupSources(sources: seq<Source>) returns (buckets: seq<Bucket>, perBucket: map<Bucket, seq<nat>>)
    ensures buckets == FirstSeen(sources) && (forall b :: b in buckets <==> b in perBucket)
    ensures Lists(perBucket, sources, All(sources))
  {
    hide FirstSeen, ListsUpTo, Lists;
    buckets, perBucket := [], map[];
    NothingGrouped(sources);
    for n := 0 to |sources|
      invariant buckets == FirstSeen(sources[..n]) && (forall b :: b in buckets <==> b in perBucket)
      invariant ListsUpTo(perBucket, sources, n)
    {
      var b := sources[n].bucket;
      var list := if b in perBucket then perBucket[b] else [];
      FirstSeenMore(sources, n, buckets);
      ListGrows(perBucket, sources, n);
      if b !in perBucket { buckets := buckets + [b]; }
      perBucket := perBucket[b := list + [n]];
    }
    assert sources[..|sources|] == sources;
    AllGrouped(perBucket, sources);
  }

  lemma NothingGrouped(sources: seq<Source>)
    ensures FirstSeen(sources[..0]) == [] && ListsUpTo(map[], sources, 0)
  {
  }

  lemma AllGrouped(perBucket: map<Bucket, seq<nat>>, sources: seq<Source>)
    requires ListsUpTo(perBucket, sources, |sources|)
    ensures Lists(perBucket, sources, All(sources))
  {
  }

  lemma FirstSeenMore(sources: seq<Source>, n: nat, buckets: seq<Bucket>)
    requires n < |sources| && buckets == FirstSeen(sources[..n])
    ensures FirstSeen(sources[..n + 1])
            == if sources[n].bucket in buckets then buckets else buckets + [sources[n].bucket]
    ensures forall i | 0 <= i < n :: sources[i].bucket in buckets
  {
    assert sources[..n + 1][..n] == sources[..n];
    forall i | 0 <= i < n ensures sources[i].bucket in buckets { assert sources[..n][i] in sources[..n]; }
  }

  lemma ListGrows(perBucket: map<Bucket, seq<nat>>, sources: seq<Source>, n: nat)
    requires n < |sources| && ListsUpTo(perBucket, sources, n)
    requires forall i | 0 <= i < n :: sources[i].bucket in perBucket
    ensures var b := sources[n].bucket;
            ListsUpTo(perBucket[b := (if b in perBucket then perBucket[b] else []) + [n]], sources, n + 1)
  {
    var b := sources[n].bucket;
    var list := if b in perBucket then perBucket[b] else [];
    assert forall i: nat :: i in list + [n] <==> i in list || i == n;
    DistinctConcat(list, [n]);
  }

  lemma BucketSize(perBucket: map<Bucket, seq<nat>>, sources: seq<Source>, live: set<nat>, b: Bucket)
    requires Lists(perBucket, sources, live) && b in perBucket
    ensures |perBucket[b]| == |LiveIn(sources, live, b)|
  {
    DistinctSize(perBucket[b]);
    assert Elements(perBucket[b]) == LiveIn(sources, live, b);
  }

  // ----- choosing what to drop -----

  /** `min(remaining, key=…)` */
  method LeastOf(ids: seq<nat>, score: nat -> real) returns (d: nat)
    requires ids != []
    ensures d in ids && forall i | i in ids :: i == d || Before(score, d, i)
  {
    d := ids[0];
    for n := 1 to |ids|
      invariant d in ids[..n] && forall i | i in ids[..n] :: i == d || Before(score, d, i)
    {
      assert ids[..n + 1] == ids[..n] + [ids[n]];
      if Before(score, ids[n], d) { d := ids[n]; }
    }
    assert ids[..|ids|] == ids;
  }

  ghost predicate Ordered(ids: seq<nat>, score: nat -> real) {
    forall i, k | 0 <= i < k < |ids| :: !Before(score, ids[k], ids[i])
  }

  /** `candidates.sort(key=…)` */
  method SortByScore(ids: seq<nat>, score: nat -> real) returns (sorted: seq<nat>)
    ensures Ordered(sorted, score) && |sorted| == |ids| && forall i: nat :: i in sorted <==> i in ids
  {
    sorted := [];
    for n := 0 to |ids|
      invariant Ordered(sorted, score) && |sorted| == n
      invariant forall i: nat :: i in sorted <==> i in ids[..n]
    {
      var k := 0;
      while k < |sorted| && !Before(score, ids[n], sorted[k])
        invariant 0 <= k <= |sorted| && forall i | 0 <= i < k :: !Before(score, ids[n], sorted[i])
      {
        k := k + 1;
      }
      assert ids[..n + 1] == ids[..n] + [ids[n]];
      sorted := sorted[..k] + [ids[n]] + sorted[k..];
    }
    assert ids[..|ids|] == ids;
  }

  /** The candidates are exactly the leaders of the buckets looked at. */
  ghost predicate Candidates(candidates: seq<nat>, sources: seq<Source>, score: nat -> real, floor: nat,
                             live: set<nat>, buckets: seq<Bucket>)
  {
    forall c: nat :: c in candidates <==> Leads(sources, score, floor, live, c) && sources[c].bucket in buckets
  }

  lemma NoCandidate(candidates: seq<nat>, sources: seq<Source>, score: nat -> real, floor: nat,
                    live: set<nat>, seen: seq<Bucket>, b: Bucket)
    requires Candidates(candidates, sources, score, floor, live, seen) && |LiveIn(sources, live, b)| <= floor
    ensures Candidates(candidates, sources, score, floor, live, seen + [b])
  {
  }

  lemma OneCandidate(candidates: seq<nat>, least: nat, sources: seq<Source>, score: nat -> real, floor: nat,
                     live: set<nat>, seen: seq<Bucket>, b: Bucket)
    requires Candidates(candidates, sources, score, floor, live, seen) && |LiveIn(sources, live, b)| > floor
    requires least in LiveIn(sources, live, b)
    requires forall i | i in LiveIn(sources, live, b) :: i == least || Before(score, least, i)
    ensures Candidates(candidates + [least], sources, score, floor, live, seen + [b])
  {
    assert Leads(sources, score, floor, live, least);
    forall c: nat
      ensures c in candidates + [least] <==>
                Leads(sources, score, floor, live, c) && sources[c].bucket in seen + [b]
    {
      if Leads(sources, score, floor, live, c) && sources[c].bucket == b {
        assert c == least || Before(score, least, c);
      }
    }
  }

  method CollectCandidates(buckets: seq<Bucket>, perBucket: map<Bucket, seq<nat>>, flagged: seq<Bucket>,
                           score: nat -> real, floor: nat, ghost sources: seq<Source>, ghost live: set<nat>)
    returns (candidates: seq<nat>, now: seq<Bucket>)
    requires Lists(perBucket, sources, live) && forall b | b in buckets :: b in perBucket
    requires AtFloor(flagged, sources, live, floor)
    ensures Candidates(candidates, sources, score, floor, live, buckets)
    ensures now == Flag(flagged, buckets, sources, live, floor)
  {
    hide Candidates;
    candidates, now := [], flagged;
    NothingLooked(sources, score, floor, live);
    for n := 0 to |buckets|
      invariant Candidates(candidates, sources, score, floor, live, buckets[..n])
      invariant now == Flag(flagged, buckets[..n], sources, live, floor) && AtFloor(now, sources, live, floor)
    {
      var b := buckets[n];
      var remaining := perBucket[b];
      assert buckets[..n + 1] == buckets[..n] + [b] && buckets[..n + 1][..n] == buckets[..n];
      BucketSize(perBucket, sources, live, b);
      if remaining == [] || b in now {
        NoCandidate(candidates, sources, score, floor, live, buckets[..n], b);
        continue;
      }
      if |remaining| > floor {
        var least := LeastOf(remaining, score);
        OneCandidate(candidates, least, sources, score, floor, live, buckets[..n], b);
        candidates := candidates + [least];
      } else {
        NoCandidate(candidates, sources, score, floor, live, buckets[..n], b);
        if |remaining| == floor { now := now + [b]; }
      }
    }
    assert buckets[..|buckets|] == buckets;
  }

  lemma NothingLooked(sources: seq<Source>, score: nat -> real, floor: nat, live: set<nat>)
    ensures Candidates([], sources, score, floor, live, [])
  {
  }

  /** Tries the candidates in order until the document gives one up. */
  method DropOne(doc: Document, sources: seq<Source>, sorted: seq<nat>, ghost score: nat -> real,
                 ghost floor: nat, ghost live: set<nat>)
    returns (dropped: Option<nat>)
    requires Ordered(sorted, score) && forall c: nat :: c in sorted <==> Leads(sources, score, floor, live, c)
    modifies doc
    ensures dropped == NextDrop(old(doc.entries), sources, doc.hash, score, floor, live)
    ensures dropped.None? ==> doc.entries == old(doc.entries)
    ensures dropped.Some? ==> Some(doc.entries) == WithoutBullet(old(doc.entries), sources[dropped.value], doc.hash)
  {
    ghost var start := doc.entries;
    for n := 0 to |sorted|
      invariant doc.entries == start
      invariant forall m | 0 <= m < n :: !Removable(start, sources, doc.hash, score, floor, live, sorted[m])
    {
      assert sorted[n] in sorted;
      var ok := doc.RemoveBullet(sources[sorted[n]]);
      if ok {
        FirstGivenUpIsNext(start, sources, doc.hash, score, floor, live, sorted, n);
        return Some(sorted[n]);
      }
    }
    forall c: nat ensures !Removable(start, sources, doc.hash, score, floor, live, c) {
      if Leads(sources, score, floor, live, c) { var m :| 0 <= m < |sorted| && sorted[m] == c; }
    }
    return None;
  }

  lemma FirstGivenUpIsNext(entries: seq<Entry>, sources: seq<Source>, hash: string -> string,
                           score: nat -> real, floor: nat, live: set<nat>, sorted: seq<nat>, n: nat)
    requires Ordered(sorted, score) && n < |sorted|
    requires forall c: nat :: c in sorted <==> Leads(sources, score, floor, live, c)
    requires forall m | 0 <= m < n :: !Removable(entries, sources, hash, score, floor, live, sorted[m])
    requires Removable(entries, sources, hash, score, floor, live, sorted[n])
    ensures NextDrop(entries, sources, hash, score, floor, live) == Some(sorted[n])
  {
    hide NextDrop, WithoutBullet, Leads;
    forall c: nat | Removable(entries, sources, hash, score, floor, live, c)
      ensures c == sorted[n] || Before(score, sorted[n], c)
    {
      var m :| 0 <= m < |sorted| && sorted[m] == c;
    }
  }

  /** The bucket given up when nothing can be dropped: the first one that reached the floor. */
  method GiveUp(doc: Document, flagged: seq<Bucket>) returns (removed: Option<Bucket>)
    modifies doc
    ensures removed == if flagged != [] then Some(flagged[0]) else None
    ensures doc.entries == if flagged != [] then WithoutBucket(old(doc.entries), flagged[0])
                           else old(doc.entries)
  {
    if flagged == [] { return None; }
    doc.RemoveBucket(flagged[0]);
    return Some(flagged[0]);
  }

  // ----- the loop -----

  /** `list.remove` */
  function Without(ids: seq<nat>, d: nat): seq<nat> {
    if ids == [] then [] else if ids[0] == d then ids[1..] else [ids[0]] + Without(ids[1..], d)
  }

  lemma {:induction false} WithoutRemoves(ids: seq<nat>, d: nat)
    requires Distinct(ids)
    ensures Distinct(Without(ids, d))
    ensures forall i: nat :: i in Without(ids, d) <==> i in ids && i != d
  {
    if ids != [] {
      WithoutRemoves(ids[1..], d);
      assert ids == [ids[0]] + ids[1..];
      assert ids[0] !in ids[1..];
    }
  }

  lemma ListsAfterDrop(perBucket: map<Bucket, seq<nat>>, sources: seq<Source>, drops: seq<nat>, d: nat)
    requires d < |sources| && sources[d].bucket in perBucket
    requires Lists(perBucket, sources, Rest(sources, drops))
    ensures var b := sources[d].bucket;
            Lists(perBucket[b := Without(perBucket[b], d)], sources, Rest(sources, drops + [d]))
  {
    WithoutRemoves(perBucket[sources[d].bucket], d);
  }

  lemma DropKeepsLoop(buckets: seq<Bucket>, perBucket: map<Bucket, seq<nat>>, now: seq<Bucket>,
                      sources: seq<Source>, floor: nat, drops: seq<nat>, d: nat)
    requires buckets == FirstSeen(sources) && (forall b :: b in buckets <==> b in perBucket)
    requires Lists(perBucket, sources, Rest(sources, drops)) && AtFloor(now, sources, Rest(sources, drops), floor)
    requires Eligible(sources, floor, Rest(sources, drops), d)
    ensures var b := sources[d].bucket;
            && b in perBucket && Rest(sources, drops + [d]) < Rest(sources, drops)
            && AtFloor(now, sources, Rest(sources, drops + [d]), floor)
            && Lists(perBucket[b := Without(perBucket[b], d)], sources, Rest(sources, drops + [d]))
  {
    assert sources[d] in sources;
    ListsAfterDrop(perBucket, sources, drops, d);
    FlagsSurviveDrop(now, sources, drops, floor, d);
    RestShrinks(sources, drops, d);
    assert d in Rest(sources, drops);
  }

  lemma CandidatesAreLeaders(candidates: seq<nat>, sources: seq<Source>, score: nat -> real, floor: nat,
                             live: set<nat>)
    requires Candidates(candidates, sources, score, floor, live, FirstSeen(sources))
    ensures forall c: nat :: c in candidates <==> Leads(sources, score, floor, live, c)
  {
    forall c: nat | Leads(sources, score, floor, live, c) ensures c in candidates { assert sources[c] in sources; }
  }

  lemma NoLeaderNoDrop(entries: seq<Entry>, sources: seq<Source>, hash: string -> string,
                       score: nat -> real, floor: nat, live: set<nat>)
    requires forall c: nat :: !Leads(sources, score, floor, live, c)
    ensures NextDrop(entries, sources, hash, score, floor, live).None?
  {
  }

  /**
    `_fit_to_page`: compile, and while the page overflows drop the least bullet of a bucket above
    the floor; when none can be dropped, remove the first bucket that reached the floor. `answers(n)`
    is what the compiler says the n-th time; nothing is assumed about it.
   */
  method FitToPage(doc: Document, sources: seq<Source>, score: nat -> real, answers: nat -> Compile,
                   floor: nat)
    returns (last: Compile, removed: Option<Bucket>, ghost drops: seq<nat>)
    modifies doc
    ensures Fitted(doc.entries, last, removed, drops)
            == Fit(old(doc.entries), sources, doc.hash, score, answers, floor)
    ensures last == answers(|drops|) && forall k | 0 <= k < |drops| :: NeedsDrop(answers(k))
    ensures forall k | 0 <= k < |drops| + (if removed.Some? then 1 else 0) :: !Settled(answers(k))
    ensures removed.None? ==>
              Settled(last) || Stuck(doc.entries, sources, doc.hash, score, floor, Rest(sources, drops))
    ensures |drops| <= Surplus(sources, All(sources), floor, FirstSeen(sources))
    ensures Ready(old(doc.entries), sources, doc.hash, floor) ==>
              FitMeans(old(doc.entries), sources, score, floor, Fitted(doc.entries, last, removed, drops))
  {
    hide FitMeans, Lists, Candidates, Ready, Ordered, WithoutBullet, Rest, Before, LiveIn, FirstSeen,
         Eligible, NeedsDrop, Without, WithoutBucket, NextDrop, Flag, Leads, AtFloor, Surplus, Settled, Stuck;
    ghost var start := doc.entries;
    FitIsBounded(start, sources, doc.hash, score, answers, floor);
    FitEnds(start, sources, doc.hash, score, answers, floor);
    if Ready(start, sources, doc.hash, floor) { FitIsGreedy(start, sources, doc.hash, score, answers, floor); }
    var buckets, perBucket := GroupSources(sources);
    var flagged: seq<Bucket> := [];
    NothingFlagged(sources, floor);
    var compiles := 0;
    drops := [];
    while true
      invariant compiles == |drops|
      invariant buckets == FirstSeen(sources) && (forall b :: b in buckets <==> b in perBucket)
      invariant Lists(perBucket, sources, Rest(sources, drops))
      invariant AtFloor(flagged, sources, Rest(sources, drops), floor)
      invariant FitFrom(doc.entries, sources, doc.hash, score, answers, floor, drops, flagged)
                == Fit(start, sources, doc.hash, score, answers, floor)
      decreases Rest(sources, drops)
    {
      last := answers(compiles);
      compiles := compiles + 1;
      if !NeedsDrop(last) {
        removed := None;
        return;
      }
      var candidates;
      ghost var live := Rest(sources, drops);
      FlagKeeps(flagged, buckets, sources, live, floor);
      candidates, flagged := CollectCandidates(buckets, perBucket, flagged, score, floor, sources, live);
      CandidatesAreLeaders(candidates, sources, score, floor, live);
      if candidates == [] {
        NoLeaderNoDrop(doc.entries, sources, doc.hash, score, floor, live);
        removed := GiveUp(doc, flagged);
        return;
      }
      var sorted := SortByScore(candidates, score);
      var dropped := DropOne(doc, sources, sorted, score, floor, live);
      if dropped.None? {
        removed := GiveUp(doc, flagged);
        return;
      }
      var d := dropped.value;
      LeadsIsEligible(sources, score, floor, live, d);
      var b := sources[d].bucket;
      DropKeepsLoop(buckets, perBucket, flagged, sources, floor, drops, d);
      perBucket := perBucket[b := Without(perBucket[b], d)];
      drops := drops + [d];
    }
  }

  lemma LeadsIsEligible(sources: seq<Source>, score: nat -> real, floor: nat, live: set<nat>, d: nat)
    requires Leads(sources, score, floor, live, d)
    ensures Eligible(sources, floor, live, d) && d < |sources|
  {
  }

  lemma NothingFlagged(sources: seq<Source>, floor: nat)
    ensures AtFloor([], sources, Rest(sources, []), floor)
  {
  }
}

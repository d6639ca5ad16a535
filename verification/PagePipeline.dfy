/** The restart loop over iterations: which entries are given up, and what the accepted resume keeps. */
module PagePipeline {
  import opened Sequences
  import opened Wrappers
  import opened PageFit
  import opened PageFitting
  import opened PageLoop
  import opened PageRestart
  import opened PageFloor
  import opened PageOverflow

  // ----- the restart loop -----

  function ActiveEntries(parsed: seq<Entry>, active: seq<Bucket>): seq<Entry> {
    if parsed == [] then []
    else if parsed[0].bucket in active then [parsed[0]] + ActiveEntries(parsed[1..], active)
    else ActiveEntries(parsed[1..], active)
  }

  /** Entries with fewer than two bullets never become active. */
  function StartingBuckets(parsed: seq<Entry>): seq<Bucket> {
    if parsed == [] then []
    else if |parsed[0].bullets| < FLOOR then StartingBuckets(parsed[1..])
    else [parsed[0].bucket] + StartingBuckets(parsed[1..])
  }

  function Minus(active: seq<Bucket>, b: Bucket): seq<Bucket> {
    if active == [] then []
    else if active[0] == b then Minus(active[1..], b)
    else [active[0]] + Minus(active[1..], b)
  }

  lemma {:induction false} MinusRemoves(active: seq<Bucket>, b: Bucket)
    requires Distinct(active)
    ensures Distinct(Minus(active, b)) && forall c :: c in Minus(active, b) <==> c in active && c != b
    ensures |Minus(active, b)| == |active| - if b in active then 1 else 0
  {
    if active != [] {
      MinusRemoves(active[1..], b);
      assert active == [active[0]] + active[1..];
      assert active[0] !in active[1..];
    }
  }

  lemma {:induction false} StartingIsActive(parsed: seq<Entry>)
    requires DistinctEntries(parsed)
    ensures Distinct(StartingBuckets(parsed))
    ensures forall b | b in StartingBuckets(parsed) ::
              exists e | e in parsed :: e.bucket == b && |e.bullets| >= FLOOR
    ensures forall e | e in parsed :: e.bucket in StartingBuckets(parsed) <==> |e.bullets| >= 2
  {
    if parsed != [] {
      var rest := parsed[1..];
      StartingIsActive(rest);
      var found := StartingBuckets(rest);
      forall b | b in found
        ensures b != parsed[0].bucket && exists e | e in parsed :: e.bucket == b && |e.bullets| >= FLOOR
      {
        var e :| e in rest && e.bucket == b && |e.bullets| >= FLOOR;
        var k :| 0 <= k < |rest| && rest[k] == e;
        assert parsed[k + 1] == e;
      }
      assert parsed == [parsed[0]] + rest;
      assert parsed[0].bucket !in found;
    }
  }

  lemma {:induction false} ActiveIsPart(parsed: seq<Entry>, active: seq<Bucket>)
    requires DistinctEntries(parsed)
    ensures DistinctEntries(ActiveEntries(parsed, active))
    ensures forall e :: e in ActiveEntries(parsed, active) <==> e in parsed && e.bucket in active
  {
    if parsed != [] {
      var rest := parsed[1..];
      ActiveIsPart(rest, active);
      assert parsed == [parsed[0]] + rest;
      forall e | e in ActiveEntries(rest, active) ensures e.bucket != parsed[0].bucket {
        var k :| 0 <= k < |rest| && rest[k] == e;
        assert parsed[k + 1] == e;
      }
    }
  }

  /** Active entries keep the order of the parsed ones: what comes from a front part comes first. */
  lemma {:induction false} ActiveInOrder(front: seq<Entry>, back: seq<Entry>, active: seq<Bucket>)
    ensures ActiveEntries(front + back, active) == ActiveEntries(front, active) + ActiveEntries(back, active)
  {
    if front == [] {
      assert front + back == back;
    } else {
      ActiveInOrder(front[1..], back, active);
      assert (front + back)[0] == front[0] && (front + back)[1..] == front[1..] + back;
      Prepend(front[0], ActiveEntries(front[1..], active), ActiveEntries(back, active));
    }
  }

  lemma Prepend<T>(x: T, a: seq<T>, b: seq<T>)
    ensures [x] + (a + b) == ([x] + a) + b
  {
  }

  /** So do the starting buckets. */
  lemma {:induction false} StartingInOrder(front: seq<Entry>, back: seq<Entry>)
    ensures StartingBuckets(front + back) == StartingBuckets(front) + StartingBuckets(back)
  {
    if front == [] {
      assert front + back == back;
    } else {
      StartingInOrder(front[1..], back);
      assert (front + back)[0] == front[0] && (front + back)[1..] == front[1..] + back;
      Prepend(front[0].bucket, StartingBuckets(front[1..]), StartingBuckets(back));
    }
  }

  /** Rewriting replaces bullet texts only. */
  ghost predicate Rewrites(before: seq<Entry>, after: seq<Entry>) {
    SameBuckets(before, after) && forall k | 0 <= k < |before| :: |after[k].bullets| == |before[k].bullets|
  }

  /** The buckets of a list of entries. */
  function BucketSet(entries: seq<Entry>): set<Bucket> { set e | e in entries :: e.bucket }

  /** The document of one iteration after its bullets are rewritten. */
  function Draft(parsed: seq<Entry>, active: seq<Bucket>, rewrite: nat -> seq<Entry> -> seq<Entry>,
                 iteration: nat): seq<Entry>
  {
    rewrite(iteration)(ActiveEntries(parsed, active))
  }

  /**
    The restart loop. Each restart removes exactly one active bucket, there are at most as many
    iterations as starting buckets, and the loop ends with the resume its last iteration accepted,
    over exactly the remaining buckets, or with none left. When that iteration's draft has distinct
    texts in every entry of more than two bullets, every entry of the resume keeps at least two; when some
    entry of it cannot be stranded, neither document is known to overflow.
   */
  method RunPipeline(parsed: seq<Entry>, hash: string -> string,
                     rewrite: nat -> seq<Entry> -> seq<Entry>, trials: nat -> Trial)
    returns (result: Option<Accepted>, active: seq<Bucket>, iterations: nat)
    requires DistinctEntries(parsed)
    requires forall n: nat, es: seq<Entry> | (forall e | e in es :: e in parsed) :: Rewrites(es, rewrite(n)(es))
    ensures iterations <= |StartingBuckets(parsed)|
    ensures |active| + iterations == |StartingBuckets(parsed)| + if result.Some? then 1 else 0
    ensures result.None? <==> active == []
    ensures result.Some? ==> iterations > 0 && BucketSet(ActiveEntries(parsed, active)) == set b | b in active
    ensures result.Some? && iterations > 0 ==>
              var draft := Draft(parsed, active, rewrite, iterations - 1);
              && Iteration(result, None) == Iterate(draft, hash, trials(iterations - 1))
              && draft != [] && AllHave(draft, FLOOR) && DistinctEntries(draft)
              && Complete(ActiveEntries(parsed, active), result.value.noSummary.entries)
              && Settled(result.value.noSummary.last)
              && (Tellable(draft, hash) ==> KeepsAll(ActiveEntries(parsed, active), result.value))
              && ((exists e | e in draft :: !Strandable(e, hash)) ==> Fits(result.value))
  {
    hide Iterate;
    active := StartingBuckets(parsed);
    StartingIsActive(parsed);
    iterations, result := 0, None;
    if active == [] { return; }
    var maxRestarts := |active| - 1;
    while iterations < maxRestarts + 1 && active != [] && result.None?
      invariant iterations <= maxRestarts + 1 == |StartingBuckets(parsed)|
      invariant Distinct(active) && forall b | b in active :: b in StartingBuckets(parsed)
      invariant |active| + iterations == maxRestarts + 1 + if result.Some? then 1 else 0
      invariant result.Some? ==> active != [] && iterations > 0
      invariant result.Some? && iterations > 0 ==>
                  Iteration(result, None)
                  == Iterate(Draft(parsed, active, rewrite, iterations - 1), hash, trials(iterations - 1))
      decreases maxRestarts + 1 - iterations
    {
      var doc := ActiveEntries(parsed, active);
      ActiveHasFloor(parsed, active);
      var rewritten := rewrite(iterations)(doc);
      var accepted, removed := RunIteration(rewritten, hash, trials(iterations));
      IterateGivesUpAnEntry(rewritten, hash, trials(iterations));
      iterations := iterations + 1;
      if removed.None? {
        result := accepted;
      } else {
        ghost var e :| e in rewritten && e.bucket == removed.value;
        SameBucketMember(doc, rewritten, e);
        ActiveIsPart(parsed, active);
        MinusRemoves(active, removed.value);
        active := Minus(active, removed.value);
      }
    }
    if result.Some? {
      ActiveCovers(parsed, active);
      ActiveHasFloor(parsed, active);
      DraftKeeps(ActiveEntries(parsed, active), Draft(parsed, active, rewrite, iterations - 1), hash,
                 trials(iterations - 1));
    }
  }

  lemma DraftKeeps(doc: seq<Entry>, draft: seq<Entry>, hash: string -> string, trial: Trial)
    requires doc != [] && AllHave(doc, FLOOR) && DistinctEntries(doc) && Rewrites(doc, draft)
    ensures draft != [] && AllHave(draft, FLOOR) && DistinctEntries(draft)
    ensures var it := Iterate(draft, hash, trial);
            it.accepted.Some? ==>
              && Complete(doc, it.accepted.value.noSummary.entries) && Settled(it.accepted.value.noSummary.last)
              && (Tellable(draft, hash) ==> KeepsAll(doc, it.accepted.value))
              && ((exists e | e in draft :: !Strandable(e, hash)) ==> Fits(it.accepted.value))
  {
    forall e | e in draft ensures |e.bullets| >= FLOOR {
      var k :| 0 <= k < |draft| && draft[k] == e;
      assert doc[k] in doc;
    }
    NoSummaryFits(draft, hash, trial);
    if Tellable(draft, hash) { IterateKeepsFloor(draft, hash, trial); }
    hide Iterate, Strandable;
    if e :| e in draft && !Strandable(e, hash) { OpenEntryFits(draft, hash, trial, e); }
  }

  lemma ActiveCovers(parsed: seq<Entry>, active: seq<Bucket>)
    requires DistinctEntries(parsed) && forall b | b in active :: b in StartingBuckets(parsed)
    ensures BucketSet(ActiveEntries(parsed, active)) == set b | b in active
  {
    StartingIsActive(parsed);
    ActiveIsPart(parsed, active);
    forall b | b in active ensures b in BucketSet(ActiveEntries(parsed, active)) {
      var e :| e in parsed && e.bucket == b && |e.bullets| >= FLOOR;
      assert e in ActiveEntries(parsed, active);
    }
  }

  lemma ActiveHasFloor(parsed: seq<Entry>, active: seq<Bucket>)
    requires DistinctEntries(parsed) && active != []
    requires forall b | b in active :: b in StartingBuckets(parsed)
    ensures var doc := ActiveEntries(parsed, active);
            doc != [] && AllHave(doc, FLOOR) && DistinctEntries(doc) && forall e | e in doc :: e in parsed
  {
    StartingIsActive(parsed);
    ActiveIsPart(parsed, active);
    assert active[0] in active;
    var e :| e in parsed && e.bucket == active[0] && |e.bullets| >= FLOOR;
    assert e in ActiveEntries(parsed, active);
  }
}

/**
  When an accepted resume is known to fit its page: exactly when some entry of the draft can never be
  stranded, that is left with nothing to drop and nothing to give up.
 */
module PageOverflow {
  import opened Sequences
  import opened Wrappers
  import opened PageFit
  import opened PageFitting
  import opened PageRestart
  import opened PageFloor
  import opened PageRounds

  /** An entry that the fits can strand: more than two bullets, some text repeated, but not just one text
      three times. */
  ghost predicate Strandable(e: Entry, hash: string -> string) {
    && |e.bullets| > 2 && !DistinctBullets(e, hash)
    && (|e.bullets| == 3 ==> exists i, k | 0 <= i < k < 3 :: hash(e.bullets[i]) != hash(e.bullets[k]))
  }

  // ----- one bucket that stays open -----

  /** The bucket is at the floor, or above it with every live source's text still in the document. */
  ghost predicate Open(entries: seq<Entry>, sources: seq<Source>, hash: string -> string, b: Bucket, live: set<nat>) {
    var k := FindIndex(entries, b);
    && k < |entries| && |LiveIn(sources, live, b)| >= 2
    && (|LiveIn(sources, live, b)| > 2 ==>
          forall i | i in LiveIn(sources, live, b) :: sources[i].hash in Hashes(entries[k].bullets, hash))
  }

  lemma OpenIsNotStuck(entries: seq<Entry>, sources: seq<Source>, hash: string -> string, score: nat -> real,
                       b: Bucket, live: set<nat>)
    requires Open(entries, sources, hash, b, live)
    ensures !Stuck(entries, sources, hash, score, 2, live)
  {
    var left := LiveIn(sources, live, b);
    var c := LeastExists(left, score);
    assert sources[c] in sources;
    if |left| > 2 {
      RemovingFromBag(entries[FindIndex(entries, b)].bullets, hash, sources[c].hash);
      assert Removable(entries, sources, hash, score, 2, live, c);
    }
  }

  /** Every live source of the bucket is in its entry, as often. */
  ghost predicate BagAt(entries: seq<Entry>, sources: seq<Source>, hash: string -> string, b: Bucket, live: set<nat>) {
    var k := FindIndex(entries, b);
    k < |entries| && Hashes(entries[k].bullets, hash) == Bag(sources, hash, live, b)
  }

  lemma {:induction false} BagHas(sources: seq<Source>, hash: string -> string, live: set<nat>, b: Bucket, h: string)
    requires Hashed(sources, hash)
    ensures h in Bag(sources, hash, live, b) <==> exists i | i in LiveIn(sources, live, b) :: sources[i].hash == h
  {
    KeptHas(sources, hash, live, b, 0, h);
    HashesHave(Kept(sources, live, b, 0), hash, h);
    if LiveHash(sources, live, b, 0, h) {
      var p: nat :| p < |sources| && p in live && sources[p].bucket == b && sources[p].hash == h;
      assert p in LiveIn(sources, live, b);
    }
  }

  lemma {:induction false} BagSize(sources: seq<Source>, hash: string -> string, live: set<nat>, b: Bucket)
    ensures |Bag(sources, hash, live, b)| == |LiveIn(sources, live, b)|
  {
    KeptCount(sources, live, b);
  }

  lemma {:induction false} BagAtIsOpen(entries: seq<Entry>, sources: seq<Source>, hash: string -> string, b: Bucket,
                                       live: set<nat>)
    requires BagAt(entries, sources, hash, b, live) && Hashed(sources, hash) && |LiveIn(sources, live, b)| >= 2
    ensures Open(entries, sources, hash, b, live)
  {
    forall i | i in LiveIn(sources, live, b) ensures sources[i].hash in Bag(sources, hash, live, b) {
      BagHas(sources, hash, live, b, sources[i].hash);
    }
  }

  /** Removing a bullet of another bucket leaves the entry alone. */
  lemma {:induction false} OtherEntryStays(entries: seq<Entry>, s: Source, hash: string -> string, b: Bucket)
    requires WithoutBullet(entries, s, hash).Some? && s.bucket != b
    ensures var after := WithoutBullet(entries, s, hash).value;
            var k := FindIndex(entries, b);
            FindIndex(after, b) == k && (k < |entries| ==> after[k] == entries[k])
  {
    var after := WithoutBullet(entries, s, hash).value;
    SameIndex(entries, after, b);
  }

  lemma {:induction false} BagAtStep(entries: seq<Entry>, sources: seq<Source>, hash: string -> string, b: Bucket,
                                     live: set<nat>, d: nat)
    requires BagAt(entries, sources, hash, b, live) && Hashed(sources, hash) && d in live && d < |sources|
    requires WithoutBullet(entries, sources[d], hash).Some?
    ensures BagAt(WithoutBullet(entries, sources[d], hash).value, sources, hash, b, live - {d})
  {
    var s := sources[d];
    var after := WithoutBullet(entries, s, hash).value;
    if s.bucket != b {
      OtherEntryStays(entries, s, hash, b);
      KeptIgnoresEarlier(sources, live, d, b, 0);
    } else {
      hide Hashes, WithoutFirst;
      var k := FindIndex(entries, b);
      BagWithout(sources, hash, live, d, 0);
      RemovingFromBag(entries[k].bullets, hash, s.hash) by { assert s.hash in Bag(sources, hash, live, b); }
      var rest := WithoutFirst(entries[k].bullets, s.hash, hash).value;
      SameIndex(entries, after, b);
      assert after[k].bullets == rest;
      BagCancel(Hashes(rest, hash), Bag(sources, hash, live - {d}, b), s.hash);
    }
  }

  lemma {:induction false} FitFromBagAt(entries: seq<Entry>, sources: seq<Source>, hash: string -> string, b: Bucket,
                                        score: nat -> real, answers: nat -> Compile, drops: seq<nat>,
                                        flagged: seq<Bucket>)
    requires BagAt(entries, sources, hash, b, Rest(sources, drops)) && Hashed(sources, hash)
    ensures var f := FitFrom(entries, sources, hash, score, answers, 2, drops, flagged);
            f.removed.None? ==> BagAt(f.entries, sources, hash, b, Rest(sources, f.drops))
    decreases Rest(sources, drops)
  {
    hide BagAt, WithoutBullet, NextDrop, IsNext, Eligible, Flag, NeedsDrop, FirstSeen, WithoutBucket, Rest;
    var live := Rest(sources, drops);
    NextIsEligible(entries, sources, hash, score, 2, live);
    var next := NextDrop(entries, sources, hash, score, 2, live);
    if NeedsDrop(answers(|drops|)) && next.Some? {
      BagAtStep(entries, sources, hash, b, live, next.value);
      RestShrinks(sources, drops, next.value);
      FitFromBagAt(WithoutBullet(entries, sources[next.value], hash).value, sources, hash, b, score, answers,
                   drops + [next.value], Flag(flagged, FirstSeen(sources), sources, live, 2));
    }
  }

  // ----- the sources still present -----

  lemma {:induction false} PresentKeeps(entries: seq<Entry>, sources: seq<Source>, hash: string -> string,
                                        kept: set<nat>, from: nat, b: Bucket)
    requires from <= |sources|
    requires forall p | 0 <= p < |sources| && sources[p].bucket == b :: Shown(entries, sources[p], hash) <==> p in kept
    ensures TextsOf(Present(entries, sources[from..], hash), b) == Kept(sources, kept, b, from)
    decreases |sources| - from
  {
    hide Shown;
    if from < |sources| {
      PresentKeeps(entries, sources, hash, kept, from + 1, b);
      assert sources[from..][0] == sources[from] && sources[from..][1..] == sources[from + 1..];
      var ss := Present(entries, sources[from..], hash);
      if Shown(entries, sources[from], hash) { assert ss[1..] == Present(entries, sources[from + 1..], hash); }
    }
  }

  /** In the next fit, a bucket has the sources kept of it. */
  lemma {:induction false} PresentBag(entries: seq<Entry>, sources: seq<Source>, hash: string -> string,
                                      kept: set<nat>, b: Bucket)
    requires Hashed(sources, hash)
    requires forall p | 0 <= p < |sources| && sources[p].bucket == b :: Shown(entries, sources[p], hash) <==> p in kept
    ensures var ss := Present(entries, sources, hash);
            && Hashed(ss, hash) && (forall s | s in ss :: s in sources) && (Tells(sources, b) ==> Tells(ss, b))
            && Bag(ss, hash, All(ss), b) == Bag(sources, hash, kept, b)
            && |LiveIn(ss, All(ss), b)| == |LiveIn(sources, kept, b)|
  {
    var ss := Present(entries, sources, hash);
    PresentTells(entries, sources, hash, b);
    PresentKeeps(entries, sources, hash, kept, 0, b);
    assert sources[0..] == sources && ss[0..] == ss;
    KeptIsTexts(ss, b, 0);
    BagSize(ss, hash, All(ss), b);
    BagSize(sources, hash, kept, b);
  }

  // ----- an entry of two bullets, or of distinct texts -----

  /** The bucket's sources are in its entry, and they can be told apart or are two. */
  ghost predicate Firm(entries: seq<Entry>, sources: seq<Source>, hash: string -> string, b: Bucket) {
    && Hashed(sources, hash) && BagAt(entries, sources, hash, b, All(sources))
    && |LiveIn(sources, All(sources), b)| >= 2
    && (Tells(sources, b) || |LiveIn(sources, All(sources), b)| == 2)
  }

  lemma {:induction false} ShownIsInBag(entries: seq<Entry>, s: Source, hash: string -> string)
    ensures var k := FindIndex(entries, s.bucket);
            Shown(entries, s, hash) <==> k < |entries| && s.hash in Hashes(entries[k].bullets, hash)
  {
    var k := FindIndex(entries, s.bucket);
    if k < |entries| { HashesHave(entries[k].bullets, hash, s.hash); }
  }

  lemma {:induction false} FirmShown(entries: seq<Entry>, sources: seq<Source>, hash: string -> string, b: Bucket,
                                     live: set<nat>, p: nat)
    requires Hashed(sources, hash) && BagAt(entries, sources, hash, b, live) && live <= All(sources)
    requires Tells(sources, b) || LiveIn(sources, live, b) == LiveIn(sources, All(sources), b)
    requires p < |sources| && sources[p].bucket == b
    ensures Shown(entries, sources[p], hash) <==> p in live
  {
    ShownIsInBag(entries, sources[p], hash);
    BagHas(sources, hash, live, b, sources[p].hash);
    assert p in LiveIn(sources, All(sources), b);
    if Shown(entries, sources[p], hash) {
      var i :| i in LiveIn(sources, live, b) && sources[i].hash == sources[p].hash;
      if Tells(sources, b) { assert i == p; }
    }
    if p in live { assert p in LiveIn(sources, live, b); }
  }

  lemma {:induction false} FirmFit(entries: seq<Entry>, sources: seq<Source>, hash: string -> string, b: Bucket,
                                   score: nat -> real, answers: nat -> Compile)
    requires Firm(entries, sources, hash, b)
    ensures var f := Fit(entries, sources, hash, score, answers, 2);
            f.removed.None? ==> Settled(f.last) && Firm(f.entries, Present(f.entries, sources, hash), hash, b)
  {
    var f := Fit(entries, sources, hash, score, answers, 2);
    NothingDropped(sources);
    FitFromBagAt(entries, sources, hash, b, score, answers, [], []);
    FitIsBounded(entries, sources, hash, score, answers, 2);
    FitEnds(entries, sources, hash, score, answers, 2);
    BucketsKeepFloor(sources, 2, f.drops, b);
    var live := Rest(sources, f.drops);
    hide Fit, FitFrom, Settled, Stuck;
    if f.removed.None? {
      BagAtIsOpen(f.entries, sources, hash, b, live);
      OpenIsNotStuck(f.entries, sources, hash, score, b, live);
      if !Tells(sources, b) { SameSize(LiveIn(sources, live, b), LiveIn(sources, All(sources), b)); }
      forall p | 0 <= p < |sources| && sources[p].bucket == b
        ensures Shown(f.entries, sources[p], hash) <==> p in live
      {
        FirmShown(f.entries, sources, hash, b, live, p);
      }
      PresentBag(f.entries, sources, hash, live, b);
    }
  }

  // ----- an entry of one text three times -----

  /** All of the entry and of its bucket is one text, and the entry is at most so much shorter. */
  ghost predicate SameAt(entries: seq<Entry>, sources: seq<Source>, hash: string -> string, b: Bucket, h: string,
                         live: set<nat>, short: nat)
  {
    var k := FindIndex(entries, b);
    && k < |entries| && (forall x | x in entries[k].bullets :: hash(x) == h)
    && (forall i | i in LiveIn(sources, All(sources), b) :: sources[i].hash == h)
    && |entries[k].bullets| + short >= |LiveIn(sources, live, b)|
  }

  lemma {:induction false} SameAtStep(entries: seq<Entry>, sources: seq<Source>, hash: string -> string, b: Bucket,
                                      h: string, live: set<nat>, short: nat, d: nat)
    requires SameAt(entries, sources, hash, b, h, live, short) && d in live && d < |sources|
    requires WithoutBullet(entries, sources[d], hash).Some?
    ensures SameAt(WithoutBullet(entries, sources[d], hash).value, sources, hash, b, h, live - {d}, short)
  {
    var s := sources[d];
    var after := WithoutBullet(entries, s, hash).value;
    if s.bucket != b {
      OtherEntryStays(entries, s, hash, b);
      assert LiveIn(sources, live - {d}, b) == LiveIn(sources, live, b);
    } else {
      var k := FindIndex(entries, b);
      var p := RemovedPlace(entries, s, hash, k);
      SameIndex(entries, after, b);
      assert LiveIn(sources, live - {d}, b) == LiveIn(sources, live, b) - {d} && d in LiveIn(sources, live, b);
      forall x | x in after[k].bullets ensures hash(x) == h {
        assert x in entries[k].bullets;
      }
    }
  }

  lemma {:induction false} FitFromSame(entries: seq<Entry>, sources: seq<Source>, hash: string -> string, b: Bucket,
                                       h: string, short: nat, score: nat -> real, answers: nat -> Compile,
                                       drops: seq<nat>, flagged: seq<Bucket>)
    requires SameAt(entries, sources, hash, b, h, Rest(sources, drops), short)
    ensures var f := FitFrom(entries, sources, hash, score, answers, 2, drops, flagged);
            f.removed.None? ==> SameAt(f.entries, sources, hash, b, h, Rest(sources, f.drops), short)
    decreases Rest(sources, drops)
  {
    hide SameAt, WithoutBullet, NextDrop, IsNext, Eligible, Flag, NeedsDrop, FirstSeen, WithoutBucket, Rest;
    var live := Rest(sources, drops);
    NextIsEligible(entries, sources, hash, score, 2, live);
    var next := NextDrop(entries, sources, hash, score, 2, live);
    if NeedsDrop(answers(|drops|)) && next.Some? {
      SameAtStep(entries, sources, hash, b, h, live, short, next.value);
      RestShrinks(sources, drops, next.value);
      FitFromSame(WithoutBullet(entries, sources[next.value], hash).value, sources, hash, b, h, short, score, answers,
                  drops + [next.value], Flag(flagged, FirstSeen(sources), sources, live, 2));
    }
  }

  /** Three sources of one text, and an entry that lacks at most `short` of them. */
  ghost predicate Triple(entries: seq<Entry>, sources: seq<Source>, hash: string -> string, b: Bucket, h: string,
                         short: nat)
  {
    Hashed(sources, hash) && SameAt(entries, sources, hash, b, h, All(sources), short)
    && |LiveIn(sources, All(sources), b)| == 3
  }

  lemma {:induction false} TripleFit(entries: seq<Entry>, sources: seq<Source>, hash: string -> string, b: Bucket,
                                     h: string, short: nat, score: nat -> real, answers: nat -> Compile)
    requires Triple(entries, sources, hash, b, h, short) && short <= 2
    ensures var f := Fit(entries, sources, hash, score, answers, 2);
            f.removed.None? ==>
              && Settled(f.last)
              && (short <= 1 ==> Triple(f.entries, Present(f.entries, sources, hash), hash, b, h, short + 1))
  {
    var f := Fit(entries, sources, hash, score, answers, 2);
    NothingDropped(sources);
    FitFromSame(entries, sources, hash, b, h, short, score, answers, [], []);
    FitIsBounded(entries, sources, hash, score, answers, 2);
    FitEnds(entries, sources, hash, score, answers, 2);
    BucketsKeepFloor(sources, 2, f.drops, b);
    hide Fit, FitFrom, Settled, Stuck;
    if f.removed.None? {
      TripleIsOpen(f.entries, sources, hash, b, h, short, Rest(sources, f.drops));
      OpenIsNotStuck(f.entries, sources, hash, score, b, Rest(sources, f.drops));
      if short <= 1 { TripleStays(f.entries, sources, hash, b, h, short, Rest(sources, f.drops)); }
    }
  }

  lemma {:induction false} TripleIsOpen(entries: seq<Entry>, sources: seq<Source>, hash: string -> string, b: Bucket,
                                        h: string, short: nat, live: set<nat>)
    requires SameAt(entries, sources, hash, b, h, live, short) && short <= 2 && live <= All(sources)
    requires |LiveIn(sources, live, b)| >= 2
    ensures Open(entries, sources, hash, b, live)
  {
    var bullets := entries[FindIndex(entries, b)].bullets;
    forall i | i in LiveIn(sources, live, b) && |LiveIn(sources, live, b)| > 2
      ensures sources[i].hash in Hashes(bullets, hash)
    {
      assert i in LiveIn(sources, All(sources), b) && bullets[0] in bullets;
    }
  }

  lemma {:induction false} TripleStays(entries: seq<Entry>, sources: seq<Source>, hash: string -> string, b: Bucket,
                                       h: string, short: nat, live: set<nat>)
    requires Hashed(sources, hash) && SameAt(entries, sources, hash, b, h, live, short) && short <= 1
    requires |LiveIn(sources, All(sources), b)| == 3 && |LiveIn(sources, live, b)| >= 2
    ensures Triple(entries, Present(entries, sources, hash), hash, b, h, short + 1)
  {
    var bullets := entries[FindIndex(entries, b)].bullets;
    var ss := Present(entries, sources, hash);
    forall p | 0 <= p < |sources| && sources[p].bucket == b ensures Shown(entries, sources[p], hash) {
      assert p in LiveIn(sources, All(sources), b) && bullets[0] in bullets;
    }
    PresentBag(entries, sources, hash, All(sources), b);
    forall i | i in LiveIn(ss, All(ss), b) ensures ss[i].hash == h {
      assert ss[i] in sources;
      var p :| 0 <= p < |sources| && sources[p] == ss[i];
      assert p in LiveIn(sources, All(sources), b);
    }
  }

  // ----- one such entry is enough -----

  lemma {:induction false} FirmIteration(entries: seq<Entry>, hash: string -> string, trial: Trial, b: Bucket)
    requires Firm(entries, Collect(entries, hash), hash, b)
    ensures var it := Iterate(entries, hash, trial); it.accepted.Some? ==> Fits(it.accepted.value)
  {
    hide Fit, Firm, Settled;
    var sources := Collect(entries, hash);
    FirmFit(entries, sources, hash, b, trial.noSummary.score, trial.noSummary.answers);
    var first := Fit(entries, sources, hash, trial.noSummary.score, trial.noSummary.answers, FLOOR);
    if first.removed.None? {
      var present := Present(first.entries, sources, hash);
      FirmFit(first.entries, present, hash, b, trial.withSummary.score, trial.withSummary.answers);
      var second := Fit(first.entries, present, hash, trial.withSummary.score, trial.withSummary.answers, FLOOR);
      if second.removed.None? {
        FirmFit(second.entries, Present(second.entries, present, hash), hash, b, trial.retry.score,
                trial.retry.answers);
      }
    }
  }

  lemma {:induction false} TripleIteration(entries: seq<Entry>, hash: string -> string, trial: Trial, b: Bucket,
                                           h: string)
    requires Triple(entries, Collect(entries, hash), hash, b, h, 0)
    ensures var it := Iterate(entries, hash, trial); it.accepted.Some? ==> Fits(it.accepted.value)
  {
    hide Fit, Triple, Settled;
    var sources := Collect(entries, hash);
    TripleFit(entries, sources, hash, b, h, 0, trial.noSummary.score, trial.noSummary.answers);
    var first := Fit(entries, sources, hash, trial.noSummary.score, trial.noSummary.answers, FLOOR);
    if first.removed.None? {
      var present := Present(first.entries, sources, hash);
      TripleFit(first.entries, present, hash, b, h, 1, trial.withSummary.score, trial.withSummary.answers);
      var second := Fit(first.entries, present, hash, trial.withSummary.score, trial.withSummary.answers, FLOOR);
      if second.removed.None? {
        TripleFit(second.entries, Present(second.entries, present, hash), hash, b, h, 2, trial.retry.score,
                  trial.retry.answers);
      }
    }
  }

  /** An entry in its document, and its sources. */
  lemma {:induction false} EntrySources(entries: seq<Entry>, hash: string -> string, e: Entry)
    requires DistinctEntries(entries) && e in entries
    ensures var ss := Collect(entries, hash);
            var k := FindIndex(entries, e.bucket);
            && k < |entries| && entries[k] == e && Hashed(ss, hash)
            && BagAt(entries, ss, hash, e.bucket, All(ss)) && |LiveIn(ss, All(ss), e.bucket)| == |e.bullets|
  {
    var i :| 0 <= i < |entries| && entries[i] == e;
    assert FindIndex(entries, e.bucket) == i;
    CollectBagged(entries, hash);
    CollectSize(entries, hash, e.bucket);
    assert entries[i] in entries;
  }

  lemma {:induction false} OneTextIsTriple(entries: seq<Entry>, hash: string -> string, e: Entry)
    requires DistinctEntries(entries) && e in entries && |e.bullets| == 3
    requires forall i, k | 0 <= i < k < 3 :: hash(e.bullets[i]) == hash(e.bullets[k])
    ensures Triple(entries, Collect(entries, hash), hash, e.bucket, hash(e.bullets[0]), 0)
  {
    var ss, h := Collect(entries, hash), hash(e.bullets[0]);
    EntrySources(entries, hash, e);
    forall i | i in LiveIn(ss, All(ss), e.bucket) ensures ss[i].hash == h {
      BagHas(ss, hash, All(ss), e.bucket, ss[i].hash);
      HashesHave(e.bullets, hash, ss[i].hash);
    }
    forall x | x in e.bullets ensures hash(x) == h { var i :| 0 <= i < 3 && e.bullets[i] == x; }
  }

  /** With one entry that cannot be stranded, every accepted resume fits. */
  lemma {:induction false} OpenEntryFits(entries: seq<Entry>, hash: string -> string, trial: Trial, e: Entry)
    requires AllHave(entries, 2) && DistinctEntries(entries) && e in entries && !Strandable(e, hash)
    ensures var it := Iterate(entries, hash, trial); it.accepted.Some? ==> Fits(it.accepted.value)
  {
    EntrySources(entries, hash, e);
    hide Iterate;
    if |e.bullets| == 2 || DistinctBullets(e, hash) {
      if DistinctBullets(e, hash) { CollectTells(entries, hash, e); }
      FirmIteration(entries, hash, trial, e.bucket);
    } else {
      OneTextIsTriple(entries, hash, e);
      TripleIteration(entries, hash, trial, e.bucket, hash(e.bullets[0]));
    }
  }
}

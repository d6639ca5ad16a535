/**
  When an accepted resume keeps two bullets in every entry: exactly when each entry of the draft with
  more than two bullets has distinct texts. Removal works by text, so with a repeated text the sources
  that still count as present outnumber the bullets.
 */
module PageFloor {
  import opened Sequences
  import opened Wrappers
  import opened PageFit
  import opened PageFitting
  import opened PageRestart

  // ----- texts as a bag -----

  function Hashes(bullets: seq<string>, hash: string -> string): (bag: multiset<string>)
    ensures |bag| == |bullets|
  {
    if bullets == [] then multiset{} else multiset{hash(bullets[0])} + Hashes(bullets[1..], hash)
  }

  lemma {:induction false} HashesHave(bullets: seq<string>, hash: string -> string, h: string)
    ensures h in Hashes(bullets, hash) <==> HasHash(bullets, hash, h)
  {
    if bullets != [] {
      HashesHave(bullets[1..], hash, h);
      if HasHash(bullets[1..], hash, h) {
        var i :| 0 <= i < |bullets[1..]| && hash(bullets[1..][i]) == h;
        assert hash(bullets[i + 1]) == h;
      }
      if HasHash(bullets, hash, h) && hash(bullets[0]) != h {
        var i :| 0 <= i < |bullets| && hash(bullets[i]) == h;
        assert hash(bullets[1..][i - 1]) == h;
      }
    }
  }

  /** Removing by hash takes one occurrence out of the bag, if there is one. */
  lemma {:induction false} RemovingFromBag(bullets: seq<string>, hash: string -> string, h: string)
    requires h in Hashes(bullets, hash)
    ensures var rest := WithoutFirst(bullets, h, hash);
            rest.Some? && Hashes(rest.value, hash) + multiset{h} == Hashes(bullets, hash)
  {
    if hash(bullets[0]) != h {
      RemovingFromBag(bullets[1..], hash, h);
      var rest := WithoutFirst(bullets[1..], h, hash).value;
      assert ([bullets[0]] + rest)[1..] == rest;
    }
  }

  lemma {:induction false} TwiceInBag(bullets: seq<string>, hash: string -> string, i: nat, k: nat)
    requires i < k < |bullets| && hash(bullets[i]) == hash(bullets[k])
    ensures Hashes(bullets, hash)[hash(bullets[i])] >= 2
  {
    if i == 0 {
      HashesHave(bullets[1..], hash, hash(bullets[0]));
      assert bullets[1..][k - 1] == bullets[k];
    } else {
      TwiceInBag(bullets[1..], hash, i - 1, k - 1);
    }
  }

  /** The bag of a bucket's live sources. */
  function Bag(sources: seq<Source>, hash: string -> string, live: set<nat>, b: Bucket): multiset<string> {
    Hashes(Kept(sources, live, b, 0), hash)
  }

  lemma {:induction false} HashesCons(x: string, rest: seq<string>, hash: string -> string)
    ensures Hashes([x] + rest, hash) == multiset{hash(x)} + Hashes(rest, hash)
  {
    assert ([x] + rest)[1..] == rest;
  }

  lemma {:induction false} BagSwap(a: multiset<string>, b: multiset<string>, c: multiset<string>)
    ensures a + b + c == a + (b + c) == a + c + b
  {
  }

  lemma {:induction false} BagWithout(sources: seq<Source>, hash: string -> string, live: set<nat>, d: nat, from: nat)
    requires Hashed(sources, hash) && from <= d < |sources| && d in live
    ensures var b := sources[d].bucket;
            Hashes(Kept(sources, live - {d}, b, from), hash) + multiset{sources[d].hash}
            == Hashes(Kept(sources, live, b, from), hash)
    decreases d - from
  {
    hide Hashes;
    var b := sources[d].bucket;
    var g := multiset{sources[d].hash};
    if from == d {
      KeptIgnoresEarlier(sources, live, d, b, from + 1);
      var kept := Kept(sources, live, b, from + 1);
      HashesCons(sources[d].text, kept, hash);
      BagSwap(multiset{}, g, Hashes(kept, hash));
    } else {
      BagWithout(sources, hash, live, d, from + 1);
      if from in live && sources[from].bucket == b {
        var before, after := Kept(sources, live, b, from + 1), Kept(sources, live - {d}, b, from + 1);
        var x := sources[from].text;
        HashesCons(x, before, hash);
        HashesCons(x, after, hash);
        BagSwap(multiset{hash(x)}, Hashes(after, hash), g);
      }
    }
  }

  // ----- the first fit -----

  /** Every entry has the texts of its bucket's live sources, repeated ones as often. */
  ghost predicate Bagged(entries: seq<Entry>, sources: seq<Source>, hash: string -> string, live: set<nat>) {
    && DistinctEntries(entries) && Homed(entries, sources) && Hashed(sources, hash)
    && forall e | e in entries :: Hashes(e.bullets, hash) == Bag(sources, hash, live, e.bucket)
  }

  /** Then every live source can be removed, and it stays so. */
  lemma {:induction false} BaggedStep(entries: seq<Entry>, sources: seq<Source>, hash: string -> string,
                                      live: set<nat>, d: nat)
    requires Bagged(entries, sources, hash, live) && d in live && d < |sources|
    ensures var after := WithoutBullet(entries, sources[d], hash);
            && after.Some? && SameBuckets(entries, after.value)
            && Bagged(after.value, sources, hash, live - {d})
  {
    hide Hashes, Kept, WithoutFirst;
    var s := sources[d];
    var home :| home in entries && home.bucket == s.bucket;
    var k := FindIndex(entries, s.bucket);
    assert k < |entries| && entries[k] in entries;
    BagWithout(sources, hash, live, d, 0);
    RemovingFromBag(entries[k].bullets, hash, s.hash) by {
      assert s.hash in Bag(sources, hash, live, s.bucket);
    }
    var rest := WithoutFirst(entries[k].bullets, s.hash, hash).value;
    BagCancel(Hashes(rest, hash), Bag(sources, hash, live - {d}, s.bucket), s.hash);
    var after := entries[k := Entry(s.bucket, rest)];
    SameBucketsHomed(entries, after, sources);
    forall e | e in after ensures Hashes(e.bullets, hash) == Bag(sources, hash, live - {d}, e.bucket) {
      var i :| 0 <= i < |after| && after[i] == e;
      if i != k {
        assert entries[i] in entries;
        KeptIgnoresEarlier(sources, live, d, e.bucket, 0);
      }
    }
  }

  lemma {:induction false} BagCancel(a: multiset<string>, b: multiset<string>, h: string)
    requires a + multiset{h} == b + multiset{h}
    ensures a == b
  {
    assert a == (a + multiset{h}) - multiset{h} && b == (b + multiset{h}) - multiset{h};
  }

  /** With something in every bucket, such a document is never stuck. */
  lemma {:induction false} BaggedIsNotStuck(entries: seq<Entry>, sources: seq<Source>, hash: string -> string,
                                            score: nat -> real, drops: seq<nat>)
    requires entries != [] && Bagged(entries, sources, hash, Rest(sources, drops)) && EligibleRun(sources, FLOOR, drops)
    requires forall e | e in entries :: |LiveIn(sources, All(sources), e.bucket)| >= FLOOR
    ensures !Stuck(entries, sources, hash, score, FLOOR, Rest(sources, drops))
  {
    var live, b := Rest(sources, drops), entries[0].bucket;
    assert entries[0] in entries;
    BucketsKeepFloor(sources, FLOOR, drops, b);
    var left := LiveIn(sources, live, b);
    var c := LeastExists(left, score);
    assert sources[c] in sources;
    if |left| > FLOOR {
      BaggedStep(entries, sources, hash, live, c);
      hide WithoutBullet;
      assert Removable(entries, sources, hash, score, FLOOR, live, c);
    }
  }

  lemma {:induction false} FitFromBagged(entries: seq<Entry>, sources: seq<Source>, hash: string -> string,
                                         score: nat -> real, answers: nat -> Compile, drops: seq<nat>,
                                         flagged: seq<Bucket>)
    requires Bagged(entries, sources, hash, Rest(sources, drops))
    ensures var f := FitFrom(entries, sources, hash, score, answers, FLOOR, drops, flagged);
            f.removed.None? ==> SameBuckets(entries, f.entries)
                                && Bagged(f.entries, sources, hash, Rest(sources, f.drops))
    decreases Rest(sources, drops)
  {
    hide Bagged, WithoutBullet, NextDrop, IsNext, Eligible, Flag, NeedsDrop, FirstSeen, WithoutBucket, Rest;
    var live := Rest(sources, drops);
    NextIsEligible(entries, sources, hash, score, FLOOR, live);
    var next := NextDrop(entries, sources, hash, score, FLOOR, live);
    if NeedsDrop(answers(|drops|)) && next.Some? {
      BaggedStep(entries, sources, hash, live, next.value);
      RestShrinks(sources, drops, next.value);
      FitFromBagged(WithoutBullet(entries, sources[next.value], hash).value, sources, hash, score, answers,
                    drops + [next.value], Flag(flagged, FirstSeen(sources), sources, live, FLOOR));
    }
  }

  lemma {:induction false} CollectBagged(entries: seq<Entry>, hash: string -> string)
    requires DistinctEntries(entries)
    ensures var ss := Collect(entries, hash); Bagged(entries, ss, hash, All(ss))
  {
    CollectShows(entries, hash);
  }

  /** Whatever texts repeat, a first fit that gives nothing up is complete and settled. */
  lemma {:induction false} FirstFitFits(entries: seq<Entry>, hash: string -> string, score: nat -> real,
                                        answers: nat -> Compile)
    requires entries != [] && AllHave(entries, FLOOR) && DistinctEntries(entries)
    ensures var f := Fit(entries, Collect(entries, hash), hash, score, answers, FLOOR);
            f.removed.None? ==> Complete(entries, f.entries) && Settled(f.last)
  {
    hide Bagged, Settled, Stuck, FitFrom, Rest, LiveIn, NeedsDrop, DistinctEntries, AllHave;
    var sources := Collect(entries, hash);
    CollectBagged(entries, hash);
    FitIsBounded(entries, sources, hash, score, answers, FLOOR);
    FitEnds(entries, sources, hash, score, answers, FLOOR);
    NothingDropped(sources);
    FitFromBagged(entries, sources, hash, score, answers, [], []);
    CollectHasFloor(entries, hash);
    var f := Fit(entries, sources, hash, score, answers, FLOOR);
    if f.removed.None? { BaggedEnds(entries, f.entries, sources, hash, score, f.drops); }
  }

  lemma NothingDropped(sources: seq<Source>)
    ensures Rest(sources, []) == All(sources)
  {
  }

  lemma {:induction false} CollectHasFloor(entries: seq<Entry>, hash: string -> string)
    requires AllHave(entries, FLOOR) && DistinctEntries(entries)
    ensures var ss := Collect(entries, hash);
            forall e | e in entries :: |LiveIn(ss, All(ss), e.bucket)| >= FLOOR
  {
    var ss := Collect(entries, hash);
    forall e | e in entries ensures |LiveIn(ss, All(ss), e.bucket)| >= FLOOR { CollectSize(entries, hash, e.bucket); }
  }

  /** So the resume without summary always fits. */
  lemma {:induction false} NoSummaryFits(entries: seq<Entry>, hash: string -> string, trial: Trial)
    requires entries != [] && AllHave(entries, FLOOR) && DistinctEntries(entries)
    ensures var it := Iterate(entries, hash, trial);
            it.accepted.Some? ==> Complete(entries, it.accepted.value.noSummary.entries)
                                  && Settled(it.accepted.value.noSummary.last)
  {
    hide Fit, Complete, Settled;
    FirstFitFits(entries, hash, trial.noSummary.score, trial.noSummary.answers);
  }

  lemma {:induction false} BaggedEnds(before: seq<Entry>, entries: seq<Entry>, sources: seq<Source>,
                                      hash: string -> string, score: nat -> real, drops: seq<nat>)
    requires before != [] && SameBuckets(before, entries) && EligibleRun(sources, FLOOR, drops)
    requires Bagged(entries, sources, hash, Rest(sources, drops))
    requires forall e | e in before :: |LiveIn(sources, All(sources), e.bucket)| >= FLOOR
    ensures Complete(before, entries) && !Stuck(entries, sources, hash, score, FLOOR, Rest(sources, drops))
  {
    forall e | e in entries
      ensures |LiveIn(sources, All(sources), e.bucket)| >= FLOOR && |e.bullets| >= FLOOR
    {
      var k :| 0 <= k < |entries| && entries[k] == e;
      assert before[k] in before;
      BucketsKeepFloor(sources, FLOOR, drops, e.bucket);
      KeptCount(sources, Rest(sources, drops), e.bucket);
      assert |Hashes(e.bullets, hash)| == |e.bullets|;
    }
    BaggedIsNotStuck(entries, sources, hash, score, drops);
  }

  // ----- a document that lost one of two equal texts -----

  /** The pair of sources with the same text in the same bucket, and the entry at place `m`. */
  datatype Pair = Pair(m: nat, bucket: Bucket, hash: string, p: nat, q: nat)

  ghost predicate IsPair(t: Pair, sources: seq<Source>) {
    && t.p < |sources| && t.q < |sources| && t.p != t.q
    && sources[t.p].bucket == sources[t.q].bucket == t.bucket
    && sources[t.p].hash == sources[t.q].hash == t.hash
  }

  /** The entry has one bullet fewer than its bucket has live sources: one of the pair's text. */
  ghost predicate Short(t: Pair, entries: seq<Entry>, sources: seq<Source>, hash: string -> string, live: set<nat>) {
    && FindIndex(entries, t.bucket) == t.m < |entries|
    && Hashes(entries[t.m].bullets, hash) + multiset{t.hash} == Bag(sources, hash, live, t.bucket)
  }

  lemma {:induction false} ShortLength(t: Pair, entries: seq<Entry>, sources: seq<Source>, hash: string -> string,
                                       live: set<nat>)
    requires Short(t, entries, sources, hash, live)
    ensures |entries[t.m].bullets| + 1 == |LiveIn(sources, live, t.bucket)|
  {
    KeptCount(sources, live, t.bucket);
    assert |Hashes(entries[t.m].bullets, hash) + multiset{t.hash}| == |entries[t.m].bullets| + 1;
  }

  /** While one of the pair is live, any other source of the bucket can be dropped, and the entry stays short. */
  lemma {:induction false} ShortStep(t: Pair, entries: seq<Entry>, sources: seq<Source>, hash: string -> string,
                                     live: set<nat>, d: nat)
    requires IsPair(t, sources) && Hashed(sources, hash) && Short(t, entries, sources, hash, live)
    requires t.q in live && d in live && d < |sources| && d != t.q && sources[d].bucket == t.bucket
    ensures var after := WithoutBullet(entries, sources[d], hash);
            && after.Some? && |after.value| == |entries|
            && Short(t, after.value, sources, hash, live - {d})
  {
    hide Hashes, Kept, WithoutFirst;
    BagWithout(sources, hash, live, d, 0);
    BagWithout(sources, hash, live - {d}, t.q, 0);
    var bullets, g := entries[t.m].bullets, sources[d].hash;
    ShortBag(Hashes(bullets, hash), Bag(sources, hash, live - {d}, t.bucket),
             Bag(sources, hash, live - {d} - {t.q}, t.bucket), g, t.hash);
    RemovingFromBag(bullets, hash, g);
    var rest := WithoutFirst(bullets, g, hash).value;
    ShortBagStep(Hashes(rest, hash), Bag(sources, hash, live - {d}, t.bucket), g, t.hash);
    SameIndex(entries, entries[t.m := Entry(t.bucket, rest)], t.bucket);
  }

  lemma {:induction false} ShortBag(doc: multiset<string>, fewer: multiset<string>, fewest: multiset<string>,
                                    g: string, h: string)
    requires doc + multiset{h} == fewer + multiset{g} && fewest + multiset{h} == fewer
    ensures g in doc
  {
    assert (doc + multiset{h})[g] == doc[g] + multiset{h}[g];
    assert (fewer + multiset{g})[g] == fewest[g] + multiset{h}[g] + 1;
  }

  lemma {:induction false} ShortBagStep(rest: multiset<string>, fewer: multiset<string>, g: string, h: string)
    requires rest + multiset{g} + multiset{h} == fewer + multiset{g}
    ensures rest + multiset{h} == fewer
  {
    BagSwap(rest, multiset{g}, multiset{h});
    assert forall x :: (rest + multiset{h} + multiset{g})[x] == (fewer + multiset{g})[x];
    assert rest + multiset{h} == (rest + multiset{h} + multiset{g}) - multiset{g};
    assert fewer == (fewer + multiset{g}) - multiset{g};
  }

  lemma {:induction false} SameIndex(a: seq<Entry>, b: seq<Entry>, c: Bucket)
    requires SameBuckets(a, b)
    ensures FindIndex(a, c) == FindIndex(b, c)
  {
    if a != [] && a[0].bucket != c { SameIndex(a[1..], b[1..], c); }
  }

  // ----- the trial -----

  /** Scores do not change from fit to fit. */
  ghost predicate Steady(trial: Trial) {
    trial.noSummary.score == trial.withSummary.score == trial.retry.score
  }

  ghost predicate KeepsFloor(entries: seq<Entry>, hash: string -> string, trial: Trial) {
    var it := Iterate(entries, hash, trial);
    it.accepted.Some? ==> KeepsAll(entries, it.accepted.value)
  }

  /** Whatever the scores and the compiler say. */
  ghost predicate AlwaysKeepsFloor(entries: seq<Entry>, hash: string -> string) {
    forall trial: Trial :: KeepsFloor(entries, hash, trial)
  }

  ghost predicate SteadilyKeepsFloor(entries: seq<Entry>, hash: string -> string) {
    forall trial: Trial | Steady(trial) :: KeepsFloor(entries, hash, trial)
  }

  const OVERFLOW := Compile(false, "ok", Some(2))
  const FITS := Compile(true, "ok", Some(1))

  /** The page overflows `n` times, then fits. */
  function OverflowsFor(n: nat): nat -> Compile {
    (k: nat) => if k < n then OVERFLOW else FITS
  }

  /** One of the pair scores lowest, then the bucket's other sources, then everything else. */
  function PairApart(t: Pair, sources: seq<Source>): nat -> real {
    (i: nat) =>
      if i == t.p then 0.0
      else if i < |sources| && sources[i].bucket == t.bucket && i != t.q then 1.0
      else 2.0
  }

  /** Both fits score alike; the page overflows once, and with the summary `n - 2` times. */
  function LosingTrial(t: Pair, sources: seq<Source>, n: nat): Trial
    requires n >= 2
  {
    var score := PairApart(t, sources);
    Trial(Round(score, OverflowsFor(1)), Round(score, OverflowsFor(n - 2)), Round(score, OverflowsFor(0)), true, false)
  }

  /** The pair's first is the first to go. */
  lemma {:induction false} FirstIsNext(t: Pair, entries: seq<Entry>, sources: seq<Source>, hash: string -> string,
                                       live: set<nat>)
    requires IsPair(t, sources) && t.p in live && |LiveIn(sources, live, t.bucket)| > FLOOR
    requires WithoutBullet(entries, sources[t.p], hash).Some?
    ensures NextDrop(entries, sources, hash, PairApart(t, sources), FLOOR, live) == Some(t.p)
  {
    hide WithoutBullet, NextDrop;
    assert Leads(sources, PairApart(t, sources), FLOOR, live, t.p);
    var next := NextDrop(entries, sources, hash, PairApart(t, sources), FLOOR, live);
    assert Removable(entries, sources, hash, PairApart(t, sources), FLOOR, live, t.p);
  }

  /** The first fit drops one of the pair. */
  lemma {:induction false} FirstFit(t: Pair, entries: seq<Entry>, sources: seq<Source>, hash: string -> string)
    requires IsPair(t, sources) && Hashed(sources, hash) && FindIndex(entries, t.bucket) == t.m < |entries|
    requires Hashes(entries[t.m].bullets, hash) == Bag(sources, hash, All(sources), t.bucket)
    requires |LiveIn(sources, All(sources), t.bucket)| > FLOOR
    ensures var f := Fit(entries, sources, hash, PairApart(t, sources), OverflowsFor(1), FLOOR);
            var rest := WithoutFirst(entries[t.m].bullets, t.hash, hash);
            && rest.Some? && f.removed.None?
            && f.entries == entries[t.m := Entry(t.bucket, rest.value)]
            && Short(t, f.entries, sources, hash, All(sources))
  {
    hide Hashes, Kept, WithoutFirst, NextDrop, Flag, LiveIn;
    BagWithout(sources, hash, All(sources), t.p, 0);
    RemovingFromBag(entries[t.m].bullets, hash, t.hash) by {
      assert t.hash in Bag(sources, hash, All(sources), t.bucket);
    }
    var after := WithoutBullet(entries, sources[t.p], hash).value;
    SameIndex(entries, after, t.bucket);
    assert Short(t, after, sources, hash, All(sources));
    OneDrop(t, entries, sources, hash);
  }

  lemma {:induction false} OneDrop(t: Pair, entries: seq<Entry>, sources: seq<Source>, hash: string -> string)
    requires IsPair(t, sources) && |LiveIn(sources, All(sources), t.bucket)| > FLOOR
    requires WithoutBullet(entries, sources[t.p], hash).Some?
    ensures Fit(entries, sources, hash, PairApart(t, sources), OverflowsFor(1), FLOOR)
            == Fitted(WithoutBullet(entries, sources[t.p], hash).value, FITS, None, [t.p])
  {
    FirstIsNext(t, entries, sources, hash, All(sources));
    hide WithoutBullet, NextDrop, Flag;
    var after := WithoutBullet(entries, sources[t.p], hash).value;
    var now := Flag([], FirstSeen(sources), sources, All(sources), FLOOR);
    assert NeedsDrop(OVERFLOW) && !NeedsDrop(FITS) && [] + [t.p] == [t.p];
    assert FitFrom(after, sources, hash, PairApart(t, sources), OverflowsFor(1), FLOOR, [t.p], now)
        == Fitted(after, FITS, None, [t.p]);
  }

  /** The next drop is of this bucket, but not the pair's other one. */
  lemma {:induction false} NextIsOther(t: Pair, entries: seq<Entry>, sources: seq<Source>, hash: string -> string,
                                       live: set<nat>)
    requires IsPair(t, sources) && Hashed(sources, hash) && Short(t, entries, sources, hash, live)
    requires t.q in live && |LiveIn(sources, live, t.bucket)| > FLOOR
    ensures var next := NextDrop(entries, sources, hash, PairApart(t, sources), FLOOR, live);
            next.Some? && next.value in LiveIn(sources, live, t.bucket) && next.value != t.q
  {
    var score := PairApart(t, sources);
    var all := LiveIn(sources, live, t.bucket);
    var d := LeastExists(all, score);
    var other := SomeOther(all, t.q);
    assert score(other) <= 1.0 && score(d) <= 1.0;
    ShortStep(t, entries, sources, hash, live, d);
    hide WithoutBullet, NextDrop;
    assert Removable(entries, sources, hash, score, FLOOR, live, d);
    var next := NextDrop(entries, sources, hash, score, FLOOR, live);
    assert score(next.value) <= 1.0;
  }

  lemma {:induction false} SomeOther(all: set<nat>, q: nat) returns (x: nat)
    requires |all| > 1
    ensures x in all && x != q
  {
    var rest := all - {q};
    assert all <= rest + {q};
    SubsetSize(all, rest + {q});
    x :| x in rest;
  }

  /** The second fit drops one of the bucket's sources after the other, and one bullet is left. */
  lemma {:induction false} SecondFit(t: Pair, entries: seq<Entry>, sources: seq<Source>, hash: string -> string,
                                     n: nat, drops: seq<nat>, flagged: seq<Bucket>)
    requires IsPair(t, sources) && Hashed(sources, hash) && n >= 2
    requires Short(t, entries, sources, hash, Rest(sources, drops)) && t.q in Rest(sources, drops)
    requires |drops| + |LiveIn(sources, Rest(sources, drops), t.bucket)| == n && |drops| + 2 <= n
    ensures var f := FitFrom(entries, sources, hash, PairApart(t, sources), OverflowsFor(n - 2), FLOOR,
                             drops, flagged);
            f.removed.None? && |f.entries| == |entries| && |f.entries[t.m].bullets| == 1
    decreases |LiveIn(sources, Rest(sources, drops), t.bucket)|
  {
    var live := Rest(sources, drops);
    ShortLength(t, entries, sources, hash, live);
    if |LiveIn(sources, live, t.bucket)| > FLOOR {
      NextIsOther(t, entries, sources, hash, live);
      var d := NextDrop(entries, sources, hash, PairApart(t, sources), FLOOR, live).value;
      ShortStep(t, entries, sources, hash, live, d);
      RestShrinks(sources, drops, d);
      assert LiveIn(sources, live - {d}, t.bucket) == LiveIn(sources, live, t.bucket) - {d};
      SecondFit(t, WithoutBullet(entries, sources[d], hash).value, sources, hash, n, drops + [d],
                Flag(flagged, FirstSeen(sources), sources, live, FLOOR));
    }
  }

  // ----- from an entry with a repeated text -----

  lemma {:induction false} PlaceOf(entries: seq<Entry>, hash: string -> string, m: nat, i: nat) returns (p: nat)
    requires m < |entries| && i < |entries[m].bullets|
    ensures p < |Collect(entries, hash)|
    ensures Collect(entries, hash)[p]
            == Source(entries[m].bucket, i, hash(entries[m].bullets[i]), entries[m].bullets[i])
  {
    var own := SourcesOf(entries[0], 0, hash);
    SourcesOfAt(entries[0], 0, hash);
    if m == 0 {
      p := i;
    } else {
      var rest := PlaceOf(entries[1..], hash, m - 1, i);
      p := |own| + rest;
    }
  }

  lemma {:induction false} PresentAll(entries: seq<Entry>, sources: seq<Source>, hash: string -> string)
    requires forall i | 0 <= i < |sources| :: Shown(entries, sources[i], hash)
    ensures Present(entries, sources, hash) == sources
  {
    if sources != [] { PresentAll(entries, sources[1..], hash); }
  }

  /** Losing one of two equal texts hides no source. */
  lemma {:induction false} StillPresent(t: Pair, entries: seq<Entry>, rest: seq<string>, hash: string -> string)
    requires DistinctEntries(entries) && t.m < |entries| && entries[t.m].bucket == t.bucket
    requires WithoutFirst(entries[t.m].bullets, t.hash, hash) == Some(rest)
    requires Hashes(rest, hash) + multiset{t.hash} == Hashes(entries[t.m].bullets, hash)
    requires Hashes(entries[t.m].bullets, hash)[t.hash] >= 2
    ensures var sources := Collect(entries, hash);
            Present(entries[t.m := Entry(t.bucket, rest)], sources, hash) == sources
  {
    var sources := Collect(entries, hash);
    var after := entries[t.m := Entry(t.bucket, rest)];
    CollectShows(entries, hash);
    forall i | 0 <= i < |sources| ensures Shown(after, sources[i], hash) {
      var s := sources[i];
      assert s in sources;
      SameIndex(entries, after, s.bucket);
      PresentBefore(entries, hash, i);
      var k := FindIndex(entries, s.bucket);
      if k == t.m {
        HashesHave(entries[k].bullets, hash, s.hash);
        HashesHave(rest, hash, s.hash);
        assert s.hash in Hashes(rest, hash);
      }
    }
    PresentAll(after, sources, hash);
  }

  /** Every collected source is shown by the document it was collected from. */
  lemma {:induction false} PresentBefore(entries: seq<Entry>, hash: string -> string, i: nat)
    requires DistinctEntries(entries) && i < |Collect(entries, hash)|
    ensures Shown(entries, Collect(entries, hash)[i], hash)
  {
    var sources := Collect(entries, hash);
    var s := sources[i];
    CollectShows(entries, hash);
    assert s in sources;
    var home :| home in entries && home.bucket == s.bucket;
    var k := FindIndex(entries, s.bucket);
    assert k < |entries| && entries[k] in entries;
    KeptHas(sources, hash, All(sources), s.bucket, 0, s.hash);
    assert LiveHash(sources, All(sources), s.bucket, 0, s.hash);
  }

  /** A repeated text in an entry of more than two bullets: some trial is accepted with one bullet left. */
  lemma {:induction false} RepeatedTextLosesTheFloor(entries: seq<Entry>, hash: string -> string,
                                                     m: nat, i: nat, k: nat) returns (trial: Trial)
    requires DistinctEntries(entries) && m < |entries| && |entries[m].bullets| > FLOOR
    requires i < k < |entries[m].bullets| && hash(entries[m].bullets[i]) == hash(entries[m].bullets[k])
    ensures Steady(trial)
    ensures var it := Iterate(entries, hash, trial);
            && it.accepted.Some? && it.accepted.value.withSummary.Some?
            && |it.accepted.value.withSummary.value.entries| == |entries|
            && |it.accepted.value.withSummary.value.entries[m].bullets| == 1
  {
    var sources := Collect(entries, hash);
    var e := entries[m];
    var p := PlaceOf(entries, hash, m, i);
    var q := PlaceOf(entries, hash, m, k);
    var t := Pair(m, e.bucket, hash(e.bullets[i]), p, q);
    assert IsPair(t, sources);
    trial := LosingTrial(t, sources, |e.bullets|);
    PairLosesTheFloor(t, entries, hash, i, k);
  }

  lemma {:induction false} PairLosesTheFloor(t: Pair, entries: seq<Entry>, hash: string -> string, i: nat, k: nat)
    requires DistinctEntries(entries) && t.m < |entries| && |entries[t.m].bullets| > FLOOR
    requires entries[t.m].bucket == t.bucket && IsPair(t, Collect(entries, hash))
    requires i < k < |entries[t.m].bullets|
    requires hash(entries[t.m].bullets[i]) == hash(entries[t.m].bullets[k]) == t.hash
    ensures var it := Iterate(entries, hash, LosingTrial(t, Collect(entries, hash), |entries[t.m].bullets|));
            && it.accepted.Some? && it.accepted.value.withSummary.Some?
            && |it.accepted.value.withSummary.value.entries| == |entries|
            && |it.accepted.value.withSummary.value.entries[t.m].bullets| == 1
  {
    hide Fit, Hashes, Present, Collect, WithoutFirst, Kept, LiveIn, FindIndex, Short;
    var sources := Collect(entries, hash);
    var e := entries[t.m];
    CollectShows(entries, hash);
    CollectSize(entries, hash, e.bucket);
    assert FindIndex(entries, e.bucket) == t.m;
    assert e in entries;
    FirstFit(t, entries, sources, hash);
    var first := Fit(entries, sources, hash, PairApart(t, sources), OverflowsFor(1), FLOOR);
    TwiceInBag(e.bullets, hash, i, k);
    HashesHave(e.bullets, hash, t.hash);
    RemovingFromBag(e.bullets, hash, t.hash);
    StillPresent(t, entries, WithoutFirst(e.bullets, t.hash, hash).value, hash);
    SecondFromStart(t, first.entries, sources, hash, |e.bullets|);
  }

  lemma {:induction false} SecondFromStart(t: Pair, entries: seq<Entry>, sources: seq<Source>,
                                           hash: string -> string, n: nat)
    requires IsPair(t, sources) && Hashed(sources, hash) && n >= 2
    requires Short(t, entries, sources, hash, All(sources)) && |LiveIn(sources, All(sources), t.bucket)| == n
    ensures var f := Fit(entries, sources, hash, PairApart(t, sources), OverflowsFor(n - 2), FLOOR);
            f.removed.None? && |f.entries| == |entries| && |f.entries[t.m].bullets| == 1
  {
    assert Rest(sources, []) == All(sources);
    SecondFit(t, entries, sources, hash, n, [], []);
  }

  /** Every accepted resume of a draft keeps the floor, whatever the scores and the compiler say, if and
      only if each entry with more than two bullets has distinct texts. Steady scores do not help. */
  lemma {:induction false} FloorKeptIffTellable(entries: seq<Entry>, hash: string -> string)
    requires entries != [] && AllHave(entries, FLOOR) && DistinctEntries(entries)
    ensures AlwaysKeepsFloor(entries, hash) <==> Tellable(entries, hash)
    ensures SteadilyKeepsFloor(entries, hash) <==> Tellable(entries, hash)
  {
    if Tellable(entries, hash) {
      forall trial: Trial ensures KeepsFloor(entries, hash, trial) { IterateKeepsFloor(entries, hash, trial); }
    } else {
      var e :| e in entries && |e.bullets| > FLOOR && !DistinctBullets(e, hash);
      var m :| 0 <= m < |entries| && entries[m] == e;
      var i, k :| 0 <= i < k < |e.bullets| && hash(e.bullets[i]) == hash(e.bullets[k]);
      var trial := RepeatedTextLosesTheFloor(entries, hash, m, i, k);
      var out := Iterate(entries, hash, trial).accepted.value.withSummary.value.entries;
      assert out[m] in out && |out[m].bullets| < FLOOR;
      assert Steady(trial) && !KeepsFloor(entries, hash, trial);
    }
  }
}

/** The restart loop around the page fit: each restart gives up one entry, and whatever is accepted
    has at least two bullets in every entry. */
module PageRestart {
  import opened Sequences
  import opened Wrappers
  import opened PageFit
  import opened PageFitting
  import opened PageLoop

  // ----- collecting sources from a document -----

  function SourcesOf(e: Entry, from: nat, hash: string -> string): seq<Source>
    decreases |e.bullets| - from
  {
    if from >= |e.bullets| then []
    else [Source(e.bucket, from, hash(e.bullets[from]), e.bullets[from])] + SourcesOf(e, from + 1, hash)
  }

  /** `_collect_active_bullets` on a document already filtered to its active entries. */
  function Collect(entries: seq<Entry>, hash: string -> string): seq<Source> {
    if entries == [] then [] else SourcesOf(entries[0], 0, hash) + Collect(entries[1..], hash)
  }

  predicate HasHash(bullets: seq<string>, hash: string -> string, h: string) {
    exists i | 0 <= i < |bullets| :: hash(bullets[i]) == h
  }

  predicate Shown(entries: seq<Entry>, s: Source, hash: string -> string) {
    var k := FindIndex(entries, s.bucket);
    k < |entries| && HasHash(entries[k].bullets, hash, s.hash)
  }

  /** `_filter_sources_present_in_doc` */
  function Present(entries: seq<Entry>, sources: seq<Source>, hash: string -> string): seq<Source> {
    if sources == [] then []
    else if Shown(entries, sources[0], hash) then [sources[0]] + Present(entries, sources[1..], hash)
    else Present(entries, sources[1..], hash)
  }

  ghost predicate DistinctEntries(entries: seq<Entry>) {
    forall i, k | 0 <= i < k < |entries| :: entries[i].bucket != entries[k].bucket
  }

  ghost predicate DistinctBullets(e: Entry, hash: string -> string) {
    forall i, k | 0 <= i < k < |e.bullets| :: hash(e.bullets[i]) != hash(e.bullets[k])
  }

  const FLOOR: nat := 2

  /** Every entry with more than two bullets, which may therefore lose one, has distinct texts. */
  ghost predicate Tellable(entries: seq<Entry>, hash: string -> string) {
    forall e | e in entries && |e.bullets| > FLOOR :: DistinctBullets(e, hash)
  }

  // ----- a list of sources seen bucket by bucket -----

  function TextsOf(ss: seq<Source>, b: Bucket): seq<string> {
    if ss == [] then []
    else if ss[0].bucket == b then [ss[0].text] + TextsOf(ss[1..], b)
    else TextsOf(ss[1..], b)
  }

  lemma {:induction false} KeptIsTexts(sources: seq<Source>, b: Bucket, from: nat)
    requires from <= |sources|
    ensures Kept(sources, All(sources), b, from) == TextsOf(sources[from..], b)
    decreases |sources| - from
  {
    if from < |sources| {
      KeptIsTexts(sources, b, from + 1);
      assert sources[from..][1..] == sources[from + 1..];
    }
  }

  lemma {:induction false} TextsOfAppend(a: seq<Source>, c: seq<Source>, b: Bucket)
    ensures TextsOf(a + c, b) == TextsOf(a, b) + TextsOf(c, b)
  {
    if a == [] {
      assert a + c == c;
    } else {
      TextsOfAppend(a[1..], c, b);
      assert (a + c)[1..] == a[1..] + c;
    }
  }

  lemma {:induction false} EntryTexts(e: Entry, from: nat, hash: string -> string, b: Bucket)
    requires from <= |e.bullets|
    ensures TextsOf(SourcesOf(e, from, hash), b) == if b == e.bucket then e.bullets[from..] else []
    decreases |e.bullets| - from
  {
    if from < |e.bullets| {
      EntryTexts(e, from + 1, hash, b);
      var s := SourcesOf(e, from, hash);
      assert s[1..] == SourcesOf(e, from + 1, hash);
      assert e.bullets[from..] == [e.bullets[from]] + e.bullets[from + 1..];
    }
  }

  lemma {:induction false} CollectTexts(entries: seq<Entry>, hash: string -> string, b: Bucket)
    requires DistinctEntries(entries)
    ensures TextsOf(Collect(entries, hash), b) ==
            var k := FindIndex(entries, b); if k < |entries| then entries[k].bullets else []
  {
    if entries != [] {
      var e := entries[0];
      var rest := entries[1..];
      CollectTexts(rest, hash, b);
      EntryTexts(e, 0, hash, b);
      TextsOfAppend(SourcesOf(e, 0, hash), Collect(rest, hash), b);
      var k := FindIndex(rest, b);
      if k < |rest| { assert rest[k] == entries[k + 1] && e.bucket != b; }
    }
  }

  /** Every source comes from a bullet of an entry, with the bullet's hash. */
  lemma {:induction false} CollectOrigin(entries: seq<Entry>, hash: string -> string, p: nat)
    requires p < |Collect(entries, hash)|
    ensures var s := Collect(entries, hash)[p];
            s.hash == hash(s.text) && exists e | e in entries :: e.bucket == s.bucket
  {
    var e := entries[0];
    var own := SourcesOf(e, 0, hash);
    SourcesOfAt(e, 0, hash);
    if p < |own| {
      assert e in entries;
    } else {
      CollectOrigin(entries[1..], hash, p - |own|);
      var s := Collect(entries, hash)[p];
      assert s == Collect(entries[1..], hash)[p - |own|];
      var f :| f in entries[1..] && f.bucket == s.bucket;
      assert f in entries;
    }
  }

  lemma {:induction false} SourcesOfAt(e: Entry, from: nat, hash: string -> string)
    requires from <= |e.bullets|
    ensures |SourcesOf(e, from, hash)| == |e.bullets| - from
    ensures forall p | 0 <= p < |e.bullets| - from ::
              SourcesOf(e, from, hash)[p]
              == Source(e.bucket, from + p, hash(e.bullets[from + p]), e.bullets[from + p])
    decreases |e.bullets| - from
  {
    if from < |e.bullets| { SourcesOfAt(e, from + 1, hash); }
  }

  /** Distinct texts of an entry are told apart among the collected sources. */
  lemma {:induction false} CollectTells(entries: seq<Entry>, hash: string -> string, e: Entry)
    requires DistinctEntries(entries) && e in entries && DistinctBullets(e, hash)
    ensures Tells(Collect(entries, hash), e.bucket)
  {
    var own, rest := SourcesOf(entries[0], 0, hash), Collect(entries[1..], hash);
    SourcesOfAt(entries[0], 0, hash);
    var b := e.bucket;
    if entries[0] == e {
      forall k | 0 <= k < |rest| ensures rest[k].bucket != b {
        CollectOrigin(entries[1..], hash, k);
        var f :| f in entries[1..] && f.bucket == rest[k].bucket;
        var n :| 0 <= n < |entries[1..]| && entries[1..][n] == f;
        assert entries[n + 1] == f;
      }
      TellsFront(own, rest, b);
    } else {
      var n :| 0 <= n < |entries| && entries[n] == e;
      assert entries[1..][n - 1] == e && entries[0].bucket != b;
      CollectTells(entries[1..], hash, e);
      TellsBack(own, rest, b);
    }
  }

  lemma TellsFront(own: seq<Source>, rest: seq<Source>, b: Bucket)
    requires Tells(own, b) && forall k | 0 <= k < |rest| :: rest[k].bucket != b
    ensures Tells(own + rest, b)
  {
    forall k | |own| <= k < |own + rest| ensures (own + rest)[k].bucket != b {
      assert (own + rest)[k] == rest[k - |own|];
    }
  }

  lemma TellsBack(own: seq<Source>, rest: seq<Source>, b: Bucket)
    requires Tells(rest, b) && forall k | 0 <= k < |own| :: own[k].bucket != b
    ensures Tells(own + rest, b)
  {
    var ss := own + rest;
    forall i, k | 0 <= i < k < |ss| && ss[i].bucket == ss[k].bucket == b ensures ss[i].hash != ss[k].hash {
      assert ss[i] == rest[i - |own|] && ss[k] == rest[k - |own|];
    }
  }

  lemma ShowsAllIfTexts(entries: seq<Entry>, sources: seq<Source>)
    requires DistinctEntries(entries)
    requires forall e | e in entries :: TextsOf(sources, e.bucket) == e.bullets
    ensures Shows(entries, sources, All(sources))
  {
    forall e | e in entries ensures e.bullets == Kept(sources, All(sources), e.bucket, 0) {
      KeptIsTexts(sources, e.bucket, 0);
      assert sources[0..] == sources;
    }
  }

  /** A bucket has as many sources as its entry has bullets. */
  lemma CollectSize(entries: seq<Entry>, hash: string -> string, b: Bucket)
    requires DistinctEntries(entries)
    ensures var ss := Collect(entries, hash);
            var k := FindIndex(entries, b);
            |LiveIn(ss, All(ss), b)| == if k < |entries| then |entries[k].bullets| else 0
  {
    var ss := Collect(entries, hash);
    CollectTexts(entries, hash, b);
    TextsSize(ss, b);
  }

  lemma TextsSize(sources: seq<Source>, b: Bucket)
    ensures |LiveIn(sources, All(sources), b)| == |TextsOf(sources, b)|
  {
    KeptCount(sources, All(sources), b);
    KeptIsTexts(sources, b, 0);
    assert sources[0..] == sources;
  }

  /** A freshly collected document is ready to be fitted. */
  lemma CollectReady(entries: seq<Entry>, hash: string -> string)
    requires DistinctEntries(entries) && Tellable(entries, hash)
    ensures Ready(entries, Collect(entries, hash), hash, FLOOR)
  {
    var ss := Collect(entries, hash);
    CollectShows(entries, hash);
    forall b: Bucket | |LiveIn(ss, All(ss), b)| > FLOOR ensures Tells(ss, b) {
      CollectSize(entries, hash, b);
      var e := entries[FindIndex(entries, b)];
      assert e in entries;
      CollectTells(entries, hash, e);
    }
  }

  lemma CollectShows(entries: seq<Entry>, hash: string -> string)
    requires DistinctEntries(entries)
    ensures var ss := Collect(entries, hash);
            Hashed(ss, hash) && Homed(entries, ss) && Shows(entries, ss, All(ss))
  {
    var ss := Collect(entries, hash);
    forall i | 0 <= i < |ss| ensures ss[i].hash == hash(ss[i].text) { CollectOrigin(entries, hash, i); }
    forall s | s in ss ensures exists e | e in entries :: e.bucket == s.bucket {
      var p :| 0 <= p < |ss| && ss[p] == s;
      CollectOrigin(entries, hash, p);
    }
    forall e | e in entries ensures TextsOf(ss, e.bucket) == e.bullets {
      CollectTexts(entries, hash, e.bucket);
      var k := FindIndex(entries, e.bucket);
      var i :| 0 <= i < |entries| && entries[i] == e;
      assert i == k;
    }
    ShowsAllIfTexts(entries, ss);
  }

  // ----- fitting again after a first fit -----

  ghost predicate LiveHash(sources: seq<Source>, live: set<nat>, b: Bucket, from: nat, h: string) {
    exists p: nat | from <= p < |sources| && p in live :: sources[p].bucket == b && sources[p].hash == h
  }

  lemma {:induction false} KeptHas(sources: seq<Source>, hash: string -> string, live: set<nat>, b: Bucket,
                                   from: nat, h: string)
    requires Hashed(sources, hash)
    ensures HasHash(Kept(sources, live, b, from), hash, h) <==> LiveHash(sources, live, b, from, h)
    decreases |sources| - from
  {
    if from < |sources| {
      KeptHas(sources, hash, live, b, from + 1, h);
      var tail := Kept(sources, live, b, from + 1);
      if from in live && sources[from].bucket == b {
        var kept := [sources[from].text] + tail;
        assert kept[0] == sources[from].text && hash(kept[0]) == sources[from].hash;
        if HasHash(tail, hash, h) {
          var i :| 0 <= i < |tail| && hash(tail[i]) == h;
          assert kept[i + 1] == tail[i];
        }
        if HasHash(kept, hash, h) && sources[from].hash != h {
          var i :| 0 <= i < |kept| && hash(kept[i]) == h;
          assert kept[i] == tail[i - 1];
        }
      }
    }
  }

  /** Buckets that are not above the floor still have all their sources. */
  ghost predicate SmallKept(sources: seq<Source>, live: set<nat>, floor: nat) {
    forall p | 0 <= p < |sources| && |LiveIn(sources, All(sources), sources[p].bucket)| <= floor :: p in live
  }

  lemma SmallBucketsKept(sources: seq<Source>, floor: nat, drops: seq<nat>)
    requires EligibleRun(sources, floor, drops)
    ensures SmallKept(sources, Rest(sources, drops), floor)
  {
    var live := Rest(sources, drops);
    forall p | 0 <= p < |sources| && |LiveIn(sources, All(sources), sources[p].bucket)| <= floor ensures p in live {
      var b := sources[p].bucket;
      BucketsKeepFloor(sources, floor, drops, b);
      SameSize(LiveIn(sources, live, b), LiveIn(sources, All(sources), b));
      assert p in LiveIn(sources, All(sources), b);
    }
  }

  lemma SameSize(a: set<nat>, b: set<nat>)
    requires a <= b && |a| == |b|
    ensures a == b
  {
    assert b == a + (b - a) && |b| == |a| + |b - a|;
  }

  /** A source is present in the document exactly when it is still live. */
  lemma PresentMeansLive(entries: seq<Entry>, sources: seq<Source>, hash: string -> string, floor: nat,
                         live: set<nat>, p: nat)
    requires DistinctTexts(sources, hash, floor) && SmallKept(sources, live, floor)
    requires Homed(entries, sources) && Shows(entries, sources, live)
    requires p < |sources|
    ensures Shown(entries, sources[p], hash) <==> p in live
  {
    var s := sources[p];
    assert s in sources;
    var home :| home in entries && home.bucket == s.bucket;
    var k := FindIndex(entries, s.bucket);
    assert k < |entries| && entries[k] in entries;
    KeptHas(sources, hash, live, s.bucket, 0, s.hash);
    if Shown(entries, s, hash) {
      var q: nat :| q < |sources| && q in live && sources[q].bucket == s.bucket && sources[q].hash == s.hash;
      if |LiveIn(sources, All(sources), s.bucket)| > floor {
        assert Tells(sources, s.bucket);
        assert q == p;
      }
    }
  }

  lemma {:induction false} PresentTexts(entries: seq<Entry>, sources: seq<Source>, hash: string -> string,
                                        floor: nat, live: set<nat>, from: nat, b: Bucket)
    requires DistinctTexts(sources, hash, floor) && SmallKept(sources, live, floor)
    requires Homed(entries, sources) && Shows(entries, sources, live)
    requires from <= |sources|
    ensures TextsOf(Present(entries, sources[from..], hash), b) == Kept(sources, live, b, from)
    decreases |sources| - from
  {
    if from < |sources| {
      PresentTexts(entries, sources, hash, floor, live, from + 1, b);
      PresentMeansLive(entries, sources, hash, floor, live, from);
      assert sources[from..][1..] == sources[from + 1..];
      if from in live {
        var ss := Present(entries, sources[from..], hash);
        assert ss[1..] == Present(entries, sources[from + 1..], hash);
      }
    }
  }

  lemma {:induction false} PresentTells(entries: seq<Entry>, sources: seq<Source>, hash: string -> string, b: Bucket)
    requires Hashed(sources, hash)
    ensures var ss := Present(entries, sources, hash);
            && Hashed(ss, hash) && (forall s | s in ss :: s in sources)
            && (Tells(sources, b) ==> Tells(ss, b))
  {
    if sources != [] {
      var rest := sources[1..];
      assert Tells(sources, b) ==> Tells(rest, b) by {
        assert forall i | 0 <= i < |rest| :: rest[i] == sources[i + 1];
      }
      PresentTells(entries, rest, hash, b);
      var kept := Present(entries, rest, hash);
      if Tells(sources, b) && sources[0].bucket == b {
        forall t | t in kept && t.bucket == b ensures t.hash != sources[0].hash {
          var k :| 0 <= k < |rest| && rest[k] == t;
          assert sources[k + 1] == t;
        }
        TellsOneMore(sources[0], kept, b);
      } else if Tells(sources, b) {
        TellsBack([sources[0]], kept, b);
      }
    }
  }

  lemma TellsOneMore(s: Source, rest: seq<Source>, b: Bucket)
    requires Tells(rest, b) && forall t | t in rest && t.bucket == b :: t.hash != s.hash
    ensures Tells([s] + rest, b)
  {
    var ss := [s] + rest;
    forall i, k | 0 <= i < k < |ss| && ss[i].bucket == ss[k].bucket == b ensures ss[i].hash != ss[k].hash {
      assert ss[k] == rest[k - 1] && rest[k - 1] in rest;
      if i > 0 { assert ss[i] == rest[i - 1]; }
    }
  }

  /** After a fit that gave up no entry, the document is ready for the next fit. */
  lemma PresentReady(entries: seq<Entry>, sources: seq<Source>, hash: string -> string, floor: nat, live: set<nat>)
    requires DistinctTexts(sources, hash, floor) && SmallKept(sources, live, floor)
    requires Homed(entries, sources) && Shows(entries, sources, live)
    ensures Ready(entries, Present(entries, sources, hash), hash, floor)
  {
    var ss := Present(entries, sources, hash);
    assert sources[0..] == sources;
    forall e | e in entries ensures TextsOf(ss, e.bucket) == e.bullets {
      PresentTexts(entries, sources, hash, floor, live, 0, e.bucket);
    }
    ShowsAllIfTexts(entries, ss);
    assert Hashed(ss, hash) && Homed(entries, ss) by {
      PresentTells(entries, sources, hash, Bucket(Exp, ""));
    }
    forall b: Bucket | |LiveIn(ss, All(ss), b)| > floor ensures Tells(ss, b) {
      PresentTells(entries, sources, hash, b);
      PresentTexts(entries, sources, hash, floor, live, 0, b);
      TextsSize(ss, b);
      KeptCount(sources, live, b);
      SubsetSize(LiveIn(sources, live, b), LiveIn(sources, All(sources), b));
    }
  }

  // ----- what one fit leaves behind -----

  ghost predicate AllHave(entries: seq<Entry>, floor: nat) {
    forall e | e in entries :: |e.bullets| >= floor
  }

  ghost predicate SameBuckets(a: seq<Entry>, b: seq<Entry>) {
    |a| == |b| && forall k | 0 <= k < |a| :: a[k].bucket == b[k].bucket
  }

  lemma SameBucketsHomed(a: seq<Entry>, b: seq<Entry>, sources: seq<Source>)
    requires Homed(a, sources) && SameBuckets(a, b)
    ensures Homed(b, sources)
  {
    forall s | s in sources ensures exists e | e in b :: e.bucket == s.bucket {
      var e :| e in a && e.bucket == s.bucket;
      var k :| 0 <= k < |a| && a[k] == e;
      assert b[k] in b;
    }
  }

  /** A document on which the floor can be kept. */
  ghost predicate Workable(entries: seq<Entry>, sources: seq<Source>, hash: string -> string, floor: nat) {
    entries != [] && floor > 0 && AllHave(entries, floor) && Ready(entries, sources, hash, floor)
  }

  /** A fit that gives nothing up fits, keeps every entry, and keeps the floor in each. */
  lemma FitKeepsFloor(before: seq<Entry>, sources: seq<Source>, hash: string -> string, score: nat -> real,
                      answers: nat -> Compile, floor: nat)
    requires Workable(before, sources, hash, floor)
    ensures var f := Fit(before, sources, hash, score, answers, floor);
            f.removed.None? ==>
              && Settled(f.last) && SameBuckets(before, f.entries) && AllHave(f.entries, floor)
              && Homed(f.entries, sources) && Shows(f.entries, sources, Rest(sources, f.drops))
              && EligibleRun(sources, floor, f.drops)
  {
    FitIsGreedy(before, sources, hash, score, answers, floor);
    hide Fit;
    var f := Fit(before, sources, hash, score, answers, floor);
    if f.removed.None? { MeaningKeepsFloor(before, sources, hash, score, floor, f); }
  }

  lemma MeaningKeepsFloor(before: seq<Entry>, sources: seq<Source>, hash: string -> string, score: nat -> real,
                          floor: nat, f: Fitted)
    requires Workable(before, sources, hash, floor)
    requires FitMeans(before, sources, score, floor, f) && f.removed.None?
    ensures Settled(f.last) && SameBuckets(before, f.entries) && AllHave(f.entries, floor)
    ensures Homed(f.entries, sources) && Shows(f.entries, sources, Rest(sources, f.drops))
    ensures EligibleRun(sources, floor, f.drops)
  {
    assert before[0] in before;
    KeptCount(sources, All(sources), before[0].bucket);
    assert SomeBucketAtFloor(sources, floor);
    SameBucketsHomed(before, f.entries, sources);
    GreedyIsEligible(sources, score, floor, f.drops);
    forall e | e in f.entries ensures |e.bullets| >= floor {
      var k :| 0 <= k < |f.entries| && f.entries[k] == e;
      assert before[k] in before && before[k].bucket == e.bucket;
      KeptCount(sources, All(sources), e.bucket);
      KeptCount(sources, Rest(sources, f.drops), e.bucket);
      BucketsKeepFloor(sources, floor, f.drops, e.bucket);
    }
  }

  // ----- one iteration -----

  /** What the scorer and the compiler answer during one fit. */
  datatype Round = Round(score: nat -> real, answers: nat -> Compile)

  /** One iteration: the rounds of its fits, and whether a summary came back and was retried. */
  datatype Trial = Trial(noSummary: Round, withSummary: Round, retry: Round, hasSummary: bool, retries: bool)

  /** A fitted document and its last compile. */
  datatype Resume = Resume(entries: seq<Entry>, last: Compile)

  datatype Accepted = Accepted(noSummary: Resume, withSummary: Option<Resume>)

  /** An accepted document has the same entries, each with at least two bullets. */
  ghost predicate Complete(doc: seq<Entry>, out: seq<Entry>) {
    SameBuckets(doc, out) && AllHave(out, 2)
  }

  lemma SomeSourceIn(sources: seq<Source>, live: set<nat>, b: Bucket)
    requires |LiveIn(sources, live, b)| > 0
    ensures exists s | s in sources :: s.bucket == b
  {
    var i :| i in LiveIn(sources, live, b);
    assert sources[i] in sources;
  }

  lemma CollectedBuckets(entries: seq<Entry>, hash: string -> string, b: Bucket)
    requires exists s | s in Collect(entries, hash) :: s.bucket == b
    ensures exists e | e in entries :: e.bucket == b
  {
    var s :| s in Collect(entries, hash) && s.bucket == b;
    var p :| 0 <= p < |Collect(entries, hash)| && Collect(entries, hash)[p] == s;
    CollectOrigin(entries, hash, p);
  }

  lemma {:induction false} PresentIsPart(entries: seq<Entry>, sources: seq<Source>, hash: string -> string)
    ensures forall s | s in Present(entries, sources, hash) :: s in sources
  {
    if sources != [] { PresentIsPart(entries, sources[1..], hash); }
  }

  lemma CompleteChain(a: seq<Entry>, b: seq<Entry>, c: seq<Entry>)
    requires Complete(a, b) && Complete(b, c)
    ensures Complete(a, c)
  {
  }

  lemma SameBucketMember(a: seq<Entry>, b: seq<Entry>, e: Entry)
    requires SameBuckets(a, b) && e in b
    ensures exists f | f in a :: f.bucket == e.bucket
  {
    var k :| 0 <= k < |b| && b[k] == e;
    assert a[k] in a;
  }

  /** What is promised of an accepted resume. */
  ghost predicate KeepsAll(entries: seq<Entry>, out: Accepted) {
    Complete(entries, out.noSummary.entries)
    && (out.withSummary.Some? ==> Complete(entries, out.withSummary.value.entries))
  }

  datatype Iteration = Iteration(accepted: Option<Accepted>, removed: Option<Bucket>)

  /** From the rewritten document on: fit without the summary, then with it, then once more. */
  ghost function Iterate(entries: seq<Entry>, hash: string -> string, trial: Trial): Iteration {
    var sources := Collect(entries, hash);
    var first := Fit(entries, sources, hash, trial.noSummary.score, trial.noSummary.answers, FLOOR);
    if first.removed.Some? then Iteration(None, first.removed)
    else
      var noSummary := Resume(first.entries, first.last);
      if !trial.hasSummary then Iteration(Some(Accepted(noSummary, None)), None)
      else
        var present := Present(first.entries, sources, hash);
        var second := Fit(first.entries, present, hash, trial.withSummary.score, trial.withSummary.answers, FLOOR);
        if second.removed.Some? then Iteration(None, second.removed)
        else if !trial.retries then
          Iteration(Some(Accepted(noSummary, Some(Resume(second.entries, second.last)))), None)
        else
          var again := Present(second.entries, present, hash);
          var third := Fit(second.entries, again, hash, trial.retry.score, trial.retry.answers, FLOOR);
          if third.removed.Some? then Iteration(None, third.removed)
          else Iteration(Some(Accepted(noSummary, Some(Resume(third.entries, third.last)))), None)
  }

  lemma RemovedIsSource(entries: seq<Entry>, sources: seq<Source>, hash: string -> string, score: nat -> real,
                        answers: nat -> Compile)
    ensures var f := Fit(entries, sources, hash, score, answers, FLOOR);
            f.removed.Some? ==> exists s | s in sources :: s.bucket == f.removed.value
  {
    FitIsBounded(entries, sources, hash, score, answers, FLOOR);
    var f := Fit(entries, sources, hash, score, answers, FLOOR);
    if f.removed.Some? { SomeSourceIn(sources, Rest(sources, f.drops), f.removed.value); }
  }

  /** Whatever is given up is one of the document's entries. */
  lemma IterateGivesUpAnEntry(entries: seq<Entry>, hash: string -> string, trial: Trial)
    ensures var it := Iterate(entries, hash, trial);
            && (it.accepted.Some? <==> it.removed.None?)
            && (it.removed.Some? ==> exists e | e in entries :: e.bucket == it.removed.value)
  {
    hide Fit;
    var sources := Collect(entries, hash);
    var first := Fit(entries, sources, hash, trial.noSummary.score, trial.noSummary.answers, FLOOR);
    RemovedIsSource(entries, sources, hash, trial.noSummary.score, trial.noSummary.answers);
    var present := Present(first.entries, sources, hash);
    PresentIsPart(first.entries, sources, hash);
    var second := Fit(first.entries, present, hash, trial.withSummary.score, trial.withSummary.answers, FLOOR);
    RemovedIsSource(first.entries, present, hash, trial.withSummary.score, trial.withSummary.answers);
    var again := Present(second.entries, present, hash);
    PresentIsPart(second.entries, present, hash);
    RemovedIsSource(second.entries, again, hash, trial.retry.score, trial.retry.answers);
    var it := Iterate(entries, hash, trial);
    if it.removed.Some? { CollectedBuckets(entries, hash, it.removed.value); }
  }

  /** One fit of a workable document, and the document of the next. */
  lemma FitAgain(entries: seq<Entry>, sources: seq<Source>, hash: string -> string, score: nat -> real,
                 answers: nat -> Compile)
    requires Workable(entries, sources, hash, FLOOR)
    ensures var f := Fit(entries, sources, hash, score, answers, FLOOR);
            f.removed.None? ==> Complete(entries, f.entries) && Settled(f.last)
                                && Workable(f.entries, Present(f.entries, sources, hash), hash, FLOOR)
  {
    FitKeepsFloor(entries, sources, hash, score, answers, FLOOR);
    hide Fit;
    var f := Fit(entries, sources, hash, score, answers, FLOOR);
    if f.removed.None? {
      SmallBucketsKept(sources, FLOOR, f.drops);
      PresentReady(f.entries, sources, hash, FLOOR, Rest(sources, f.drops));
    }
  }

  /** No accepted document is known to have more than one page. */
  ghost predicate Fits(out: Accepted) {
    Settled(out.noSummary.last) && (out.withSummary.Some? ==> Settled(out.withSummary.value.last))
  }

  /** If every entry that may lose a bullet has distinct texts, an accepted resume keeps the floor and fits. */
  lemma IterateKeepsFloor(entries: seq<Entry>, hash: string -> string, trial: Trial)
    requires entries != [] && AllHave(entries, FLOOR) && DistinctEntries(entries) && Tellable(entries, hash)
    ensures var it := Iterate(entries, hash, trial);
            it.accepted.Some? ==> KeepsAll(entries, it.accepted.value) && Fits(it.accepted.value)
  {
    var sources := Collect(entries, hash);
    CollectReady(entries, hash);
    hide Fit, Ready, Settled;
    assert Workable(entries, sources, hash, FLOOR);
    FitAgain(entries, sources, hash, trial.noSummary.score, trial.noSummary.answers);
    var first := Fit(entries, sources, hash, trial.noSummary.score, trial.noSummary.answers, FLOOR);
    if first.removed.None? {
      var present := Present(first.entries, sources, hash);
      FitAgain(first.entries, present, hash, trial.withSummary.score, trial.withSummary.answers);
      var second := Fit(first.entries, present, hash, trial.withSummary.score, trial.withSummary.answers, FLOOR);
      if second.removed.None? {
        CompleteChain(entries, first.entries, second.entries);
        var again := Present(second.entries, present, hash);
        FitAgain(second.entries, again, hash, trial.retry.score, trial.retry.answers);
        var third := Fit(second.entries, again, hash, trial.retry.score, trial.retry.answers, FLOOR);
        if third.removed.None? { CompleteChain(entries, second.entries, third.entries); }
      }
    }
  }

  method RunIteration(entries: seq<Entry>, hash: string -> string, trial: Trial)
    returns (accepted: Option<Accepted>, removed: Option<Bucket>)
    ensures Iteration(accepted, removed) == Iterate(entries, hash, trial)
  {
    hide Fit, FitMeans, Surplus;
    var sources := Collect(entries, hash);
    var noSummary := new Document(entries, hash);
    var last;
    ghost var drops;
    last, removed, drops := FitToPage(noSummary, sources, trial.noSummary.score, trial.noSummary.answers, FLOOR);
    if removed.Some? { return None, removed; }
    var plain := Resume(noSummary.entries, last);
    if !trial.hasSummary { return Some(Accepted(plain, None)), None; }
    var withSummary := new Document(noSummary.entries, hash);
    var present := Present(withSummary.entries, sources, hash);
    last, removed, drops := FitToPage(withSummary, present, trial.withSummary.score, trial.withSummary.answers, FLOOR);
    if removed.Some? { return None, removed; }
    if trial.retries {
      var again := Present(withSummary.entries, present, hash);
      last, removed, drops := FitToPage(withSummary, again, trial.retry.score, trial.retry.answers, FLOOR);
      if removed.Some? { return None, removed; }
    }
    return Some(Accepted(plain, Some(Resume(withSummary.entries, last)))), None;
  }
}

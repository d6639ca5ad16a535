/**
  Stranding a draft: if every entry can be stranded, some scores and page counts lead through three fits to
  an accepted resume that still overflows. Each entry has a plan of what is dropped when.
 */
module PageStranding {
  import opened Sequences
  import opened Wrappers
  import opened PageFit
  import opened PageFitting
  import opened PageRestart
  import opened PageFloor
  import opened PageOverflow

  // ----- dropping a given set of sources -----

  /** The favoured sources score lowest. */
  function Favour(d: set<nat>): nat -> real { (i: nat) => if i in d then 0.0 else 1.0 }

  /** What is to be dropped leaves every bucket it touches at the floor or above. */
  ghost predicate Droppable(sources: seq<Source>, d: set<nat>) {
    d <= All(sources) && forall i | i in d :: |LiveIn(sources, All(sources) - d, sources[i].bucket)| >= 2
  }

  lemma {:induction false} FavouredIsEligible(sources: seq<Source>, d: set<nat>, live: set<nat>, c: nat)
    requires Droppable(sources, d) && All(sources) - d <= live <= All(sources) && c in d * live
    ensures Eligible(sources, 2, live, c)
  {
    var b := sources[c].bucket;
    var stay := LiveIn(sources, All(sources) - d, b);
    SubsetSize(stay + {c}, LiveIn(sources, live, b));
  }

  /** The next bullet to go is one of the favoured. */
  lemma {:induction false} FavouredIsNext(entries: seq<Entry>, sources: seq<Source>, hash: string -> string,
                                          d: set<nat>, held: set<nat>, live: set<nat>)
    requires Bagged(entries, sources, hash, live - held) && Droppable(sources, d) && d !! held
    requires All(sources) - d <= live <= All(sources) && d * live != {}
    ensures var next := NextDrop(entries, sources, hash, Favour(d), 2, live); next.Some? && next.value in d * live
  {
    var c := LeastExists(d * live, Favour(d));
    FavouredIsEligible(sources, d, live, c);
    BaggedStep(entries, sources, hash, live - held, c);
    hide Bagged, WithoutBullet, NextDrop, LiveIn, Droppable;
    forall i | i in LiveIn(sources, live, sources[c].bucket) ensures i == c || Before(Favour(d), c, i) {
      InLive(sources, live, sources[c].bucket, i);
    }
    assert Removable(entries, sources, hash, Favour(d), 2, live, c);
    var next := NextDrop(entries, sources, hash, Favour(d), 2, live);
    assert next.value == c || Before(Favour(d), next.value, c);
  }

  lemma InLive(sources: seq<Source>, live: set<nat>, b: Bucket, i: nat)
    requires i in LiveIn(sources, live, b)
    ensures i in live && i < |sources| && sources[i].bucket == b
  {
  }

  /** The favoured sources are dropped, all of them and nothing else; of those held back only the text is gone. */
  lemma {:induction false} FitDrops(entries: seq<Entry>, sources: seq<Source>, hash: string -> string, d: set<nat>,
                                    held: set<nat>, drops: seq<nat>, flagged: seq<Bucket>)
    requires Bagged(entries, sources, hash, Rest(sources, drops) - held) && Droppable(sources, d) && d !! held
    requires Elements(drops) <= d && |drops| + |d * Rest(sources, drops)| == |d|
    ensures var f := FitFrom(entries, sources, hash, Favour(d), OverflowsFor(|d|), 2, drops, flagged);
            && f.removed.None? && Settled(f.last) && SameBuckets(entries, f.entries)
            && Bagged(f.entries, sources, hash, All(sources) - d - held)
    decreases Rest(sources, drops)
  {
    var live, score, answers := Rest(sources, drops), Favour(d), OverflowsFor(|d|);
    PageAfter(|drops|, |d|);
    hide *;
    if |drops| == |d| {
      EverythingDropped(sources, d, drops);
      FitStops(entries, sources, hash, score, answers, drops, flagged);
      SameBucketsChain(entries, entries, entries);
    } else {
      SizeLeft(d, live, drops);
      var n := DropOneMore(entries, sources, hash, d, held, drops);
      FitGoesOn(entries, sources, hash, score, answers, drops, flagged, n);
      var after := WithoutBullet(entries, sources[n], hash).value;
      var now := Flag(flagged, FirstSeen(sources), sources, live, 2);
      FitDrops(after, sources, hash, d, held, drops + [n], now);
      SameBucketsChain(entries, after, FitFrom(after, sources, hash, score, answers, 2, drops + [n], now).entries);
    }
  }

  lemma PageAfter(k: nat, n: nat)
    ensures NeedsDrop(OverflowsFor(n)(k)) <==> k < n
    ensures k >= n ==> Settled(OverflowsFor(n)(k))
  {
  }

  lemma FitStops(entries: seq<Entry>, sources: seq<Source>, hash: string -> string, score: nat -> real,
                 answers: nat -> Compile, drops: seq<nat>, flagged: seq<Bucket>)
    requires !NeedsDrop(answers(|drops|))
    ensures FitFrom(entries, sources, hash, score, answers, 2, drops, flagged)
            == Fitted(entries, answers(|drops|), None, drops)
  {
    hide NeedsDrop, Flag, FirstSeen, NextDrop, WithoutBullet, Rest;
  }

  lemma FitGoesOn(entries: seq<Entry>, sources: seq<Source>, hash: string -> string, score: nat -> real,
                  answers: nat -> Compile, drops: seq<nat>, flagged: seq<Bucket>, n: nat)
    requires NeedsDrop(answers(|drops|)) && n < |sources| && WithoutBullet(entries, sources[n], hash).Some?
    requires NextDrop(entries, sources, hash, score, 2, Rest(sources, drops)) == Some(n)
    ensures FitFrom(entries, sources, hash, score, answers, 2, drops, flagged)
            == FitFrom(WithoutBullet(entries, sources[n], hash).value, sources, hash, score, answers, 2, drops + [n],
                       Flag(flagged, FirstSeen(sources), sources, Rest(sources, drops), 2))
  {
    hide NeedsDrop, Flag, FirstSeen, NextDrop, WithoutBullet, Rest;
  }

  lemma SizeLeft(d: set<nat>, live: set<nat>, drops: seq<nat>)
    requires |drops| + |d * live| == |d| != |drops|
    ensures |drops| < |d|
  {
  }

  lemma EverythingDropped(sources: seq<Source>, d: set<nat>, drops: seq<nat>)
    requires Droppable(sources, d) && Elements(drops) <= d && |drops| + |d * Rest(sources, drops)| == |d| == |drops|
    ensures Rest(sources, drops) == All(sources) - d
  {
    RestMeans(sources, drops, d);
    assert d * Rest(sources, drops) == {};
    hide Rest, All;
  }

  lemma SameBucketsChain(a: seq<Entry>, b: seq<Entry>, c: seq<Entry>)
    ensures SameBuckets(a, a) && (SameBuckets(a, b) && SameBuckets(b, c) ==> SameBuckets(a, c))
  {
  }

  lemma {:induction false} DropOneMore(entries: seq<Entry>, sources: seq<Source>, hash: string -> string, d: set<nat>,
                                       held: set<nat>, drops: seq<nat>)
    returns (n: nat)
    requires Bagged(entries, sources, hash, Rest(sources, drops) - held) && Droppable(sources, d) && d !! held
    requires Elements(drops) <= d && |drops| + |d * Rest(sources, drops)| == |d| != |drops|
    ensures NextDrop(entries, sources, hash, Favour(d), 2, Rest(sources, drops)) == Some(n) && n < |sources|
    ensures WithoutBullet(entries, sources[n], hash).Some?
    ensures var after := WithoutBullet(entries, sources[n], hash).value;
            SameBuckets(entries, after) && Bagged(after, sources, hash, Rest(sources, drops + [n]) - held)
    ensures Elements(drops + [n]) <= d && |drops + [n]| + |d * Rest(sources, drops + [n])| == |d|
    ensures Rest(sources, drops + [n]) < Rest(sources, drops)
  {
    var live := Rest(sources, drops);
    RestMeans(sources, drops, d);
    hide *;
    StillToDrop(d, live, drops);
    FavouredIsNext(entries, sources, hash, d, held, live);
    NextIsEligible(entries, sources, hash, Favour(d), 2, live);
    n := NextDrop(entries, sources, hash, Favour(d), 2, live).value;
    OneFewer(d, held, live, drops, n);
    BaggedStep(entries, sources, hash, live - held, n);
    RestShrinks(sources, drops, n);
  }

  lemma StillToDrop(d: set<nat>, live: set<nat>, drops: seq<nat>)
    requires |drops| + |d * live| == |d| != |drops|
    ensures d * live != {}
  {
  }

  lemma OneFewer(d: set<nat>, held: set<nat>, live: set<nat>, drops: seq<nat>, n: nat)
    requires n in d * live && d !! held && Elements(drops) <= d && |drops| + |d * live| == |d|
    ensures n in live - held && live - held - {n} == live - {n} - held && live - {n} < live
    ensures Elements(drops + [n]) <= d && |drops + [n]| + |d * (live - {n})| == |d|
  {
    assert d * (live - {n}) == d * live - {n};
  }

  lemma RestMeans(sources: seq<Source>, drops: seq<nat>, d: set<nat>)
    requires Elements(drops) <= d
    ensures All(sources) - d <= Rest(sources, drops) <= All(sources)
    ensures d * Rest(sources, drops) == {} && d <= All(sources) ==> Rest(sources, drops) == All(sources) - d
    ensures forall i | i in Rest(sources, drops) :: i < |sources|
  {
    var live := Rest(sources, drops);
    forall i | i in All(sources) - d ensures i in live { assert i !in Elements(drops); }
    if d * live == {} && d <= All(sources) {
      forall i | i in live ensures i in All(sources) - d { assert i !in d * live; }
    }
  }

  // ----- a plan for one bucket -----

  /** What goes in the first fit; of what stays in the second fit, all, and those whose text is gone already. */
  datatype Plan = Plan(first: set<nat>, reserved: set<nat>, last: set<nat>)

  predicate In(sources: seq<Source>, b: Bucket, i: nat) { i < |sources| && sources[i].bucket == b }

  /** One of the places holds this text. */
  ghost predicate Among(sources: seq<Source>, places: set<nat>, h: string) {
    exists i | i in places :: i < |sources| && sources[i].hash == h
  }

  /** The text is still there when the given places are not. */
  ghost predicate Survives(sources: seq<Source>, b: Bucket, gone: set<nat>, h: string) {
    exists i: nat :: In(sources, b, i) && i !in gone && sources[i].hash == h
  }

  /** The first fit leaves a copy of every text, as if the reserved ones had gone; the second leaves the last two,
      and of the sources with their texts, reserved ones aside, at most one. */
  ghost predicate IsPlan(sources: seq<Source>, hash: string -> string, b: Bucket, p: Plan) {
    && (forall i | i in p.first || i in p.last :: In(sources, b, i))
    && p.reserved <= p.last && p.first !! p.reserved && |p.last| == 2
    && |LiveIn(sources, All(sources) - p.first, b)| >= 2
    && Bag(sources, hash, All(sources) - p.first, b) == Bag(sources, hash, All(sources) - p.reserved, b)
    && (forall i: nat | In(sources, b, i) :: Survives(sources, b, p.first, sources[i].hash))
    && forall i: nat, j: nat | In(sources, b, i) && Among(sources, p.last - p.reserved, sources[i].hash)
                               && In(sources, b, j) && Among(sources, p.last - p.reserved, sources[j].hash) :: i == j
  }

  /** Of two sources with one text, either may go. */
  lemma {:induction false} SwapInBag(sources: seq<Source>, hash: string -> string, live: set<nat>, p: nat, q: nat)
    requires Hashed(sources, hash) && p in live && q in live && p < |sources| && q < |sources|
    requires sources[p].bucket == sources[q].bucket && sources[p].hash == sources[q].hash
    ensures var b := sources[p].bucket;
            Bag(sources, hash, live - {p}, b) == Bag(sources, hash, live - {q}, b)
  {
    var b := sources[p].bucket;
    BagWithout(sources, hash, live, p, 0);
    BagWithout(sources, hash, live, q, 0);
    BagCancel(Bag(sources, hash, live - {p}, b), Bag(sources, hash, live - {q}, b), sources[p].hash);
  }

  lemma TwoLeft(sources: seq<Source>, b: Bucket, gone: set<nat>, x: nat, y: nat)
    requires In(sources, b, x) && In(sources, b, y) && x != y && x !in gone && y !in gone
    ensures |LiveIn(sources, All(sources) - gone, b)| >= 2
  {
    SubsetSize({x, y}, LiveIn(sources, All(sources) - gone, b));
  }

  /** A pair of one text, and another text that occurs once. */
  lemma {:induction false} PlanForSingle(sources: seq<Source>, hash: string -> string, b: Bucket, p: nat, q: nat,
                                         z: nat)
    requires Hashed(sources, hash) && In(sources, b, p) && In(sources, b, q) && In(sources, b, z) && p != q
    requires sources[p].hash == sources[q].hash
    requires forall i: nat | In(sources, b, i) && sources[i].hash == sources[z].hash :: i == z
    ensures IsPlan(sources, hash, b, Plan({p}, {q}, {q, z}))
  {
    SwapInBag(sources, hash, All(sources), p, q);
    TwoLeft(sources, b, {p}, q, z);
    forall i: nat | In(sources, b, i) ensures Survives(sources, b, {p}, sources[i].hash) {
      assert In(sources, b, if i == p then q else i);
    }
    hide Bag, LiveIn, All, Survives;
    assert {q, z} - {q} == {z} && |{q, z}| == 2;
  }

  /** Two pairs of one text each. */
  lemma {:induction false} PlanForPairs(sources: seq<Source>, hash: string -> string, b: Bucket, p: nat, q: nat,
                                        y: nat, w: nat)
    requires Hashed(sources, hash) && FourIn(sources, b, p, q, y, w)
    requires sources[p].hash == sources[q].hash && sources[y].hash == sources[w].hash
    ensures IsPlan(sources, hash, b, Plan({p, y}, {q, w}, {q, w}))
  {
    TwoSwaps(sources, hash, b, p, q, y, w);
    TwoLeft(sources, b, {p, y}, q, w);
    forall i: nat | In(sources, b, i) ensures Survives(sources, b, {p, y}, sources[i].hash) {
      assert In(sources, b, if i == p then q else if i == y then w else i);
    }
    hide Bag, LiveIn, All, Survives;
    assert {q, w} - {q, w} == {} && |{q, w}| == 2;
  }

  predicate FourIn(sources: seq<Source>, b: Bucket, p: nat, q: nat, y: nat, w: nat) {
    In(sources, b, p) && In(sources, b, q) && In(sources, b, y) && In(sources, b, w)
    && p != q && p != y && p != w && q != y && q != w && y != w
  }

  lemma {:induction false} TwoSwaps(sources: seq<Source>, hash: string -> string, b: Bucket, p: nat, q: nat,
                                    y: nat, w: nat)
    requires Hashed(sources, hash) && FourIn(sources, b, p, q, y, w)
    requires sources[p].hash == sources[q].hash && sources[y].hash == sources[w].hash
    ensures Bag(sources, hash, All(sources) - {p, y}, b) == Bag(sources, hash, All(sources) - {q, w}, b)
  {
    var all := All(sources);
    hide Bag;
    SwapInBag(sources, hash, all - {p}, y, w);
    SwapInBag(sources, hash, all - {w}, p, q);
    hide All;
    assert all - {p} - {y} == all - {p, y} && all - {p} - {w} == all - {w} - {p} && all - {w} - {q} == all - {q, w};
  }

  /** A bucket with a repeated text and another text has a plan. */
  lemma {:induction false} PlanForTwoTexts(sources: seq<Source>, hash: string -> string, b: Bucket, p: nat, q: nat,
                                           z: nat)
    requires Hashed(sources, hash) && In(sources, b, p) && In(sources, b, q) && In(sources, b, z) && p != q
    requires sources[p].hash == sources[q].hash != sources[z].hash
    ensures exists plan :: IsPlan(sources, hash, b, plan)
  {
    hide IsPlan;
    if forall i: nat | In(sources, b, i) && sources[i].hash == sources[z].hash :: i == z {
      PlanForSingle(sources, hash, b, p, q, z);
    } else {
      var w: nat :| In(sources, b, w) && sources[w].hash == sources[z].hash && w != z;
      PlanForPairs(sources, hash, b, p, q, z, w);
    }
  }

  /** So has every entry that can be stranded. */
  lemma {:induction false} StrandablePlan(entries: seq<Entry>, hash: string -> string, m: nat)
    requires m < |entries| && Strandable(entries[m], hash) && DistinctEntries(entries)
    ensures exists plan :: IsPlan(Collect(entries, hash), hash, entries[m].bucket, plan)
  {
    var ss, b, bullets := Collect(entries, hash), entries[m].bucket, entries[m].bullets;
    EntrySources(entries, hash, entries[m]);
    hide IsPlan, BagAt, LiveIn, All;
    var i, k :| 0 <= i < k < |bullets| && hash(bullets[i]) == hash(bullets[k]);
    if n :| 0 <= n < |bullets| && hash(bullets[n]) != hash(bullets[i]) {
      var p := PlaceOf(entries, hash, m, i);
      var q := PlaceOf(entries, hash, m, k);
      var z := PlaceOf(entries, hash, m, n);
      PlanForTwoTexts(ss, hash, b, p, q, z);
    } else {
      PlanForOneText(entries, hash, m);
    }
  }

  lemma {:induction false} PlanForOneText(entries: seq<Entry>, hash: string -> string, m: nat)
    requires m < |entries| && |entries[m].bullets| >= 4 && Hashed(Collect(entries, hash), hash)
    requires forall n | 0 <= n < |entries[m].bullets| :: hash(entries[m].bullets[n]) == hash(entries[m].bullets[0])
    ensures exists plan :: IsPlan(Collect(entries, hash), hash, entries[m].bucket, plan)
  {
    hide IsPlan;
    var p := PlaceOf(entries, hash, m, 0);
    var q := PlaceOf(entries, hash, m, 1);
    var y := PlaceOf(entries, hash, m, 2);
    var w := PlaceOf(entries, hash, m, 3);
    PlanForPairs(Collect(entries, hash), hash, entries[m].bucket, p, q, y, w);
  }

  // ----- the plans of all buckets together -----

  ghost function PlanOf(sources: seq<Source>, hash: string -> string, b: Bucket): (p: Plan)
    ensures (exists p :: IsPlan(sources, hash, b, p)) ==> IsPlan(sources, hash, b, p)
  {
    if exists p :: IsPlan(sources, hash, b, p) then
      var p :| IsPlan(sources, hash, b, p);
      p
    else Plan({}, {}, {})
  }

  ghost function First(sources: seq<Source>, hash: string -> string): set<nat> {
    set i: nat | i < |sources| && i in PlanOf(sources, hash, sources[i].bucket).first
  }

  ghost function Reserved(sources: seq<Source>, hash: string -> string): set<nat> {
    set i: nat | i < |sources| && i in PlanOf(sources, hash, sources[i].bucket).reserved
  }

  ghost function Last(sources: seq<Source>, hash: string -> string): set<nat> {
    set i: nat | i < |sources| && i in PlanOf(sources, hash, sources[i].bucket).last
  }

  ghost predicate Planned(sources: seq<Source>, hash: string -> string, b: Bucket) {
    IsPlan(sources, hash, b, PlanOf(sources, hash, b))
  }

  /** The sets are the plans, bucket by bucket. */
  lemma {:induction false} SetsAt(sources: seq<Source>, hash: string -> string, b: Bucket)
    requires Planned(sources, hash, b)
    ensures var p, all := PlanOf(sources, hash, b), All(sources);
            && LiveIn(sources, all - First(sources, hash), b) == LiveIn(sources, all - p.first, b)
            && LiveIn(sources, all - Reserved(sources, hash), b) == LiveIn(sources, all - p.reserved, b)
            && LiveIn(sources, Last(sources, hash), b) == p.last
            && LiveIn(sources, Last(sources, hash) - Reserved(sources, hash), b) == p.last - p.reserved
  {
    hide Survives, Among, Bag;
    var p := PlanOf(sources, hash, b);
    forall i: nat | In(sources, b, i)
      ensures i in First(sources, hash) <==> i in p.first
      ensures i in Reserved(sources, hash) <==> i in p.reserved
      ensures i in Last(sources, hash) <==> i in p.last
    {
    }
    hide First, Reserved, Last, PlanOf;
    assert forall i | i in p.last :: In(sources, b, i);
  }

  lemma {:induction false} BagOfLive(sources: seq<Source>, hash: string -> string, b: Bucket, x: set<nat>, y: set<nat>)
    requires LiveIn(sources, x, b) == LiveIn(sources, y, b)
    ensures Bag(sources, hash, x, b) == Bag(sources, hash, y, b)
  {
    KeptOfLive(sources, b, x, y, 0);
  }

  lemma {:induction false} KeptOfLive(sources: seq<Source>, b: Bucket, x: set<nat>, y: set<nat>, from: nat)
    requires LiveIn(sources, x, b) == LiveIn(sources, y, b)
    ensures Kept(sources, x, b, from) == Kept(sources, y, b, from)
    decreases |sources| - from
  {
    if from < |sources| {
      KeptOfLive(sources, b, x, y, from + 1);
      if sources[from].bucket == b {
        assert from in x <==> from in LiveIn(sources, x, b);
        assert from in y <==> from in LiveIn(sources, y, b);
      }
    }
  }

  // ----- the three fits -----

  lemma {:induction false} FirstDroppable(sources: seq<Source>, hash: string -> string)
    requires forall s | s in sources :: Planned(sources, hash, s.bucket)
    ensures Droppable(sources, First(sources, hash))
  {
    hide Planned, LiveIn, PlanOf;
    forall i | i in First(sources, hash)
      ensures |LiveIn(sources, All(sources) - First(sources, hash), sources[i].bucket)| >= 2
    {
      assert sources[i] in sources;
      SetsAt(sources, hash, sources[i].bucket);
      PlanSizes(sources, hash, sources[i].bucket);
    }
  }

  lemma PlanSizes(sources: seq<Source>, hash: string -> string, b: Bucket)
    requires Planned(sources, hash, b)
    ensures var p := PlanOf(sources, hash, b);
            |LiveIn(sources, All(sources) - p.first, b)| >= 2 && |p.last| == 2 && p.reserved <= p.last
  {
    hide Survives, Among, Bag;
  }

  lemma {:induction false} RestDroppable(sources: seq<Source>, hash: string -> string)
    requires forall s | s in sources :: Planned(sources, hash, s.bucket)
    ensures var last := Last(sources, hash);
            && Droppable(sources, All(sources) - last) && Reserved(sources, hash) <= last
            && All(sources) - (All(sources) - last) == last
  {
    var all, last := All(sources), Last(sources, hash);
    assert last <= all;
    assert all - (all - last) == last;
    forall i | i in all ensures |LiveIn(sources, last, sources[i].bucket)| >= 2 {
      assert sources[i] in sources;
      SetsAt(sources, hash, sources[i].bucket);
      PlanSizes(sources, hash, sources[i].bucket);
    }
    forall i | i in Reserved(sources, hash) ensures i in last {
      assert sources[i] in sources;
      PlanSizes(sources, hash, sources[i].bucket);
    }
  }

  /** Every entry's bucket has a plan, and every source's. */
  ghost predicate AllPlanned(entries: seq<Entry>, sources: seq<Source>, hash: string -> string) {
    && (forall e | e in entries :: Planned(sources, hash, e.bucket))
    && forall s | s in sources :: Planned(sources, hash, s.bucket)
  }

  lemma {:induction false} AllArePlanned(entries: seq<Entry>, hash: string -> string)
    requires DistinctEntries(entries) && forall e | e in entries :: Strandable(e, hash)
    ensures AllPlanned(entries, Collect(entries, hash), hash)
  {
    var ss := Collect(entries, hash);
    hide IsPlan, Strandable;
    forall e | e in entries ensures Planned(ss, hash, e.bucket) {
      var m :| 0 <= m < |entries| && entries[m] == e;
      StrandablePlan(entries, hash, m);
    }
    forall s | s in ss ensures Planned(ss, hash, s.bucket) {
      var p :| 0 <= p < |ss| && ss[p] == s;
      CollectOrigin(entries, hash, p);
    }
  }

  /** The first fit drops its set and hides no source. */
  lemma {:induction false} FirstFitOfPlan(entries: seq<Entry>, hash: string -> string)
    requires DistinctEntries(entries) && AllPlanned(entries, Collect(entries, hash), hash)
    ensures var ss := Collect(entries, hash);
            var first := First(ss, hash);
            var f := Fit(entries, ss, hash, Favour(first), OverflowsFor(|first|), 2);
            && f.removed.None? && SameBuckets(entries, f.entries)
            && Bagged(f.entries, ss, hash, All(ss) - Reserved(ss, hash)) && Present(f.entries, ss, hash) == ss
  {
    var ss := Collect(entries, hash);
    var first := First(ss, hash);
    FirstDroppable(ss, hash);
    CollectBagged(entries, hash);
    NothingHeld(ss, first);
    hide *;
    FitDrops(entries, ss, hash, first, {}, [], []);
    var f := Fit(entries, ss, hash, Favour(first), OverflowsFor(|first|), 2);
    FitIsFitFrom(entries, ss, hash, Favour(first), OverflowsFor(|first|));
    AsIfReserved(f.entries, entries, ss, hash);
    PlannedSources(entries, ss, hash);
    StillShown(f.entries, ss, hash);
  }

  lemma FitIsFitFrom(entries: seq<Entry>, sources: seq<Source>, hash: string -> string, score: nat -> real,
                     answers: nat -> Compile)
    ensures Fit(entries, sources, hash, score, answers, 2) == FitFrom(entries, sources, hash, score, answers, 2, [], [])
  {
    hide FitFrom;
  }

  lemma PlannedSources(entries: seq<Entry>, sources: seq<Source>, hash: string -> string)
    requires AllPlanned(entries, sources, hash)
    ensures forall s | s in sources :: Planned(sources, hash, s.bucket)
  {
    hide Planned;
  }

  lemma NothingHeld(sources: seq<Source>, d: set<nat>)
    requires Droppable(sources, d)
    ensures Rest(sources, []) - {} == All(sources) && d !! {} && Elements<nat>([]) <= d
    ensures |d * Rest(sources, [])| == |d| && All(sources) - d - {} == All(sources) - d
  {
    assert d * Rest(sources, []) == d;
  }

  lemma {:induction false} AsIfReserved(entries: seq<Entry>, before: seq<Entry>, sources: seq<Source>,
                                        hash: string -> string)
    requires SameBuckets(before, entries) && AllPlanned(before, sources, hash)
    requires Bagged(entries, sources, hash, All(sources) - First(sources, hash))
    ensures Bagged(entries, sources, hash, All(sources) - Reserved(sources, hash))
  {
    hide Planned, Bag, LiveIn, PlanOf, First, Reserved, All, Hashes;
    forall e | e in entries
      ensures Bag(sources, hash, All(sources) - First(sources, hash), e.bucket)
              == Bag(sources, hash, All(sources) - Reserved(sources, hash), e.bucket)
    {
      var k :| 0 <= k < |entries| && entries[k] == e;
      assert before[k] in before;
      SameBagOfPlan(sources, hash, e.bucket);
    }
  }

  lemma {:induction false} SameBagOfPlan(sources: seq<Source>, hash: string -> string, b: Bucket)
    requires Planned(sources, hash, b)
    ensures Bag(sources, hash, All(sources) - First(sources, hash), b)
            == Bag(sources, hash, All(sources) - Reserved(sources, hash), b)
  {
    var p, all := PlanOf(sources, hash, b), All(sources);
    SetsAt(sources, hash, b);
    BagOfLive(sources, hash, b, all - First(sources, hash), all - p.first);
    BagOfLive(sources, hash, b, all - Reserved(sources, hash), all - p.reserved);
    hide Survives, Among, Bag, LiveIn, All, First, Reserved, PlanOf;
  }

  lemma {:induction false} StillShown(entries: seq<Entry>, sources: seq<Source>, hash: string -> string)
    requires Bagged(entries, sources, hash, All(sources) - First(sources, hash))
    requires forall s | s in sources :: Planned(sources, hash, s.bucket)
    ensures Present(entries, sources, hash) == sources
  {
    hide Bagged, Planned, First, Shown, All;
    forall i | 0 <= i < |sources| ensures Shown(entries, sources[i], hash) {
      assert sources[i] in sources;
      CopyLeft(sources, hash, i);
      LiveIsShown(entries, sources, hash, All(sources) - First(sources, hash), i);
    }
    PresentAll(entries, sources, hash);
  }

  /** A source is shown if its text is live in its bucket. */
  lemma {:induction false} LiveIsShown(entries: seq<Entry>, sources: seq<Source>, hash: string -> string,
                                       live: set<nat>, i: nat)
    requires Bagged(entries, sources, hash, live) && i < |sources|
    requires exists j | j in LiveIn(sources, live, sources[i].bucket) :: sources[j].hash == sources[i].hash
    ensures Shown(entries, sources[i], hash)
  {
    var s := sources[i];
    var k := EntryOf(entries, sources, hash, live, i);
    BagHas(sources, hash, live, s.bucket, s.hash) by { assert Hashed(sources, hash); }
    ShownIsInBag(entries, s, hash);
    hide Bagged, LiveIn, Shown;
  }

  /** The entry of a source, and what is in it. */
  lemma {:induction false} EntryOf(entries: seq<Entry>, sources: seq<Source>, hash: string -> string,
                                   live: set<nat>, i: nat)
    returns (k: nat)
    requires Bagged(entries, sources, hash, live) && i < |sources|
    ensures k == FindIndex(entries, sources[i].bucket) < |entries|
    ensures Hashes(entries[k].bullets, hash) == Bag(sources, hash, live, sources[i].bucket)
  {
    hide Bag, Hashes;
    assert sources[i] in sources;
    var e :| e in entries && e.bucket == sources[i].bucket;
    k := FindIndex(entries, sources[i].bucket);
    assert entries[k] in entries;
  }

  lemma {:induction false} CopyLeft(sources: seq<Source>, hash: string -> string, i: nat)
    requires i < |sources| && Planned(sources, hash, sources[i].bucket)
    ensures exists j | j in LiveIn(sources, All(sources) - First(sources, hash), sources[i].bucket) ::
              sources[j].hash == sources[i].hash
  {
    hide Bag, Among;
    var b := sources[i].bucket;
    var p := PlanOf(sources, hash, b);
    assert In(sources, b, i);
    assert Survives(sources, b, p.first, sources[i].hash);
    var j: nat :| In(sources, b, j) && j !in p.first && sources[j].hash == sources[i].hash;
    SetsAt(sources, hash, b);
    assert j in LiveIn(sources, All(sources) - p.first, b);
  }

  /** The second fit drops all but the last, and leaves of every bucket at most one source showing. */
  lemma {:induction false} SecondFitOfPlan(entries: seq<Entry>, sources: seq<Source>, hash: string -> string)
    requires Bagged(entries, sources, hash, All(sources) - Reserved(sources, hash))
    requires AllPlanned(entries, sources, hash)
    ensures var d := All(sources) - Last(sources, hash);
            var f := Fit(entries, sources, hash, Favour(d), OverflowsFor(|d|), 2);
            && f.removed.None?
            && Bagged(f.entries, sources, hash, Last(sources, hash) - Reserved(sources, hash))
  {
    var d, held := All(sources) - Last(sources, hash), Reserved(sources, hash);
    RestDroppable(sources, hash);
    NothingDropped(sources);
    assert d * All(sources) == d && d !! held;
    FitDrops(entries, sources, hash, d, held, [], []);
  }

  lemma {:induction false} FewPresent(entries: seq<Entry>, sources: seq<Source>, hash: string -> string, b: Bucket)
    requires Bagged(entries, sources, hash, Last(sources, hash) - Reserved(sources, hash))
    requires forall s | s in sources :: Planned(sources, hash, s.bucket)
    ensures var again := Present(entries, sources, hash); |LiveIn(again, All(again), b)| <= 1
  {
    var kept := set i: nat | i < |sources| && Shown(entries, sources[i], hash);
    PresentBag(entries, sources, hash, kept, b);
    var some := LiveIn(sources, kept, b);
    forall i, j | i in some && j in some ensures i == j {
      assert sources[i] in sources;
      TextIsAmong(entries, sources, hash, i);
      TextIsAmong(entries, sources, hash, j);
      hide Survives, Among, Bag, Bagged, Last, Reserved;
      assert In(sources, b, i) && In(sources, b, j);
    }
    AtMostOne(some);
  }

  lemma AtMostOne(s: set<nat>)
    requires forall i, j | i in s && j in s :: i == j
    ensures |s| <= 1
  {
    if s != {} {
      var x :| x in s;
      assert s == {x};
    }
  }

  lemma {:induction false} TextIsAmong(entries: seq<Entry>, sources: seq<Source>, hash: string -> string, i: nat)
    requires Bagged(entries, sources, hash, Last(sources, hash) - Reserved(sources, hash))
    requires i < |sources| && Planned(sources, hash, sources[i].bucket) && Shown(entries, sources[i], hash)
    ensures var p := PlanOf(sources, hash, sources[i].bucket); Among(sources, p.last - p.reserved, sources[i].hash)
  {
    var b, live := sources[i].bucket, Last(sources, hash) - Reserved(sources, hash);
    ShownIsInBag(entries, sources[i], hash);
    var k := FindIndex(entries, b);
    assert entries[k] in entries;
    BagHas(sources, hash, live, b, sources[i].hash);
    SetsAt(sources, hash, b);
    hide Planned, Bagged;
  }

  /** Then nothing can be dropped and nothing given up. */
  lemma {:induction false} ThirdFitIsStuck(entries: seq<Entry>, sources: seq<Source>, hash: string -> string,
                                           score: nat -> real)
    requires forall b: Bucket :: |LiveIn(sources, All(sources), b)| <= 1
    ensures Fit(entries, sources, hash, score, OverflowsFor(1), 2) == Fitted(entries, OVERFLOW, None, [])
  {
    NothingDropped(sources);
    NothingFlags(FirstSeen(sources), sources, All(sources));
    hide LiveIn;
    assert forall c :: !Eligible(sources, 2, All(sources), c);
    assert NextDrop(entries, sources, hash, score, 2, All(sources)).None? by {
      NextIsEligible(entries, sources, hash, score, 2, All(sources));
    }
    hide Eligible, NextDrop, Flag, FirstSeen;
  }

  lemma {:induction false} NothingFlags(buckets: seq<Bucket>, sources: seq<Source>, live: set<nat>)
    requires forall b: Bucket :: |LiveIn(sources, live, b)| <= 1
    ensures Flag([], buckets, sources, live, 2) == []
  {
    if buckets != [] { NothingFlags(buckets[..|buckets|-1], sources, live); }
  }

  // ----- the condition is exact -----

  /** What leads a draft of strandable entries to a page that overflows. */
  ghost function StrandingTrial(sources: seq<Source>, hash: string -> string): Trial {
    var first, rest := First(sources, hash), All(sources) - Last(sources, hash);
    Trial(Round(Favour(first), OverflowsFor(|first|)), Round(Favour(rest), OverflowsFor(|rest|)),
          Round(Favour({}), OverflowsFor(1)), true, true)
  }

  /** Every entry can be stranded: then so can the draft, and an overflowing resume is accepted. */
  lemma {:induction false} StrandedIsAccepted(entries: seq<Entry>, hash: string -> string)
    requires DistinctEntries(entries) && forall e | e in entries :: Strandable(e, hash)
    ensures var it := Iterate(entries, hash, StrandingTrial(Collect(entries, hash), hash));
            it.accepted.Some? && it.accepted.value.withSummary.Some?
            && it.accepted.value.withSummary.value.last == OVERFLOW
  {
    var ss := Collect(entries, hash);
    var trial := StrandingTrial(ss, hash);
    AllArePlanned(entries, hash);
    FirstFitOfPlan(entries, hash);
    hide Fit, Strandable, Bagged, Planned, First, Reserved, Last, Favour;
    var f1 := Fit(entries, ss, hash, trial.noSummary.score, trial.noSummary.answers, FLOOR);
    PlannedStill(entries, f1.entries, ss, hash);
    SecondFitOfPlan(f1.entries, ss, hash);
    var f2 := Fit(f1.entries, ss, hash, trial.withSummary.score, trial.withSummary.answers, FLOOR);
    var again := Present(f2.entries, ss, hash);
    forall b: Bucket ensures |LiveIn(again, All(again), b)| <= 1 { FewPresent(f2.entries, ss, hash, b); }
    ThirdFitIsStuck(f2.entries, again, hash, trial.retry.score);
  }

  lemma PlannedStill(before: seq<Entry>, entries: seq<Entry>, sources: seq<Source>, hash: string -> string)
    requires SameBuckets(before, entries) && AllPlanned(before, sources, hash)
    ensures AllPlanned(entries, sources, hash)
  {
    hide Planned;
    forall e | e in entries ensures Planned(sources, hash, e.bucket) {
      var k :| 0 <= k < |entries| && entries[k] == e;
      assert before[k] in before;
    }
  }

  /** Whatever the scores and the compiler say, an accepted resume is not known to overflow. */
  ghost predicate AlwaysFits(entries: seq<Entry>, hash: string -> string) {
    forall trial: Trial :: var it := Iterate(entries, hash, trial); it.accepted.Some? ==> Fits(it.accepted.value)
  }

  /** So it is exactly if one entry cannot be stranded. */
  lemma {:induction false} FitsIffSomeEntryHolds(entries: seq<Entry>, hash: string -> string)
    requires AllHave(entries, 2) && DistinctEntries(entries)
    ensures AlwaysFits(entries, hash) <==> exists e | e in entries :: !Strandable(e, hash)
  {
    hide Iterate, Strandable;
    if e :| e in entries && !Strandable(e, hash) {
      forall trial: Trial { OpenEntryFits(entries, hash, trial, e); }
    } else {
      StrandedIsAccepted(entries, hash);
    }
  }
}

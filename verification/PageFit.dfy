/**
  Dropping bullets until a resume compiles to one page: the greedy specification, and what every
  greedy run keeps. A bullet is identified by its place in the source list.
 */
module PageFit {
  import opened Sequences
  import opened Wrappers

  datatype Kind = Exp | Proj
  datatype Bucket = Bucket(kind: Kind, id: string)

  /** An experience or project entry of the document. */
  datatype Entry = Entry(bucket: Bucket, bullets: seq<string>)

  datatype Source = Source(bucket: Bucket, index: nat, hash: string, text: string)

  datatype Compile = Compile(fitsOnePage: bool, status: string, pageCount: Option<int>)

  predicate NeedsDrop(c: Compile) {
    !c.fitsOnePage && c.status == "ok" && c.pageCount.Some? && c.pageCount.value > 1
  }

  // ----- the greedy specification -----

  /** Lower score first, earlier in the source list on ties. */
  predicate Before(score: nat -> real, i: nat, k: nat) {
    score(i) < score(k) || (score(i) == score(k) && i < k)
  }

  function All(sources: seq<Source>): set<nat> { Rest(sources, []) }

  function LiveIn(sources: seq<Source>, live: set<nat>, b: Bucket): set<nat> {
    set i | i in live && i < |sources| && sources[i].bucket == b
  }

  predicate Eligible(sources: seq<Source>, floor: nat, live: set<nat>, i: nat) {
    i in live && i < |sources| && |LiveIn(sources, live, sources[i].bucket)| > floor
  }

  /** The globally least bullet among the buckets above the floor. */
  ghost predicate Victim(sources: seq<Source>, score: nat -> real, floor: nat, live: set<nat>, d: nat) {
    Eligible(sources, floor, live, d)
    && forall i | Eligible(sources, floor, live, i) :: i == d || Before(score, d, i)
  }

  function Rest(sources: seq<Source>, drops: seq<nat>): set<nat> {
    set i: nat | i < |sources| && i !in drops
  }

  /** Each drop removes the victim of the moment. */
  ghost predicate GreedyRun(sources: seq<Source>, score: nat -> real, floor: nat, drops: seq<nat>) {
    forall k | 0 <= k < |drops| ::
      Victim(sources, score, floor, Rest(sources, drops[..k]), drops[k])
  }

  /** Each drop is taken from a bucket above the floor. */
  ghost predicate EligibleRun(sources: seq<Source>, floor: nat, drops: seq<nat>) {
    forall k | 0 <= k < |drops| :: Eligible(sources, floor, Rest(sources, drops[..k]), drops[k])
  }

  lemma GreedyIsEligible(sources: seq<Source>, score: nat -> real, floor: nat, drops: seq<nat>)
    requires GreedyRun(sources, score, floor, drops)
    ensures EligibleRun(sources, floor, drops)
  {
    forall k | 0 <= k < |drops| ensures Eligible(sources, floor, Rest(sources, drops[..k]), drops[k]) {
      assert Victim(sources, score, floor, Rest(sources, drops[..k]), drops[k]);
    }
  }

  lemma EligibleExtend(sources: seq<Source>, floor: nat, drops: seq<nat>, d: nat)
    requires EligibleRun(sources, floor, drops) && Eligible(sources, floor, Rest(sources, drops), d)
    ensures EligibleRun(sources, floor, drops + [d])
  {
    forall k | 0 <= k < |drops| + 1
      ensures Eligible(sources, floor, Rest(sources, (drops + [d])[..k]), (drops + [d])[k])
    {
      assert (drops + [d])[..k] == drops[..k];
      assert drops[..|drops|] == drops;
    }
  }

  lemma EligiblePrefix(sources: seq<Source>, floor: nat, drops: seq<nat>)
    requires EligibleRun(sources, floor, drops) && drops != []
    ensures var n := |drops| - 1;
            && EligibleRun(sources, floor, drops[..n])
            && Eligible(sources, floor, Rest(sources, drops[..n]), drops[n])
            && Rest(sources, drops) == Rest(sources, drops[..n]) - {drops[n]}
  {
    var n := |drops| - 1;
    assert drops == drops[..n] + [drops[n]];
    RestShrinks(sources, drops[..n], drops[n]);
    forall k | 0 <= k < n ensures drops[..n][..k] == drops[..k] {}
  }

  lemma RestShrinks(sources: seq<Source>, drops: seq<nat>, d: nat)
    ensures Rest(sources, drops + [d]) == Rest(sources, drops) - {d}
  {
  }

  lemma GreedyExtend(sources: seq<Source>, score: nat -> real, floor: nat, drops: seq<nat>, d: nat)
    requires GreedyRun(sources, score, floor, drops)
    requires Victim(sources, score, floor, Rest(sources, drops), d)
    ensures GreedyRun(sources, score, floor, drops + [d])
  {
    forall k | 0 <= k < |drops| + 1
      ensures Victim(sources, score, floor, Rest(sources, (drops + [d])[..k]), (drops + [d])[k])
    {
      assert (drops + [d])[..k] == drops[..k];
      assert drops[..|drops|] == drops;
    }
  }

  lemma GreedyPrefix(sources: seq<Source>, score: nat -> real, floor: nat, drops: seq<nat>)
    requires GreedyRun(sources, score, floor, drops) && drops != []
    ensures var n := |drops| - 1;
            && GreedyRun(sources, score, floor, drops[..n])
            && Victim(sources, score, floor, Rest(sources, drops[..n]), drops[n])
            && Rest(sources, drops) == Rest(sources, drops[..n]) - {drops[n]}
  {
    var n := |drops| - 1;
    assert drops == drops[..n] + [drops[n]];
    RestShrinks(sources, drops[..n], drops[n]);
    forall k | 0 <= k < n ensures drops[..n][..k] == drops[..k] {}
  }

  /** Two greedy runs of the same length over the same scores drop the same bullets in the same order. */
  lemma {:induction false} GreedyIsDeterministic(sources: seq<Source>, score: nat -> real, floor: nat,
                                                 ds: seq<nat>, es: seq<nat>)
    requires GreedyRun(sources, score, floor, ds) && GreedyRun(sources, score, floor, es)
    requires |ds| == |es|
    ensures ds == es
  {
    if ds != [] {
      var n := |ds| - 1;
      GreedyPrefix(sources, score, floor, ds);
      GreedyPrefix(sources, score, floor, es);
      GreedyIsDeterministic(sources, score, floor, ds[..n], es[..n]);
      assert ds == ds[..n] + [ds[n]] && es == es[..n] + [es[n]];
    }
  }

  /** What survives in a bucket is its best bullets: everything dropped ranks below everything kept. */
  lemma SurvivorsAreTheBest(sources: seq<Source>, score: nat -> real, floor: nat, drops: seq<nat>, d: nat, i: nat)
    requires GreedyRun(sources, score, floor, drops)
    requires d in drops && i in Rest(sources, drops)
    requires d < |sources| && sources[d].bucket == sources[i].bucket
    ensures score(d) <= score(i) && (score(d) == score(i) ==> d < i)
  {
    var k :| 0 <= k < |drops| && drops[k] == d;
    assert Victim(sources, score, floor, Rest(sources, drops[..k]), d);
    assert Eligible(sources, floor, Rest(sources, drops[..k]), i);
  }

  /** At every moment the bullet dropped scores lowest, of all buckets with more than the floor left, and
      comes first among equals. */
  lemma LowestIsDropped(sources: seq<Source>, score: nat -> real, floor: nat, drops: seq<nat>, k: nat, i: nat)
    requires GreedyRun(sources, score, floor, drops) && k < |drops|
    requires i < |sources| && i !in drops[..k]
    requires var left := set m | 0 <= m < |sources| && m !in drops[..k] && sources[m].bucket == sources[i].bucket;
             |left| > floor
    ensures score(drops[k]) <= score(i) && (score(drops[k]) == score(i) ==> drops[k] <= i)
  {
    var live := Rest(sources, drops[..k]);
    var left := set m | 0 <= m < |sources| && m !in drops[..k] && sources[m].bucket == sources[i].bucket;
    assert left == LiveIn(sources, live, sources[i].bucket);
    assert Victim(sources, score, floor, live, drops[k]) && Eligible(sources, floor, live, i);
  }

  /** No bucket is taken below the floor, and one that starts at or below it keeps everything. */
  lemma {:induction false} BucketsKeepFloor(sources: seq<Source>, floor: nat, drops: seq<nat>, b: Bucket)
    requires EligibleRun(sources, floor, drops)
    ensures var start := |LiveIn(sources, All(sources), b)|;
            var left := |LiveIn(sources, Rest(sources, drops), b)|;
            if start <= floor then left == start else floor <= left <= start
  {
    if drops == [] {
      assert Rest(sources, drops) == All(sources);
    } else {
      var n := |drops| - 1;
      EligiblePrefix(sources, floor, drops);
      BucketsKeepFloor(sources, floor, drops[..n], b);
      var live := Rest(sources, drops[..n]);
      var d := drops[n];
      if sources[d].bucket == b {
        assert LiveIn(sources, Rest(sources, drops), b) == LiveIn(sources, live, b) - {d};
      } else {
        assert LiveIn(sources, Rest(sources, drops), b) == LiveIn(sources, live, b);
      }
    }
  }

  /** Bullets above the floor, summed over the buckets. */
  function Surplus(sources: seq<Source>, live: set<nat>, floor: nat, buckets: seq<Bucket>): nat {
    if buckets == [] then 0
    else
      var n := |LiveIn(sources, live, buckets[0])|;
      (if n > floor then n - floor else 0) + Surplus(sources, live, floor, buckets[1..])
  }

  lemma {:induction false} DropLowersSurplus(sources: seq<Source>, live: set<nat>, floor: nat,
                                             buckets: seq<Bucket>, d: nat)
    requires Eligible(sources, floor, live, d) && Distinct(buckets)
    ensures Surplus(sources, live - {d}, floor, buckets)
            + (if sources[d].bucket in buckets then 1 else 0)
            == Surplus(sources, live, floor, buckets)
  {
    if buckets != [] {
      DropLowersSurplus(sources, live, floor, buckets[1..], d);
      var b := buckets[0];
      if sources[d].bucket == b {
        assert LiveIn(sources, live - {d}, b) == LiveIn(sources, live, b) - {d};
        assert b !in buckets[1..];
      } else {
        assert LiveIn(sources, live - {d}, b) == LiveIn(sources, live, b);
        assert sources[d].bucket in buckets <==> sources[d].bucket in buckets[1..];
      }
    }
  }

  /** A run is no longer than the surplus it works off. */
  lemma {:induction false} DropsAreBounded(sources: seq<Source>, floor: nat, drops: seq<nat>, buckets: seq<Bucket>)
    requires EligibleRun(sources, floor, drops)
    requires Distinct(buckets) && forall s | s in sources :: s.bucket in buckets
    ensures |drops| + Surplus(sources, Rest(sources, drops), floor, buckets)
            == Surplus(sources, All(sources), floor, buckets)
  {
    if drops == [] {
      assert Rest(sources, drops) == All(sources);
    } else {
      var n := |drops| - 1;
      EligiblePrefix(sources, floor, drops);
      DropsAreBounded(sources, floor, drops[..n], buckets);
      DropLowersSurplus(sources, Rest(sources, drops[..n]), floor, buckets, drops[n]);
    }
  }

  // ----- the document -----

  /** The texts a bucket still has, in source order. */
  function Kept(sources: seq<Source>, live: set<nat>, b: Bucket, from: nat): seq<string>
    decreases |sources| - from
  {
    if from >= |sources| then []
    else if from in live && sources[from].bucket == b
    then [sources[from].text] + Kept(sources, live, b, from + 1)
    else Kept(sources, live, b, from + 1)
  }

  /** The bullets without the first one with hash `h`. */
  function WithoutFirst(bullets: seq<string>, h: string, hash: string -> string): Option<seq<string>> {
    if bullets == [] then None
    else if hash(bullets[0]) == h then Some(bullets[1..])
    else
      match WithoutFirst(bullets[1..], h, hash)
      case None => None
      case Some(rest) => Some([bullets[0]] + rest)
  }

  predicate Hashed(sources: seq<Source>, hash: string -> string) {
    forall i | 0 <= i < |sources| :: sources[i].hash == hash(sources[i].text)
  }

  /** Hashes tell the bullets of a bucket apart. */
  ghost predicate Tells(sources: seq<Source>, b: Bucket) {
    forall i, k | 0 <= i < k < |sources| && sources[i].bucket == sources[k].bucket == b ::
      sources[i].hash != sources[k].hash
  }

  /** They do in every bucket that starts above the floor, so can lose a bullet. */
  ghost predicate DistinctTexts(sources: seq<Source>, hash: string -> string, floor: nat) {
    Hashed(sources, hash)
    && forall b: Bucket | |LiveIn(sources, All(sources), b)| > floor :: Tells(sources, b)
  }

  lemma EligibleTells(sources: seq<Source>, hash: string -> string, floor: nat, live: set<nat>, d: nat)
    requires DistinctTexts(sources, hash, floor) && Eligible(sources, floor, live, d)
    ensures Tells(sources, sources[d].bucket)
  {
    var b := sources[d].bucket;
    SubsetSize(LiveIn(sources, live, b), LiveIn(sources, All(sources), b));
  }

  lemma {:induction false} RemovingHitsTheBullet(sources: seq<Source>, hash: string -> string,
                                                 live: set<nat>, d: nat, from: nat)
    requires d < |sources| && Hashed(sources, hash) && Tells(sources, sources[d].bucket)
    requires d in live && from <= d
    ensures WithoutFirst(Kept(sources, live, sources[d].bucket, from), sources[d].hash, hash)
            == Some(Kept(sources, live - {d}, sources[d].bucket, from))
    decreases d - from
  {
    var b := sources[d].bucket;
    if from == d {
      KeptIgnoresEarlier(sources, live, d, b, from + 1);
    } else {
      RemovingHitsTheBullet(sources, hash, live, d, from + 1);
      if from in live && sources[from].bucket == b {
        assert Kept(sources, live, b, from)[1..] == Kept(sources, live, b, from + 1);
        assert hash(sources[from].text) == sources[from].hash != sources[d].hash;
      }
    }
  }

  lemma {:induction false} KeptIgnoresEarlier(sources: seq<Source>, live: set<nat>, d: nat, b: Bucket,
                                              from: nat)
    requires d < from || (d < |sources| && sources[d].bucket != b)
    ensures Kept(sources, live - {d}, b, from) == Kept(sources, live, b, from)
    decreases |sources| - from
  {
    if from < |sources| { KeptIgnoresEarlier(sources, live, d, b, from + 1); }
  }

  /** The document holds exactly the live bullets of each bucket, in order. */
  ghost predicate Shows(entries: seq<Entry>, sources: seq<Source>, live: set<nat>) {
    && (forall i, k | 0 <= i < k < |entries| :: entries[i].bucket != entries[k].bucket)
    && (forall e | e in entries :: e.bullets == Kept(sources, live, e.bucket, 0))
  }

  ghost predicate Homed(entries: seq<Entry>, sources: seq<Source>) {
    forall s | s in sources :: exists e | e in entries :: e.bucket == s.bucket
  }

  function LiveFrom(sources: seq<Source>, live: set<nat>, b: Bucket, from: nat): set<nat> {
    set i | i in LiveIn(sources, live, b) && from <= i
  }

  lemma {:induction false} KeptLength(sources: seq<Source>, live: set<nat>, b: Bucket, from: nat)
    ensures |Kept(sources, live, b, from)| == |LiveFrom(sources, live, b, from)|
    decreases |sources| - from
  {
    if from >= |sources| {
      assert LiveFrom(sources, live, b, from) == {};
    } else {
      KeptLength(sources, live, b, from + 1);
      var later := LiveFrom(sources, live, b, from + 1);
      if from in live && sources[from].bucket == b {
        assert LiveFrom(sources, live, b, from) == later + {from};
      } else {
        assert LiveFrom(sources, live, b, from) == later;
      }
    }
  }

  lemma KeptCount(sources: seq<Source>, live: set<nat>, b: Bucket)
    ensures |Kept(sources, live, b, 0)| == |LiveIn(sources, live, b)|
  {
    KeptLength(sources, live, b, 0);
    assert LiveFrom(sources, live, b, 0) == LiveIn(sources, live, b);
  }
}

/** The page fit as a function of the document, the scores and an arbitrary compiler, and what it keeps. */
module PageFitting {
  import opened Sequences
  import opened Wrappers
  import opened PageFit

  function FindIndex(entries: seq<Entry>, b: Bucket): (k: nat)
    ensures k <= |entries| && (k < |entries| ==> entries[k].bucket == b)
    ensures forall i | 0 <= i < k :: entries[i].bucket != b
  {
    if entries == [] || entries[0].bucket == b then 0 else 1 + FindIndex(entries[1..], b)
  }

  /** The bullet with the source's hash goes; failing that, the one at its original place. */
  function WithoutBullet(entries: seq<Entry>, s: Source, hash: string -> string): Option<seq<Entry>> {
    var k := FindIndex(entries, s.bucket);
    if k == |entries| then None
    else
      var bullets := entries[k].bullets;
      match WithoutFirst(bullets, s.hash, hash)
      case Some(rest) => Some(entries[k := Entry(s.bucket, rest)])
      case None =>
        if s.index < |bullets|
        then Some(entries[k := Entry(s.bucket, bullets[..s.index] + bullets[s.index + 1..])])
        else None
  }

  function WithoutBucket(entries: seq<Entry>, b: Bucket): seq<Entry> {
    if entries == [] then []
    else (if entries[0].bucket != b then [entries[0]] else []) + WithoutBucket(entries[1..], b)
  }

  /** The entry of the bucket goes, and the others stay in order. */
  lemma {:induction false} OnlyBucketGoes(front: seq<Entry>, e: Entry, back: seq<Entry>, b: Bucket)
    ensures WithoutBucket(front + [e] + back, b)
            == WithoutBucket(front, b) + (if e.bucket == b then [] else [e]) + WithoutBucket(back, b)
  {
    var all := front + [e] + back;
    if front == [] {
      assert all[1..] == back;
    } else {
      assert all[0] == front[0] && all[1..] == front[1..] + [e] + back;
      OnlyBucketGoes(front[1..], e, back, b);
    }
  }

  lemma {:induction false} FirstHashHere(bullets: seq<string>, h: string, hash: string -> string, i: nat)
    requires i <= |bullets| && forall k | 0 <= k < i :: hash(bullets[k]) != h
    ensures i == |bullets| ==> WithoutFirst(bullets, h, hash).None?
    ensures i < |bullets| && hash(bullets[i]) == h ==>
              WithoutFirst(bullets, h, hash) == Some(bullets[..i] + bullets[i + 1..])
  {
    if i > 0 {
      FirstHashHere(bullets[1..], h, hash, i - 1);
      if i < |bullets| && hash(bullets[i]) == h {
        assert [bullets[0]] + (bullets[1..][..i - 1] + bullets[1..][i..]) == bullets[..i] + bullets[i + 1..];
      }
    } else if bullets != [] {
      assert bullets[..0] + bullets[1..] == bullets[1..];
    }
  }

  /** In the first entry of the source's bucket: the first bullet with its hash goes, else the one at its old
      place, else the removal fails. No other entry changes. */
  lemma RemovalTakes(entries: seq<Entry>, s: Source, hash: string -> string, m: nat)
    requires m < |entries| && entries[m].bucket == s.bucket && forall i | 0 <= i < m :: entries[i].bucket != s.bucket
    ensures var bullets := entries[m].bullets;
            var after := WithoutBullet(entries, s, hash);
            && (forall p | 0 <= p < |bullets| && hash(bullets[p]) == s.hash
                           && (forall q | 0 <= q < p :: hash(bullets[q]) != s.hash) ::
                  after == Some(entries[m := Entry(s.bucket, bullets[..p] + bullets[p + 1..])]))
            && ((forall q | 0 <= q < |bullets| :: hash(bullets[q]) != s.hash) ==>
                  after == if s.index < |bullets|
                           then Some(entries[m := Entry(s.bucket, bullets[..s.index] + bullets[s.index + 1..])])
                           else None)
  {
    var bullets := entries[m].bullets;
    assert FindIndex(entries, s.bucket) == m;
    if forall q | 0 <= q < |bullets| :: hash(bullets[q]) != s.hash { FirstHashHere(bullets, s.hash, hash, |bullets|); }
    forall p | 0 <= p < |bullets| && hash(bullets[p]) == s.hash
               && (forall q | 0 <= q < p :: hash(bullets[q]) != s.hash)
      ensures WithoutBullet(entries, s, hash) == Some(entries[m := Entry(s.bucket, bullets[..p] + bullets[p + 1..])])
    {
      FirstHashHere(bullets, s.hash, hash, p);
    }
  }

  class Document {
    var entries: seq<Entry>
    const hash: string -> string

    constructor (content: seq<Entry>, textHash: string -> string)
      ensures entries == content && hash == textHash
    {
      entries, hash := content, textHash;
    }

    method RemoveBullet(s: Source) returns (ok: bool)
      modifies this
      ensures ok == WithoutBullet(old(entries), s, hash).Some?
      ensures entries == if ok then WithoutBullet(old(entries), s, hash).value else old(entries)
    {
      var k := FindIndex(entries, s.bucket);
      if k == |entries| { return false; }
      var bullets := entries[k].bullets;
      for i := 0 to |bullets|
        invariant entries == old(entries)
        invariant forall m | 0 <= m < i :: hash(bullets[m]) != s.hash
      {
        if hash(bullets[i]) == s.hash {
          FirstHashHere(bullets, s.hash, hash, i);
          entries := entries[k := Entry(s.bucket, bullets[..i] + bullets[i + 1..])];
          return true;
        }
      }
      FirstHashHere(bullets, s.hash, hash, |bullets|);
      if s.index < |bullets| {
        entries := entries[k := Entry(s.bucket, bullets[..s.index] + bullets[s.index + 1..])];
        return true;
      }
      return false;
    }

    method RemoveBucket(b: Bucket)
      modifies this
      ensures entries == WithoutBucket(old(entries), b)
    {
      entries := WithoutBucket(entries, b);
    }
  }

  /** Bullets that may be dropped can be told apart by their hashes, and the document shows all of them. */
  ghost predicate Ready(entries: seq<Entry>, sources: seq<Source>, hash: string -> string, floor: nat) {
    DistinctTexts(sources, hash, floor) && Homed(entries, sources) && Shows(entries, sources, All(sources))
  }

  lemma RemovalShows(entries: seq<Entry>, sources: seq<Source>, hash: string -> string,
                     live: set<nat>, d: nat)
    requires d < |sources| && Hashed(sources, hash) && Tells(sources, sources[d].bucket)
    requires Homed(entries, sources) && Shows(entries, sources, live) && d in live
    ensures var e := WithoutBullet(entries, sources[d], hash);
            && e.Some? && Homed(e.value, sources) && Shows(e.value, sources, live - {d})
            && |e.value| == |entries|
            && forall k | 0 <= k < |entries| :: e.value[k].bucket == entries[k].bucket
  {
    var s := sources[d];
    assert s in sources;
    var home :| home in entries && home.bucket == s.bucket;
    var k := FindIndex(entries, s.bucket);
    assert entries[k] in entries;
    RemovingHitsTheBullet(sources, hash, live, d, 0);
    var after := WithoutBullet(entries, s, hash).value;
    forall i | 0 <= i < |entries|
      ensures after[i].bullets == Kept(sources, live - {d}, after[i].bucket, 0)
      ensures after[i].bucket == entries[i].bucket
    {
      assert entries[i] in entries;
      if i != k { KeptIgnoresEarlier(sources, live, d, entries[i].bucket, 0); }
    }
    forall t | t in sources ensures exists e | e in after :: e.bucket == t.bucket {
      var e :| e in entries && e.bucket == t.bucket;
      var i :| 0 <= i < |entries| && entries[i] == e;
      assert after[i] in after;
    }
  }

  // ----- the fit as a function -----

  /** The buckets of the sources, in order of first occurrence. */
  function FirstSeen(sources: seq<Source>): (buckets: seq<Bucket>)
    ensures Distinct(buckets) && forall b :: b in buckets <==> exists s | s in sources :: s.bucket == b
  {
    if sources == [] then []
    else
      var n := |sources| - 1;
      var before := FirstSeen(sources[..n]);
      assert sources == sources[..n] + [sources[n]];
      if sources[n].bucket in before then before else before + [sources[n].bucket]
  }

  /** The buckets flagged so far and, in order, those that now have exactly `floor` bullets. */
  function Flag(flagged: seq<Bucket>, buckets: seq<Bucket>, sources: seq<Source>, live: set<nat>, floor: nat)
    : seq<Bucket>
  {
    if buckets == [] then flagged
    else
      var n := |buckets| - 1;
      var before := Flag(flagged, buckets[..n], sources, live, floor);
      var b := buckets[n];
      if |LiveIn(sources, live, b)| == floor > 0 && b !in before then before + [b] else before
  }

  /** The least bullet of a bucket above the floor. */
  ghost predicate Leads(sources: seq<Source>, score: nat -> real, floor: nat, live: set<nat>, c: nat) {
    Eligible(sources, floor, live, c)
    && forall i | i in LiveIn(sources, live, sources[c].bucket) :: i == c || Before(score, c, i)
  }

  ghost predicate Removable(entries: seq<Entry>, sources: seq<Source>, hash: string -> string,
                            score: nat -> real, floor: nat, live: set<nat>, c: nat)
  {
    Leads(sources, score, floor, live, c) && WithoutBullet(entries, sources[c], hash).Some?
  }

  /** The first leader that the document gives up. */
  ghost predicate IsNext(entries: seq<Entry>, sources: seq<Source>, hash: string -> string,
                         score: nat -> real, floor: nat, live: set<nat>, d: nat)
  {
    Removable(entries, sources, hash, score, floor, live, d)
    && forall c | Removable(entries, sources, hash, score, floor, live, c) :: c == d || Before(score, d, c)
  }

  lemma {:induction false} LeastExists(ids: set<nat>, score: nat -> real) returns (d: nat)
    requires ids != {}
    ensures d in ids && forall i | i in ids :: i == d || Before(score, d, i)
  {
    var x: nat :| x in ids;
    var rest := ids - {x};
    d := x;
    if rest != {} {
      var e := LeastExists(rest, score);
      if Before(score, e, x) { d := e; }
    }
    forall i: nat | i in ids ensures i == d || Before(score, d, i) {
      assert i == x || i in rest;
    }
  }

  ghost function NextDrop(entries: seq<Entry>, sources: seq<Source>, hash: string -> string,
                          score: nat -> real, floor: nat, live: set<nat>): (r: Option<nat>)
    ensures r.Some? ==> IsNext(entries, sources, hash, score, floor, live, r.value)
    ensures r.None? ==> forall c :: !Removable(entries, sources, hash, score, floor, live, c)
  {
    var all := set c | c in live && Removable(entries, sources, hash, score, floor, live, c);
    if all == {} then
      assert forall c :: Removable(entries, sources, hash, score, floor, live, c) ==> c in all;
      None
    else
      NextExists(entries, sources, hash, score, floor, live, all);
      var d :| IsNext(entries, sources, hash, score, floor, live, d);
      Some(d)
  }

  lemma NextExists(entries: seq<Entry>, sources: seq<Source>, hash: string -> string,
                   score: nat -> real, floor: nat, live: set<nat>, all: set<nat>)
    requires all != {}
    requires all == set c | c in live && Removable(entries, sources, hash, score, floor, live, c)
    ensures exists d :: IsNext(entries, sources, hash, score, floor, live, d)
  {
    var d := LeastExists(all, score);
    assert IsNext(entries, sources, hash, score, floor, live, d);
  }

  datatype Fitted = Fitted(entries: seq<Entry>, last: Compile, removed: Option<Bucket>, drops: seq<nat>)

  /** The fit from where it stands: compile, and while the page overflows drop the next bullet; when
      there is none, remove the first flagged bucket. `answers(n)` is the n-th compile. */
  ghost function FitFrom(entries: seq<Entry>, sources: seq<Source>, hash: string -> string,
                         score: nat -> real, answers: nat -> Compile, floor: nat,
                         drops: seq<nat>, flagged: seq<Bucket>): Fitted
    decreases Rest(sources, drops)
  {
    var last := answers(|drops|);
    if !NeedsDrop(last) then Fitted(entries, last, None, drops)
    else
      var live := Rest(sources, drops);
      var now := Flag(flagged, FirstSeen(sources), sources, live, floor);
      match NextDrop(entries, sources, hash, score, floor, live)
      case Some(d) =>
        RestShrinks(sources, drops, d);
        assert d in live;
        FitFrom(WithoutBullet(entries, sources[d], hash).value, sources, hash, score, answers, floor,
                drops + [d], now)
      case None =>
        if now == [] then Fitted(entries, last, None, drops)
        else Fitted(WithoutBucket(entries, now[0]), last, Some(now[0]), drops)
  }

  ghost function Fit(entries: seq<Entry>, sources: seq<Source>, hash: string -> string,
                     score: nat -> real, answers: nat -> Compile, floor: nat): Fitted
  {
    FitFrom(entries, sources, hash, score, answers, floor, [], [])
  }

  // ----- what holds of every fit -----

  /** Flagged buckets have exactly `floor` bullets left. */
  ghost predicate AtFloor(flagged: seq<Bucket>, sources: seq<Source>, live: set<nat>, floor: nat) {
    forall b | b in flagged :: |LiveIn(sources, live, b)| == floor > 0
  }

  lemma {:induction false} FlagKeeps(flagged: seq<Bucket>, buckets: seq<Bucket>, sources: seq<Source>,
                                     live: set<nat>, floor: nat)
    requires AtFloor(flagged, sources, live, floor)
    ensures var now := Flag(flagged, buckets, sources, live, floor);
            && AtFloor(now, sources, live, floor)
            && forall b | b in buckets && |LiveIn(sources, live, b)| == floor > 0 :: b in now
  {
    if buckets != [] {
      var n := |buckets| - 1;
      FlagKeeps(flagged, buckets[..n], sources, live, floor);
      assert buckets == buckets[..n] + [buckets[n]];
    }
  }

  lemma FlagsSurviveDrop(flagged: seq<Bucket>, sources: seq<Source>, drops: seq<nat>, floor: nat, d: nat)
    requires AtFloor(flagged, sources, Rest(sources, drops), floor)
    requires Eligible(sources, floor, Rest(sources, drops), d)
    ensures AtFloor(flagged, sources, Rest(sources, drops + [d]), floor)
  {
    RestShrinks(sources, drops, d);
    forall b | b in flagged
      ensures LiveIn(sources, Rest(sources, drops + [d]), b) == LiveIn(sources, Rest(sources, drops), b)
    {
      assert sources[d].bucket != b;
    }
  }

  lemma FlaggedMeans(flagged: seq<Bucket>, sources: seq<Source>, drops: seq<nat>, floor: nat)
    requires AtFloor(flagged, sources, Rest(sources, drops), floor)
    ensures flagged != [] ==> |LiveIn(sources, Rest(sources, drops), flagged[0])| == floor > 0
  {
  }

  lemma NextIsEligible(entries: seq<Entry>, sources: seq<Source>, hash: string -> string,
                       score: nat -> real, floor: nat, live: set<nat>)
    ensures var next := NextDrop(entries, sources, hash, score, floor, live);
            next.Some? ==> Eligible(sources, floor, live, next.value) && next.value in live
                           && next.value < |sources| && WithoutBullet(entries, sources[next.value], hash).Some?
  {
    hide WithoutBullet;
  }

  /** No text has to differ for this: drops come from buckets above the floor, there are no more of them
      than the surplus, every compile but the last asks for one, and a removed bucket is at the floor. */
  lemma {:induction false} FitFromIsBounded(entries: seq<Entry>, sources: seq<Source>, hash: string -> string,
                                            score: nat -> real, answers: nat -> Compile, floor: nat,
                                            drops: seq<nat>, flagged: seq<Bucket>)
    requires EligibleRun(sources, floor, drops) && AtFloor(flagged, sources, Rest(sources, drops), floor)
    requires forall k | 0 <= k < |drops| :: NeedsDrop(answers(k))
    ensures var f := FitFrom(entries, sources, hash, score, answers, floor, drops, flagged);
            && EligibleRun(sources, floor, f.drops)
            && f.last == answers(|f.drops|) && (forall k | 0 <= k < |f.drops| :: NeedsDrop(answers(k)))
            && (f.removed.Some? ==> |LiveIn(sources, Rest(sources, f.drops), f.removed.value)| == floor > 0)
    decreases Rest(sources, drops)
  {
    hide LiveIn, Flag, NeedsDrop, WithoutBullet, EligibleRun, AtFloor, NextDrop, IsNext, Eligible, Rest, FirstSeen,
         WithoutBucket;
    var live := Rest(sources, drops);
    NextIsEligible(entries, sources, hash, score, floor, live);
    FlagKeeps(flagged, FirstSeen(sources), sources, live, floor);
    var now := Flag(flagged, FirstSeen(sources), sources, live, floor);
    FlaggedMeans(now, sources, drops, floor);
    var next := NextDrop(entries, sources, hash, score, floor, live);
    if NeedsDrop(answers(|drops|)) && next.Some? {
      var d := next.value;
      EligibleExtend(sources, floor, drops, d);
      FlagsSurviveDrop(now, sources, drops, floor, d);
      RestShrinks(sources, drops, d);
      FitFromIsBounded(WithoutBullet(entries, sources[d], hash).value, sources, hash, score, answers, floor,
                       drops + [d], now);
    }
  }

  lemma FitIsBounded(entries: seq<Entry>, sources: seq<Source>, hash: string -> string,
                     score: nat -> real, answers: nat -> Compile, floor: nat)
    ensures var f := Fit(entries, sources, hash, score, answers, floor);
            && EligibleRun(sources, floor, f.drops)
            && |f.drops| <= Surplus(sources, All(sources), floor, FirstSeen(sources))
            && f.last == answers(|f.drops|) && (forall k | 0 <= k < |f.drops| :: NeedsDrop(answers(k)))
            && (f.removed.Some? ==> |LiveIn(sources, Rest(sources, f.drops), f.removed.value)| == floor > 0)
  {
    FitFromIsBounded(entries, sources, hash, score, answers, floor, [], []);
    DropsAreBounded(sources, floor, Fit(entries, sources, hash, score, answers, floor).drops, FirstSeen(sources));
  }

  // ----- how a fit ends -----

  /** Nothing can be dropped and nothing given up: no bucket stands at the floor, and no bullet that leads a
      bucket above it can be removed. */
  ghost predicate Stuck(entries: seq<Entry>, sources: seq<Source>, hash: string -> string, score: nat -> real,
                        floor: nat, live: set<nat>)
  {
    && (forall b | b in FirstSeen(sources) :: floor == 0 || |LiveIn(sources, live, b)| != floor)
    && forall c :: !Removable(entries, sources, hash, score, floor, live, c)
  }

  /** On one page, not compiled, or of unknown length. */
  predicate Settled(c: Compile) {
    c.fitsOnePage || c.status != "ok" || c.pageCount == None || c.pageCount.value <= 1
  }

  /** Every compile followed by a drop or a removal has more than one page; a fit that gives nothing up ends on
      a settled compile, or stuck. */
  lemma {:induction false} FitFromEnds(entries: seq<Entry>, sources: seq<Source>, hash: string -> string,
                                       score: nat -> real, answers: nat -> Compile, floor: nat,
                                       drops: seq<nat>, flagged: seq<Bucket>)
    requires AtFloor(flagged, sources, Rest(sources, drops), floor)
    ensures var f := FitFrom(entries, sources, hash, score, answers, floor, drops, flagged);
            && |drops| <= |f.drops| && f.last == answers(|f.drops|)
            && (forall k | |drops| <= k < |f.drops| + (if f.removed.Some? then 1 else 0) :: !Settled(answers(k)))
            && (f.removed.None? ==>
                  Settled(f.last) || Stuck(f.entries, sources, hash, score, floor, Rest(sources, f.drops)))
    decreases Rest(sources, drops)
  {
    hide LiveIn, Flag, WithoutBullet, AtFloor, NextDrop, IsNext, Eligible, Rest, FirstSeen, WithoutBucket, Removable,
         Stuck;
    var live := Rest(sources, drops);
    NextIsEligible(entries, sources, hash, score, floor, live);
    FlagKeeps(flagged, FirstSeen(sources), sources, live, floor);
    var now := Flag(flagged, FirstSeen(sources), sources, live, floor);
    var next := NextDrop(entries, sources, hash, score, floor, live);
    if NeedsDrop(answers(|drops|)) {
      if next.Some? {
        var d := next.value;
        FlagsSurviveDrop(now, sources, drops, floor, d);
        RestShrinks(sources, drops, d);
        FitFromEnds(WithoutBullet(entries, sources[d], hash).value, sources, hash, score, answers, floor,
                    drops + [d], now);
      } else if now == [] {
        StuckWithoutFlags(entries, sources, hash, score, floor, live, now);
      }
    }
  }

  lemma StuckWithoutFlags(entries: seq<Entry>, sources: seq<Source>, hash: string -> string, score: nat -> real,
                          floor: nat, live: set<nat>, now: seq<Bucket>)
    requires NextDrop(entries, sources, hash, score, floor, live).None? && now == []
    requires forall b | b in FirstSeen(sources) && |LiveIn(sources, live, b)| == floor > 0 :: b in now
    ensures Stuck(entries, sources, hash, score, floor, live)
  {
  }

  lemma FitEnds(entries: seq<Entry>, sources: seq<Source>, hash: string -> string, score: nat -> real,
                answers: nat -> Compile, floor: nat)
    ensures var f := Fit(entries, sources, hash, score, answers, floor);
            && f.last == answers(|f.drops|)
            && (forall k | 0 <= k < |f.drops| + (if f.removed.Some? then 1 else 0) :: !Settled(answers(k)))
            && (f.removed.None? ==>
                  Settled(f.last) || Stuck(f.entries, sources, hash, score, floor, Rest(sources, f.drops)))
  {
    FitFromEnds(entries, sources, hash, score, answers, floor, [], []);
  }

  // ----- which bucket is given up -----

  /** A bucket earlier in the list occurs among some first sources before the other does. */
  lemma {:induction false} FirstSeenInOrder(sources: seq<Source>, i: nat, k: nat)
    requires i < k < |FirstSeen(sources)|
    ensures exists p | 0 <= p <= |sources| ::
              (exists s | s in sources[..p] :: s.bucket == FirstSeen(sources)[i])
              && forall s | s in sources[..p] :: s.bucket != FirstSeen(sources)[k]
  {
    var n := |sources| - 1;
    var before, b := FirstSeen(sources[..n]), sources[n].bucket;
    if k < |before| {
      FirstSeenInOrder(sources[..n], i, k);
      var p :| 0 <= p <= n && (exists s | s in sources[..n][..p] :: s.bucket == before[i])
               && forall s | s in sources[..n][..p] :: s.bucket != before[k];
      assert sources[..n][..p] == sources[..p];
    } else {
      assert before[i] in before && b !in before;
      assert 0 <= n <= |sources| && forall s | s in sources[..n] :: s.bucket != b;
    }
  }

  predicate StandsAtFloor(sources: seq<Source>, floor: nat, drops: seq<nat>, b: Bucket) {
    |LiveIn(sources, Rest(sources, drops), b)| == floor > 0
  }

  /** After k drops the i-th bucket, and none before it, stands at the floor; no bucket did after fewer. */
  ghost predicate FirstAtFloor(sources: seq<Source>, floor: nat, drops: seq<nat>, k: nat, i: nat) {
    var buckets := FirstSeen(sources);
    && k <= |drops| && i < |buckets| && StandsAtFloor(sources, floor, drops[..k], buckets[i])
    && (forall m | 0 <= m < i :: !StandsAtFloor(sources, floor, drops[..k], buckets[m]))
    && forall m, b | 0 <= m < k && b in buckets :: !StandsAtFloor(sources, floor, drops[..m], b)
  }

  /** The first bucket flagged is the first to have reached the floor, if any has. */
  ghost predicate FlaggedFirst(flagged: seq<Bucket>, sources: seq<Source>, floor: nat, drops: seq<nat>) {
    if flagged == [] then forall m, b | 0 <= m <= |drops| && b in FirstSeen(sources) ::
      !StandsAtFloor(sources, floor, drops[..m], b)
    else exists k: nat, i: nat :: FirstAtFloor(sources, floor, drops, k, i) && flagged[0] == FirstSeen(sources)[i]
  }

  lemma {:induction false} FlagPutsFirst(flagged: seq<Bucket>, buckets: seq<Bucket>, sources: seq<Source>,
                                         live: set<nat>, floor: nat)
    ensures var now := Flag(flagged, buckets, sources, live, floor);
            if flagged != [] then now != [] && now[0] == flagged[0]
            else if now == [] then forall b | b in buckets :: !(|LiveIn(sources, live, b)| == floor > 0)
            else exists i: nat | i < |buckets| ::
                   buckets[i] == now[0] && |LiveIn(sources, live, buckets[i])| == floor > 0
                   && forall m | 0 <= m < i :: !(|LiveIn(sources, live, buckets[m])| == floor > 0)
  {
    if buckets != [] {
      hide LiveIn;
      var n := |buckets| - 1;
      FlagPutsFirst(flagged, buckets[..n], sources, live, floor);
      assert buckets == buckets[..n] + [buckets[n]];
      var before := Flag(flagged, buckets[..n], sources, live, floor);
      if flagged == [] && before == [] && |LiveIn(sources, live, buckets[n])| == floor > 0 {
        assert forall m | 0 <= m < n :: buckets[m] in buckets[..n];
      }
    }
  }

  lemma FlagsFirst(flagged: seq<Bucket>, sources: seq<Source>, floor: nat, drops: seq<nat>)
    requires drops == [] ==> flagged == []
    requires drops != [] ==> FlaggedFirst(flagged, sources, floor, drops[..|drops|-1])
    ensures FlaggedFirst(Flag(flagged, FirstSeen(sources), sources, Rest(sources, drops), floor), sources, floor, drops)
  {
    hide LiveIn, Rest, FirstSeen, Flag;
    var n, buckets := |drops|, FirstSeen(sources);
    var now := Flag(flagged, buckets, sources, Rest(sources, drops), floor);
    FlagPutsFirst(flagged, buckets, sources, Rest(sources, drops), floor);
    assert drops[..n] == drops;
    assert forall m | 0 <= m < n :: drops[..n - 1][..m] == drops[..m];
    if flagged != [] {
      var k: nat, i: nat :| FirstAtFloor(sources, floor, drops[..n - 1], k, i) && flagged[0] == buckets[i];
      assert FirstAtFloor(sources, floor, drops, k, i);
    } else if now != [] {
      var i: nat :| i < |buckets| && buckets[i] == now[0] && StandsAtFloor(sources, floor, drops, buckets[i])
                    && forall m | 0 <= m < i :: !StandsAtFloor(sources, floor, drops, buckets[m]);
      assert FirstAtFloor(sources, floor, drops, n, i);
    }
  }

  /** A bucket is given up only if it was the first to reach the floor. */
  lemma {:induction false} FitFromRemovesFirst(entries: seq<Entry>, sources: seq<Source>, hash: string -> string,
                                               score: nat -> real, answers: nat -> Compile, floor: nat,
                                               drops: seq<nat>, flagged: seq<Bucket>)
    requires drops == [] ==> flagged == []
    requires drops != [] ==> FlaggedFirst(flagged, sources, floor, drops[..|drops|-1])
    ensures var f := FitFrom(entries, sources, hash, score, answers, floor, drops, flagged);
            f.removed.Some? ==> FlaggedFirst([f.removed.value], sources, floor, f.drops)
    decreases Rest(sources, drops)
  {
    hide LiveIn, Flag, WithoutBullet, NextDrop, IsNext, Eligible, Rest, FirstSeen, WithoutBucket, FlaggedFirst,
         NeedsDrop;
    var live := Rest(sources, drops);
    NextIsEligible(entries, sources, hash, score, floor, live);
    FlagsFirst(flagged, sources, floor, drops);
    var now := Flag(flagged, FirstSeen(sources), sources, live, floor);
    var next := NextDrop(entries, sources, hash, score, floor, live);
    if NeedsDrop(answers(|drops|)) {
      if next.Some? {
        RestShrinks(sources, drops, next.value);
        assert (drops + [next.value])[..|drops|] == drops;
        FitFromRemovesFirst(WithoutBullet(entries, sources[next.value], hash).value, sources, hash, score, answers,
                            floor, drops + [next.value], now);
      } else if now != [] {
        OnlyFirstMatters(now, sources, floor, drops);
      }
    }
  }

  lemma OnlyFirstMatters(flagged: seq<Bucket>, sources: seq<Source>, floor: nat, drops: seq<nat>)
    requires flagged != [] && FlaggedFirst(flagged, sources, floor, drops)
    ensures FlaggedFirst([flagged[0]], sources, floor, drops)
  {
  }

  lemma RemovedReachedFloorFirst(entries: seq<Entry>, sources: seq<Source>, hash: string -> string,
                                 score: nat -> real, answers: nat -> Compile, floor: nat)
    ensures var f := Fit(entries, sources, hash, score, answers, floor);
            f.removed.Some? ==> exists k: nat, i: nat ::
              FirstAtFloor(sources, floor, f.drops, k, i) && f.removed.value == FirstSeen(sources)[i]
  {
    FitFromRemovesFirst(entries, sources, hash, score, answers, floor, [], []);
  }

  // ----- what holds when the bullets can be told apart -----

  /** Some bucket starts with at least a floor's worth of bullets (so there is one to work on). */
  ghost predicate SomeBucketAtFloor(sources: seq<Source>, floor: nat) {
    floor > 0 && exists b: Bucket :: |LiveIn(sources, All(sources), b)| >= floor
  }

  /** What a finished fit says about the drops it made. */
  ghost predicate FitMeans(before: seq<Entry>, sources: seq<Source>, score: nat -> real, floor: nat, f: Fitted) {
    var live := Rest(sources, f.drops);
    && GreedyRun(sources, score, floor, f.drops)
    && (f.removed.Some? ==> floor > 0 && |LiveIn(sources, live, f.removed.value)| == floor)
    && (NeedsDrop(f.last) ==> forall i :: !Eligible(sources, floor, live, i))
    && (f.removed.None? <==> !NeedsDrop(f.last) || !SomeBucketAtFloor(sources, floor))
    && exists shown: seq<Entry> ::
         && Shows(shown, sources, live) && |shown| == |before|
         && (forall k | 0 <= k < |before| :: shown[k].bucket == before[k].bucket)
         && f.entries == if f.removed.Some? then WithoutBucket(shown, f.removed.value) else shown
  }

  /** When nothing can be dropped, a bucket is flagged exactly when one started with a floor's worth. */
  lemma RemainderAtFloor(sources: seq<Source>, floor: nat, drops: seq<nat>, now: seq<Bucket>)
    requires EligibleRun(sources, floor, drops) && AtFloor(now, sources, Rest(sources, drops), floor)
    requires forall b | b in FirstSeen(sources) && |LiveIn(sources, Rest(sources, drops), b)| == floor > 0 :: b in now
    requires forall i :: !Eligible(sources, floor, Rest(sources, drops), i)
    ensures now != [] <==> SomeBucketAtFloor(sources, floor)
  {
    var live := Rest(sources, drops);
    if now != [] {
      var b := now[0];
      BucketsKeepFloor(sources, floor, drops, b);
      assert |LiveIn(sources, All(sources), b)| >= floor;
    }
    if SomeBucketAtFloor(sources, floor) {
      var b: Bucket :| |LiveIn(sources, All(sources), b)| >= floor;
      BucketsKeepFloor(sources, floor, drops, b);
      var kept := LiveIn(sources, live, b);
      assert |kept| >= floor;
      var i :| i in kept;
      assert !Eligible(sources, floor, live, i);
      assert sources[i] in sources;
    }
  }

  /** Where a fit stands after some drops. */
  ghost predicate Fitting(start: seq<Entry>, entries: seq<Entry>, sources: seq<Source>,
                          hash: string -> string, score: nat -> real, floor: nat, drops: seq<nat>)
  {
    && DistinctTexts(sources, hash, floor) && GreedyRun(sources, score, floor, drops)
    && Homed(entries, sources) && Shows(entries, sources, Rest(sources, drops))
    && |entries| == |start| && forall k | 0 <= k < |start| :: entries[k].bucket == start[k].bucket
  }

  /** Every eligible bullet can be removed, so the next drop is the least eligible one of all. */
  lemma NextIsVictim(start: seq<Entry>, entries: seq<Entry>, sources: seq<Source>, hash: string -> string,
                     score: nat -> real, floor: nat, drops: seq<nat>)
    requires Fitting(start, entries, sources, hash, score, floor, drops)
    ensures var live := Rest(sources, drops);
            var next := NextDrop(entries, sources, hash, score, floor, live);
            if next.Some? then Victim(sources, score, floor, live, next.value)
            else forall i :: !Eligible(sources, floor, live, i)
  {
    hide WithoutBullet, NextDrop;
    var live := Rest(sources, drops);
    var next := NextDrop(entries, sources, hash, score, floor, live);
    forall i | Eligible(sources, floor, live, i)
      ensures next.Some? && (i == next.value || Before(score, next.value, i))
    {
      var c := LeaderOf(entries, sources, hash, score, floor, live, i);
    }
  }

  lemma LeaderOf(entries: seq<Entry>, sources: seq<Source>, hash: string -> string,
                 score: nat -> real, floor: nat, live: set<nat>, i: nat) returns (c: nat)
    requires DistinctTexts(sources, hash, floor) && Homed(entries, sources) && Shows(entries, sources, live)
    requires Eligible(sources, floor, live, i)
    ensures Removable(entries, sources, hash, score, floor, live, c) && (c == i || Before(score, c, i))
  {
    c := LeastExists(LiveIn(sources, live, sources[i].bucket), score);
    EligibleTells(sources, hash, floor, live, c);
    RemovalShows(entries, sources, hash, live, c);
  }

  lemma FittingStep(start: seq<Entry>, entries: seq<Entry>, sources: seq<Source>, hash: string -> string,
                    score: nat -> real, floor: nat, drops: seq<nat>, d: nat)
    requires Fitting(start, entries, sources, hash, score, floor, drops)
    requires Victim(sources, score, floor, Rest(sources, drops), d)
    ensures var after := WithoutBullet(entries, sources[d], hash);
            after.Some? && Fitting(start, after.value, sources, hash, score, floor, drops + [d])
  {
    EligibleTells(sources, hash, floor, Rest(sources, drops), d);
    RemovalShows(entries, sources, hash, Rest(sources, drops), d);
    GreedyExtend(sources, score, floor, drops, d);
    RestShrinks(sources, drops, d);
  }

  lemma FitsNow(start: seq<Entry>, entries: seq<Entry>, sources: seq<Source>,
                hash: string -> string, score: nat -> real, floor: nat, drops: seq<nat>, last: Compile)
    requires Fitting(start, entries, sources, hash, score, floor, drops) && !NeedsDrop(last)
    ensures FitMeans(start, sources, score, floor, Fitted(entries, last, None, drops))
  {
  }

  lemma StuckMeans(start: seq<Entry>, entries: seq<Entry>, sources: seq<Source>,
                   hash: string -> string, score: nat -> real, floor: nat, drops: seq<nat>,
                   last: Compile, now: seq<Bucket>)
    requires Fitting(start, entries, sources, hash, score, floor, drops) && NeedsDrop(last)
    requires AtFloor(now, sources, Rest(sources, drops), floor)
    requires forall b | b in FirstSeen(sources) && |LiveIn(sources, Rest(sources, drops), b)| == floor > 0 :: b in now
    requires forall i :: !Eligible(sources, floor, Rest(sources, drops), i)
    ensures now == [] ==> FitMeans(start, sources, score, floor, Fitted(entries, last, None, drops))
    ensures now != [] ==> FitMeans(start, sources, score, floor,
                                   Fitted(WithoutBucket(entries, now[0]), last, Some(now[0]), drops))
  {
    GreedyIsEligible(sources, score, floor, drops);
    RemainderAtFloor(sources, floor, drops, now);
  }

  /** A fit of a ready document drops greedily and shows exactly what survives. */
  lemma {:induction false} FitFromMeans(start: seq<Entry>, entries: seq<Entry>, sources: seq<Source>,
                                        hash: string -> string, score: nat -> real, answers: nat -> Compile,
                                        floor: nat, drops: seq<nat>, flagged: seq<Bucket>)
    requires Fitting(start, entries, sources, hash, score, floor, drops)
    requires AtFloor(flagged, sources, Rest(sources, drops), floor)
    ensures FitMeans(start, sources, score, floor,
                     FitFrom(entries, sources, hash, score, answers, floor, drops, flagged))
    decreases Rest(sources, drops)
  {
    hide Fitting, FitMeans, Flag, NeedsDrop, WithoutBullet, NextDrop, WithoutBucket;
    var last := answers(|drops|);
    if !NeedsDrop(last) {
      FitsNow(start, entries, sources, hash, score, floor, drops, last);
    } else {
      var live := Rest(sources, drops);
      var now := Flag(flagged, FirstSeen(sources), sources, live, floor);
      FlagKeeps(flagged, FirstSeen(sources), sources, live, floor);
      NextIsVictim(start, entries, sources, hash, score, floor, drops);
      var next := NextDrop(entries, sources, hash, score, floor, live);
      if next.Some? {
        FittingStep(start, entries, sources, hash, score, floor, drops, next.value);
        FlagsSurviveDrop(now, sources, drops, floor, next.value);
        RestShrinks(sources, drops, next.value);
        assert next.value in live;
        FitFromMeans(start, WithoutBullet(entries, sources[next.value], hash).value, sources, hash, score,
                     answers, floor, drops + [next.value], now);
      } else {
        StuckMeans(start, entries, sources, hash, score, floor, drops, last, now);
      }
    }
  }

  lemma FitIsGreedy(start: seq<Entry>, sources: seq<Source>, hash: string -> string, score: nat -> real,
                    answers: nat -> Compile, floor: nat)
    requires Ready(start, sources, hash, floor)
    ensures FitMeans(start, sources, score, floor, Fit(start, sources, hash, score, answers, floor))
  {
    assert Fitting(start, start, sources, hash, score, floor, []);
    FitFromMeans(start, start, sources, hash, score, answers, floor, [], []);
  }
}

/** How the fits of one iteration follow each other: each starts from what the one before it left, and
    takes bullets away only. */
module PageRounds {
  import opened Sequences
  import opened Wrappers
  import opened PageFit
  import opened PageFitting
  import opened PageRestart

  /** `s` is what is left of `t` at these places, in order. */
  ghost predicate Picks(s: seq<string>, t: seq<string>, places: seq<nat>) {
    && |places| == |s| && (forall i, k | 0 <= i < k < |s| :: places[i] < places[k])
    && forall i | 0 <= i < |s| :: places[i] < |t| && s[i] == t[places[i]]
  }

  ghost predicate PartOf(s: seq<string>, t: seq<string>) {
    exists places: seq<nat> :: Picks(s, t, places)
  }

  /** The same entries, each with some of its bullets in their old order. */
  ghost predicate Shrinks(a: seq<Entry>, b: seq<Entry>) {
    SameBuckets(a, b) && forall k | 0 <= k < |a| :: PartOf(b[k].bullets, a[k].bullets)
  }

  lemma PartOfSelf(s: seq<string>)
    ensures PartOf(s, s)
  {
    assert Picks(s, s, seq(|s|, i => i));
  }

  lemma PartOfWithout(s: seq<string>, k: nat)
    requires k < |s|
    ensures PartOf(WithoutAt(s, k), s)
  {
    assert Picks(WithoutAt(s, k), s, seq(|s| - 1, i => if i < k then i else i + 1));
  }

  lemma PartOfChain(a: seq<string>, b: seq<string>, c: seq<string>)
    requires PartOf(a, b) && PartOf(b, c)
    ensures PartOf(a, c)
  {
    var p: seq<nat> :| Picks(a, b, p);
    var q: seq<nat> :| Picks(b, c, q);
    assert Picks(a, c, seq(|a|, i requires 0 <= i < |a| => q[p[i]]));
  }

  lemma ShrinksSelf(a: seq<Entry>)
    ensures Shrinks(a, a)
  {
    forall k | 0 <= k < |a| ensures PartOf(a[k].bullets, a[k].bullets) { PartOfSelf(a[k].bullets); }
  }

  lemma ShrinksChain(a: seq<Entry>, b: seq<Entry>, c: seq<Entry>)
    requires Shrinks(a, b) && Shrinks(b, c)
    ensures Shrinks(a, c)
  {
    hide PartOf;
    forall k | 0 <= k < |a| ensures PartOf(c[k].bullets, a[k].bullets) {
      PartOfChain(c[k].bullets, b[k].bullets, a[k].bullets);
    }
  }

  lemma RemovalShrinks(entries: seq<Entry>, s: Source, hash: string -> string)
    ensures var after := WithoutBullet(entries, s, hash);
            after.Some? ==> Shrinks(entries, after.value)
  {
    var after := WithoutBullet(entries, s, hash);
    var m := FindIndex(entries, s.bucket);
    if after.Some? {
      var bullets := entries[m].bullets;
      var p := RemovedPlace(entries, s, hash, m);
      PartOfWithout(bullets, p);
      hide PartOf;
      forall k | 0 <= k < |entries| ensures PartOf(after.value[k].bullets, entries[k].bullets) {
        PartOfSelf(entries[k].bullets);
      }
    }
  }

  lemma RemovedPlace(entries: seq<Entry>, s: Source, hash: string -> string, m: nat) returns (p: nat)
    requires m == FindIndex(entries, s.bucket) && WithoutBullet(entries, s, hash).Some?
    ensures m < |entries| && p < |entries[m].bullets|
    ensures WithoutBullet(entries, s, hash).value
            == entries[m := Entry(s.bucket, WithoutAt(entries[m].bullets, p))]
  {
    var bullets := entries[m].bullets;
    p := 0;
    while p < |bullets| && hash(bullets[p]) != s.hash
      invariant p <= |bullets| && forall q | 0 <= q < p :: hash(bullets[q]) != s.hash
    {
      p := p + 1;
    }
    FirstHashHere(bullets, s.hash, hash, p);
    if p == |bullets| { p := s.index; }
  }

  lemma {:induction false} FitFromShrinks(entries: seq<Entry>, sources: seq<Source>, hash: string -> string,
                                          score: nat -> real, answers: nat -> Compile, floor: nat,
                                          drops: seq<nat>, flagged: seq<Bucket>)
    ensures var f := FitFrom(entries, sources, hash, score, answers, floor, drops, flagged);
            f.removed.None? ==> Shrinks(entries, f.entries)
    decreases Rest(sources, drops)
  {
    hide Flag, WithoutBullet, NextDrop, IsNext, Eligible, Rest, FirstSeen, WithoutBucket, Removable, Shrinks, NeedsDrop;
    ShrinksSelf(entries);
    var live := Rest(sources, drops);
    NextIsEligible(entries, sources, hash, score, floor, live);
    var next := NextDrop(entries, sources, hash, score, floor, live);
    if NeedsDrop(answers(|drops|)) && next.Some? {
      var d := next.value;
      var now := Flag(flagged, FirstSeen(sources), sources, live, floor);
      RestShrinks(sources, drops, d);
      var after := WithoutBullet(entries, sources[d], hash).value;
      RemovalShrinks(entries, sources[d], hash);
      FitFromShrinks(after, sources, hash, score, answers, floor, drops + [d], now);
      var f := FitFrom(after, sources, hash, score, answers, floor, drops + [d], now);
      if f.removed.None? { ShrinksChain(entries, after, f.entries); }
    }
  }

  /** A fit that gives nothing up takes bullets away only, and none if the page fits from the start. */
  lemma FitShrinks(entries: seq<Entry>, sources: seq<Source>, hash: string -> string, score: nat -> real,
                   answers: nat -> Compile, floor: nat)
    ensures var f := Fit(entries, sources, hash, score, answers, floor);
            && (f.removed.None? ==> Shrinks(entries, f.entries))
            && (Settled(answers(0)) ==> f.removed.None? && f.entries == entries && f.last == answers(0))
  {
    hide Shrinks;
    FitFromShrinks(entries, sources, hash, score, answers, floor, [], []);
  }

  /** The resume with a summary is the one without it, less some bullets; both are the draft, less some. */
  lemma IterationShrinks(entries: seq<Entry>, hash: string -> string, trial: Trial)
    ensures var it := Iterate(entries, hash, trial);
            it.accepted.Some? ==>
              var out := it.accepted.value;
              && Shrinks(entries, out.noSummary.entries)
              && (out.withSummary.Some? ==> Shrinks(out.noSummary.entries, out.withSummary.value.entries))
  {
    hide Fit, Shrinks;
    var sources := Collect(entries, hash);
    FitShrinks(entries, sources, hash, trial.noSummary.score, trial.noSummary.answers, FLOOR);
    var first := Fit(entries, sources, hash, trial.noSummary.score, trial.noSummary.answers, FLOOR);
    if first.removed.None? {
      var present := Present(first.entries, sources, hash);
      FitShrinks(first.entries, present, hash, trial.withSummary.score, trial.withSummary.answers, FLOOR);
      var second := Fit(first.entries, present, hash, trial.withSummary.score, trial.withSummary.answers, FLOOR);
      if second.removed.None? {
        var again := Present(second.entries, present, hash);
        FitShrinks(second.entries, again, hash, trial.retry.score, trial.retry.answers, FLOOR);
        var third := Fit(second.entries, again, hash, trial.retry.score, trial.retry.answers, FLOOR);
        if third.removed.None? { ShrinksChain(first.entries, second.entries, third.entries); }
      }
    }
  }

  /** Each round goes on from the round before: what is given up or settled without a summary stays so, a
      summary's first round starts from there, and its retry starts from that round. A round whose first
      page fits changes nothing. */
  lemma RoundsFollow(entries: seq<Entry>, hash: string -> string, trial: Trial)
    ensures var it := Iterate(entries, hash, trial);
            var plain := Iterate(entries, hash, trial.(hasSummary := false));
            var once := Iterate(entries, hash, trial.(retries := false));
            && (Settled(trial.noSummary.answers(0)) ==>
                  plain == Iteration(Some(Accepted(Resume(entries, trial.noSummary.answers(0)), None)), None))
            && (plain.removed.Some? || !trial.hasSummary ==> it == plain)
            && (trial.hasSummary && plain.accepted.Some? ==>
                  && (it.accepted.Some? ==>
                        && it.accepted.value.noSummary == plain.accepted.value.noSummary
                        && it.accepted.value.withSummary.Some?)
                  && (Settled(trial.withSummary.answers(0)) ==>
                        once.accepted.Some?
                        && once.accepted.value.withSummary
                           == Some(Resume(plain.accepted.value.noSummary.entries, trial.withSummary.answers(0))))
                  && (once.removed.Some? || !trial.retries ==> it == once)
                  && (trial.retries && once.accepted.Some? && Settled(trial.retry.answers(0)) ==>
                        it.accepted.Some?
                        && it.accepted.value.withSummary
                           == Some(Resume(once.accepted.value.withSummary.value.entries, trial.retry.answers(0)))))
  {
    hide Fit, Shrinks, Settled;
    var sources := Collect(entries, hash);
    FitShrinks(entries, sources, hash, trial.noSummary.score, trial.noSummary.answers, FLOOR);
    var first := Fit(entries, sources, hash, trial.noSummary.score, trial.noSummary.answers, FLOOR);
    var present := Present(first.entries, sources, hash);
    FitShrinks(first.entries, present, hash, trial.withSummary.score, trial.withSummary.answers, FLOOR);
    var second := Fit(first.entries, present, hash, trial.withSummary.score, trial.withSummary.answers, FLOOR);
    FitShrinks(second.entries, Present(second.entries, present, hash), hash, trial.retry.score, trial.retry.answers,
               FLOOR);
  }
}

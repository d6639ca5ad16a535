/**
  What the assignment of keywords means in terms of the matches alone: which bullets a keyword may go to,
  which of them become candidates, and in which order.
 */
module RewriteOptions {
  import opened Sequences
  import opened StableSort
  import opened Wrappers

  import opened RewriteAssignment

  /** One of the match's candidates is this bullet, at or above the threshold. */
  predicate Offers(m: Match, b: nat, score: real, minScore: real) {
    Candidate(Some(b), score) in m.candidates && score >= minScore
  }

  /** The match supports the bullet: by a candidate, or by itself if it has no candidate good enough. */
  ghost predicate Supports(m: Match, b: nat, score: real, minScore: real) {
    && m.bullet.Some?
    && (Offers(m, b, score, minScore)
        || ((forall c: nat, s: real :: !Offers(m, c, s, minScore))
            && m.bullet == Some(b) && m.score == score && score >= minScore))
  }

  /** A way to place the keyword: some match of it supports the bullet. */
  ghost predicate CanPlace(matches: seq<Match>, minScore: real, strip: string -> string, keyword: string, b: nat,
                           score: real)
  {
    keyword != "" && exists m | m in matches :: strip(m.keyword) == keyword && Supports(m, b, score, minScore)
  }

  lemma {:induction false} AboveMeans(cands: seq<Candidate>, minScore: real, keyword: string, key: string)
    ensures forall c :: c in Above(cands, minScore, keyword, key) <==>
              c.score >= minScore && Candidate(Some(c.bullet), c.score) in cands
              && c == Choice(keyword, key, c.bullet, c.score, 0.0)
  {
    if cands != [] {
      AboveMeans(cands[1..], minScore, keyword, key);
      assert cands == [cands[0]] + cands[1..];
    }
  }

  lemma OptionsOfMeans(m: Match, minScore: real, strip: string -> string, lower: string -> string, c: Choice)
    ensures c in OptionsOf(m, minScore, strip, lower) <==>
              c.keyword == strip(m.keyword) != "" && Supports(m, c.bullet, c.score, minScore)
              && c == Choice(c.keyword, lower(c.keyword), c.bullet, c.score, 0.0)
  {
    var keyword := strip(m.keyword);
    var options := Above(m.candidates, minScore, keyword, lower(keyword));
    AboveMeans(m.candidates, minScore, keyword, lower(keyword));
    hide Above;
    forall b: nat, s: real
      ensures Offers(m, b, s, minScore) <==> Choice(keyword, lower(keyword), b, s, 0.0) in options
    {
    }
    if options != [] {
      assert options[0] in options;
      assert Offers(m, options[0].bullet, options[0].score, minScore);
    }
  }

  /** The options of a key are exactly the ways to place its keywords, each with no regret yet. */
  lemma {:induction false} AllOptionsMean(matches: seq<Match>, key: string, minScore: real,
                                          strip: string -> string, lower: string -> string, c: Choice)
    ensures c in AllOptions(matches, key, minScore, strip, lower) <==>
              lower(c.keyword) == key && CanPlace(matches, minScore, strip, c.keyword, c.bullet, c.score)
              && c == Choice(c.keyword, key, c.bullet, c.score, 0.0)
  {
    if matches != [] {
      var n := |matches| - 1;
      AllOptionsMean(matches[..n], key, minScore, strip, lower, c);
      OptionsOfMeans(matches[n], minScore, strip, lower, c);
      hide OptionsOf, Supports;
      assert matches == matches[..n] + [matches[n]];
    }
  }

  /** And they stand in the order of the matches. */
  lemma {:induction false} OptionsFollowMatches(a: seq<Match>, b: seq<Match>, key: string, minScore: real,
                                                strip: string -> string, lower: string -> string)
    ensures AllOptions(a + b, key, minScore, strip, lower)
            == AllOptions(a, key, minScore, strip, lower) + AllOptions(b, key, minScore, strip, lower)
  {
    if b == [] {
      assert a + b == a;
    } else {
      assert (a + b)[..|a + b| - 1] == a + b[..|b| - 1];
      OptionsFollowMatches(a, b[..|b| - 1], key, minScore, strip, lower);
    }
  }

  /** Within a match, in the order of its candidates. */
  lemma {:induction false} OptionsFollowCandidates(c: seq<Candidate>, d: seq<Candidate>, minScore: real,
                                                   keyword: string, key: string)
    ensures Above(c + d, minScore, keyword, key) == Above(c, minScore, keyword, key) + Above(d, minScore, keyword, key)
  {
    if c == [] {
      assert c + d == d;
    } else {
      assert (c + d)[1..] == c[1..] + d;
      OptionsFollowCandidates(c[1..], d, minScore, keyword, key);
    }
  }

  ghost predicate HasOption(matches: seq<Match>, key: string, minScore: real, strip: string -> string,
                            lower: string -> string)
  {
    exists keyword: string, b: nat, score: real ::
      lower(keyword) == key && CanPlace(matches, minScore, strip, keyword, b, score)
  }

  lemma HasOptionIffAny(matches: seq<Match>, key: string, minScore: real, strip: string -> string,
                        lower: string -> string)
    ensures HasOption(matches, key, minScore, strip, lower) <==>
              AllOptions(matches, key, minScore, strip, lower) != []
  {
    var options := AllOptions(matches, key, minScore, strip, lower);
    if HasOption(matches, key, minScore, strip, lower) {
      var keyword: string, b: nat, score: real :|
        lower(keyword) == key && CanPlace(matches, minScore, strip, keyword, b, score);
      AllOptionsMean(matches, key, minScore, strip, lower, Choice(keyword, key, b, score, 0.0));
    }
    if options != [] {
      AllOptionsMean(matches, key, minScore, strip, lower, options[0]);
    }
  }

  /** A key comes before another exactly if it has an option in some matches, from the first on, in which the
      other has none. */
  lemma {:induction false} KeysFollowMatches(matches: seq<Match>, minScore: real, strip: string -> string,
                                             lower: string -> string, i: nat, k: nat)
    requires i < k < |KeyOrder(matches, minScore, strip, lower)|
    ensures var keys := KeyOrder(matches, minScore, strip, lower);
            exists p | 0 <= p <= |matches| ::
              HasOption(matches[..p], keys[i], minScore, strip, lower)
              && !HasOption(matches[..p], keys[k], minScore, strip, lower)
  {
    var n := |matches| - 1;
    var before := KeyOrder(matches[..n], minScore, strip, lower);
    KeyOrderMembers(matches[..n], minScore, strip, lower);
    if k < |before| {
      KeysFollowMatches(matches[..n], minScore, strip, lower, i, k);
      var p :| 0 <= p <= |matches[..n]| && HasOption(matches[..n][..p], before[i], minScore, strip, lower)
               && !HasOption(matches[..n][..p], before[k], minScore, strip, lower);
      assert matches[..n][..p] == matches[..p];
    } else {
      assert before[i] in before;
      HasOptionIffAny(matches[..n], before[i], minScore, strip, lower);
    }
  }

  lemma {:induction false} KeyOrderMembers(matches: seq<Match>, minScore: real, strip: string -> string,
                                           lower: string -> string)
    ensures forall key :: key in KeyOrder(matches, minScore, strip, lower) <==>
              HasOption(matches, key, minScore, strip, lower)
  {
    hide HasOption;
    forall key { HasOptionIffAny(matches, key, minScore, strip, lower); }
    if matches != [] {
      var n := |matches| - 1;
      KeyOrderMembers(matches[..n], minScore, strip, lower);
      forall key { HasOptionIffAny(matches[..n], key, minScore, strip, lower); }
      hide OptionsOf;
    }
  }

  // ----- which options become candidates -----

  /** The best score any keyword with this key can be placed with. */
  ghost predicate BestScore(matches: seq<Match>, minScore: real, strip: string -> string, lower: string -> string,
                            key: string, best: real)
  {
    && (exists keyword: string, b: nat :: lower(keyword) == key && CanPlace(matches, minScore, strip, keyword, b, best))
    && forall keyword: string, b: nat, score: real |
         lower(keyword) == key && CanPlace(matches, minScore, strip, keyword, b, score) :: score <= best
  }

  lemma ShortlistMeans(ranking: seq<Choice>, i: nat)
    requires InOrder(ranking, ScoresLower) && i < |Shortlist(ranking)|
    ensures i < |ranking| && ranking[0].score >= ranking[i].score
    ensures Shortlist(ranking)[i] == ranking[i].(regret := ranking[0].score - ranking[i].score)
  {
    assert i == 0 || !ScoresLower(ranking[0], ranking[i]);
  }

  lemma {:induction false} PoolMembers(keys: seq<string>, rankings: map<string, seq<Choice>>, c: Choice)
    requires forall k | k in keys :: k in rankings
    ensures c in Pool(keys, rankings) <==> exists k | k in keys :: c in Shortlist(rankings[k])
  {
    if keys != [] {
      var n := |keys| - 1;
      hide Shortlist;
      PoolMembers(keys[..n], rankings, c);
      assert keys == keys[..n] + [keys[n]];
    }
  }

  /** The first of a ranking has the key's best score. */
  lemma RankingStartsWithBest(ranking: seq<Choice>, matches: seq<Match>, key: string, minScore: real,
                              strip: string -> string, lower: string -> string)
    requires ranking != [] && Sorts(ranking, AllOptions(matches, key, minScore, strip, lower), ScoresLower)
    ensures BestScore(matches, minScore, strip, lower, key, ranking[0].score)
  {
    hide SameTies, AllOptions, CanPlace;
    var options := AllOptions(matches, key, minScore, strip, lower);
    assert ranking[0] in multiset(ranking);
    AllOptionsMean(matches, key, minScore, strip, lower, ranking[0]);
    forall keyword: string, b: nat, score: real |
      lower(keyword) == key && CanPlace(matches, minScore, strip, keyword, b, score)
      ensures score <= ranking[0].score
    {
      var c := Choice(keyword, key, b, score, 0.0);
      AllOptionsMean(matches, key, minScore, strip, lower, c);
      assert c in multiset(options);
      var i :| 0 <= i < |ranking| && ranking[i] == c;
      assert i == 0 || !ScoresLower(ranking[0], ranking[i]);
    }
  }

  /** Every candidate is a way to place its keyword, and its regret is its distance from the key's best. */
  lemma CandidateMeans(cs: seq<Choice>, c: Choice, matches: seq<Match>, minScore: real, strip: string -> string,
                       lower: string -> string)
    requires CandidateList(cs, matches, minScore, strip, lower) && c in cs
    ensures c.key == lower(c.keyword) && CanPlace(matches, minScore, strip, c.keyword, c.bullet, c.score)
    ensures c.regret >= 0.0 && BestScore(matches, minScore, strip, lower, c.key, c.score + c.regret)
  {
    hide SameTies, AllOptions, CanPlace, BestScore, KeyOrder, Shortlist;
    var keys := KeyOrder(matches, minScore, strip, lower);
    var rankings: map<string, seq<Choice>> :|
      Ranked(keys, rankings, matches, minScore, strip, lower) && Sorts(cs, Pool(keys, rankings), MeritsLower);
    assert c in multiset(cs);
    PoolMembers(keys, rankings, c);
    var key :| key in keys && c in Shortlist(rankings[key]);
    var i: nat :| i < |Shortlist(rankings[key])| && Shortlist(rankings[key])[i] == c;
    ShortlistMeans(rankings[key], i);
    RankedMeans(rankings[key], i, c, matches, key, minScore, strip, lower);
  }

  lemma RankedMeans(ranking: seq<Choice>, i: nat, c: Choice, matches: seq<Match>, key: string, minScore: real,
                    strip: string -> string, lower: string -> string)
    requires Sorts(ranking, AllOptions(matches, key, minScore, strip, lower), ScoresLower)
    requires i < |ranking| && c == ranking[i].(regret := ranking[0].score - ranking[i].score)
    ensures c.key == lower(c.keyword) == key && CanPlace(matches, minScore, strip, c.keyword, c.bullet, c.score)
    ensures BestScore(matches, minScore, strip, lower, c.key, c.score + c.regret)
  {
    hide SameTies, AllOptions, CanPlace, BestScore;
    assert ranking[i] in multiset(ranking);
    AllOptionsMean(matches, key, minScore, strip, lower, ranking[i]);
    RankingStartsWithBest(ranking, matches, key, minScore, strip, lower);
  }

  // ----- how many -----

  /** The candidates with this key. */
  function WithKey(cs: seq<Choice>, key: string): seq<Choice> {
    if cs == [] then []
    else WithKey(cs[..|cs|-1], key) + if cs[|cs|-1].key == key then [cs[|cs|-1]] else []
  }

  lemma {:induction false} WithKeyConcat(a: seq<Choice>, b: seq<Choice>, key: string)
    ensures WithKey(a + b, key) == WithKey(a, key) + WithKey(b, key)
  {
    if b == [] {
      assert a + b == a;
    } else {
      assert (a + b)[..|a + b| - 1] == a + b[..|b| - 1];
      WithKeyConcat(a, b[..|b| - 1], key);
    }
  }

  lemma WithKeyWithout(cs: seq<Choice>, i: nat, key: string)
    requires i < |cs|
    ensures |WithKey(cs, key)| == |WithKey(WithoutAt(cs, i), key)| + if cs[i].key == key then 1 else 0
    ensures multiset(cs) == multiset(WithoutAt(cs, i)) + multiset{cs[i]}
  {
    var front, x, rest := cs[..i], [cs[i]], cs[i + 1..];
    assert cs == front + x + rest;
    WithKeyConcat(front + x, rest, key);
    WithKeyConcat(front, x, key);
    WithKeyConcat(front, rest, key);
    assert x[..0] == [];
  }

  lemma {:induction false} SameKeyCount(a: seq<Choice>, b: seq<Choice>, key: string)
    requires multiset(a) == multiset(b)
    ensures |WithKey(a, key)| == |WithKey(b, key)|
    decreases |a|
  {
    hide WithKey;
    assert |a| == |multiset(a)| == |multiset(b)| == |b|;
    if a != [] {
      assert a[0] in multiset(b);
      var i :| 0 <= i < |b| && b[i] == a[0];
      WithKeyWithout(a, 0, key);
      WithKeyWithout(b, i, key);
      SameRest(multiset(WithoutAt(a, 0)), multiset(WithoutAt(b, i)), a[0]);
      SameKeyCount(WithoutAt(a, 0), WithoutAt(b, i), key);
    } else {
      assert b == a;
    }
  }

  lemma SameRest(a: multiset<Choice>, b: multiset<Choice>, x: Choice)
    requires a + multiset{x} == b + multiset{x}
    ensures a == b
  {
    assert a == (a + multiset{x}) - multiset{x} && b == (b + multiset{x}) - multiset{x};
  }

  lemma {:induction false} WithKeyAll(cs: seq<Choice>, key: string)
    ensures (forall c | c in cs :: c.key == key) ==> WithKey(cs, key) == cs
    ensures (forall c | c in cs :: c.key != key) ==> WithKey(cs, key) == []
  {
    if cs != [] {
      var n := |cs| - 1;
      assert cs == cs[..n] + [cs[n]];
      WithKeyAll(cs[..n], key);
    }
  }

  /** In the pool, a key has its shortlist, and nothing if it is not among the keys. */
  lemma ShortlistHasKey(ranking: seq<Choice>, key: string)
    requires forall c | c in ranking :: c.key == key
    ensures forall c | c in Shortlist(ranking) :: c.key == key
  {
    forall c | c in Shortlist(ranking) ensures c.key == key {
      var i :| 0 <= i < |Shortlist(ranking)| && Shortlist(ranking)[i] == c;
      assert ranking[i] in ranking;
    }
  }

  lemma {:induction false} PoolOfKey(keys: seq<string>, rankings: map<string, seq<Choice>>, key: string)
    requires Distinct(keys) && forall k | k in keys :: k in rankings
    requires forall k | k in keys :: forall c | c in rankings[k] :: c.key == k
    ensures WithKey(Pool(keys, rankings), key) == if key in keys then Shortlist(rankings[key]) else []
  {
    hide Shortlist, WithKey;
    if keys != [] {
      var before, k := keys[..|keys|-1], keys[|keys|-1];
      LastOfDistinct(keys);
      PoolOfKey(before, rankings, key);
      ShortlistHasKey(rankings[k], k);
      WithKeyConcat(Pool(before, rankings), Shortlist(rankings[k]), key);
      WithKeyAll(Shortlist(rankings[k]), key);
    } else {
      assert WithKey([], key) == [] by { WithKeyAll([], key); }
    }
  }

  /** A key has at most four candidates; a way to place it is among them unless there are four that score
      at least as well. */
  lemma CandidatesSuffice(cs: seq<Choice>, keyword: string, b: nat, score: real, matches: seq<Match>,
                          minScore: real, strip: string -> string, lower: string -> string)
    requires CandidateList(cs, matches, minScore, strip, lower)
    requires CanPlace(matches, minScore, strip, keyword, b, score)
    ensures var own := WithKey(cs, lower(keyword));
            && |own| <= 4
            && ((exists c | c in cs :: c.keyword == keyword && c.bullet == b && c.score == score)
                || (|own| == 4 && forall c | c in cs && c.key == lower(keyword) :: c.score >= score))
  {
    hide SameTies, AllOptions, CanPlace, KeyOrder, Shortlist, WithKey;
    var keys, key := KeyOrder(matches, minScore, strip, lower), lower(keyword);
    var rankings: map<string, seq<Choice>> :|
      Ranked(keys, rankings, matches, minScore, strip, lower) && Sorts(cs, Pool(keys, rankings), MeritsLower);
    KeyHasRanking(keys, rankings, keyword, b, score, matches, minScore, strip, lower);
    PoolOfKey(keys, rankings, key);
    SameKeyCount(cs, Pool(keys, rankings), key);
    var ranking := rankings[key];
    ShortlistLength(ranking);
    var i :| 0 <= i < |ranking| && ranking[i] == Choice(keyword, key, b, score, 0.0);
    if i < |Shortlist(ranking)| {
      ShortlistMeans(ranking, i);
      PoolMembers(keys, rankings, Shortlist(ranking)[i]);
      assert Shortlist(ranking)[i] in multiset(Pool(keys, rankings));
    } else {
      forall d | d in cs && d.key == key ensures d.score >= score {
        assert d in multiset(Pool(keys, rankings));
        ShortlistedScoresMore(keys, rankings, key, d, i);
      }
    }
  }

  lemma ShortlistedScoresMore(keys: seq<string>, rankings: map<string, seq<Choice>>, key: string, d: Choice, i: nat)
    requires forall k | k in keys :: k in rankings && InOrder(rankings[k], ScoresLower)
    requires forall k | k in keys :: forall c | c in rankings[k] :: c.key == k
    requires d in Pool(keys, rankings) && d.key == key && key in keys
    requires |Shortlist(rankings[key])| <= i < |rankings[key]|
    ensures d.score >= rankings[key][i].score
  {
    hide Shortlist, Pool;
    PoolMembers(keys, rankings, d);
    var k :| k in keys && d in Shortlist(rankings[k]);
    var m: nat :| m < |Shortlist(rankings[k])| && Shortlist(rankings[k])[m] == d;
    ShortlistMeans(rankings[k], m);
    assert rankings[k][m] in rankings[k];
    assert !ScoresLower(rankings[key][m], rankings[key][i]);
  }

  lemma ShortlistLength(ranking: seq<Choice>)
    ensures |Shortlist(ranking)| == if |ranking| < 4 then |ranking| else 4
  {
  }

  lemma KeyHasRanking(keys: seq<string>, rankings: map<string, seq<Choice>>, keyword: string, b: nat, score: real,
                      matches: seq<Match>, minScore: real, strip: string -> string, lower: string -> string)
    requires keys == KeyOrder(matches, minScore, strip, lower)
    requires Ranked(keys, rankings, matches, minScore, strip, lower)
    requires CanPlace(matches, minScore, strip, keyword, b, score)
    ensures Distinct(keys) && lower(keyword) in keys
    ensures Choice(keyword, lower(keyword), b, score, 0.0) in rankings[lower(keyword)]
    ensures forall k | k in keys :: forall c | c in rankings[k] :: c.key == k
  {
    hide SameTies, AllOptions, CanPlace, KeyOrder, InOrder;
    var key := lower(keyword);
    KeyOrderMembers(matches, minScore, strip, lower);
    KeysDiffer(matches, minScore, strip, lower);
    assert HasOption(matches, key, minScore, strip, lower);
    var c := Choice(keyword, key, b, score, 0.0);
    AllOptionsMean(matches, key, minScore, strip, lower, c);
    assert c in multiset(AllOptions(matches, key, minScore, strip, lower));
    forall k, d | k in keys && d in rankings[k] ensures d.key == k {
      assert d in multiset(rankings[k]);
      AllOptionsMean(matches, k, minScore, strip, lower, d);
    }
  }

  lemma {:induction false} KeysDiffer(matches: seq<Match>, minScore: real, strip: string -> string,
                                      lower: string -> string)
    ensures Distinct(KeyOrder(matches, minScore, strip, lower))
  {
    if matches != [] {
      hide OptionsOf;
      KeysDiffer(matches[..|matches|-1], minScore, strip, lower);
    }
  }

  // ----- what is assigned -----

  /** The elements of the set in ascending order. */
  ghost predicate Ascends(places: seq<nat>, chosen: set<nat>) {
    (forall i, k | 0 <= i < k < |places| :: places[i] < places[k]) && forall p :: p in places <==> p in chosen
  }

  lemma AscendsMore(places: seq<nat>, chosen: set<nat>, n: nat)
    requires Ascends(places, chosen) && forall p | p in chosen :: p < n
    ensures Ascends(places + [n], chosen + {n})
  {
    forall i, k | 0 <= i < k < |places + [n]| ensures (places + [n])[i] < (places + [n])[k] {
      assert places[i] in places;
    }
  }

  ghost predicate KeywordsAt(keywords: seq<string>, cs: seq<Choice>, places: seq<nat>) {
    |keywords| == |places|
    && forall i | 0 <= i < |places| :: places[i] < |cs| && keywords[i] == cs[places[i]].keyword
  }

  lemma KeywordsAtMore(keywords: seq<string>, cs: seq<Choice>, places: seq<nat>)
    requires cs != [] && KeywordsAt(keywords, cs[..|cs|-1], places)
    ensures var n := |cs| - 1;
            KeywordsAt(keywords, cs, places) && KeywordsAt(keywords + [cs[n].keyword], cs, places + [n])
  {
  }

  /** A bullet's keywords are those of the candidates picked for it, each once, in the order of the list. */
  lemma {:induction false} KeywordsArePicks(cs: seq<Choice>, cap: nat, b: nat) returns (places: seq<nat>)
    ensures Ascends(places, OnBullet(cs, Picks(cs, cap), b)) && KeywordsAt(KeywordsOn(cs, cap, b), cs, places)
  {
    places := [];
    if cs != [] {
      hide Picks, OnBullet, Ascends, KeywordsAt;
      var n := |cs| - 1;
      places := KeywordsArePicks(cs[..n], cap, b);
      OnBulletStep(cs, cap, b);
      KeywordsAtMore(KeywordsOn(cs[..n], cap, b), cs, places);
      assert KeywordsOn(cs[..n], cap, b) + [] == KeywordsOn(cs[..n], cap, b);
      if n in Picks(cs, cap) && cs[n].bullet == b {
        AscendsMore(places, OnBullet(cs[..n], Picks(cs[..n], cap), b), n);
        places := places + [n];
      }
    }
  }

  lemma OnBulletStep(cs: seq<Choice>, cap: nat, b: nat)
    requires cs != []
    ensures var n := |cs| - 1;
            var earlier := OnBullet(cs[..n], Picks(cs[..n], cap), b);
            && (forall p | p in earlier :: p < n)
            && OnBullet(cs, Picks(cs, cap), b)
               == if n in Picks(cs, cap) && cs[n].bullet == b then earlier + {n} else earlier
  {
    var n := |cs| - 1;
    PicksInRange(cs[..n], cap);
    assert OnBullet(cs, Picks(cs[..n], cap), b) == OnBullet(cs[..n], Picks(cs[..n], cap), b);
  }

  /** A keyword is assigned to a bullet only if some match of it supports that bullet. */
  lemma AssignmentMeans(selected: map<nat, seq<string>>, cs: seq<Choice>, cap: nat, matches: seq<Match>,
                        minScore: real, strip: string -> string, lower: string -> string)
    requires CandidateList(cs, matches, minScore, strip, lower) && AsPicked(selected, cs, cap)
    ensures forall b, keyword | b in selected && keyword in selected[b] ::
              exists score: real :: CanPlace(matches, minScore, strip, keyword, b, score)
  {
    hide CandidateList, CanPlace, KeywordsOn;
    forall b, keyword | b in selected && keyword in selected[b]
      ensures exists score: real :: CanPlace(matches, minScore, strip, keyword, b, score)
    {
      var places := KeywordsArePicks(cs, cap, b);
      var i :| 0 <= i < |selected[b]| && selected[b][i] == keyword;
      assert places[i] in places;
      CandidateMeans(cs, cs[places[i]], matches, minScore, strip, lower);
    }
  }

  /** Candidates come by score less regret, then by score, and nothing else outranks them. */
  lemma CandidatesAreOrdered(cs: seq<Choice>, matches: seq<Match>, minScore: real, strip: string -> string,
                             lower: string -> string, i: nat, k: nat)
    requires CandidateList(cs, matches, minScore, strip, lower) && i < k < |cs|
    ensures cs[i].score - cs[i].regret >= cs[k].score - cs[k].regret
    ensures cs[i].score - cs[i].regret == cs[k].score - cs[k].regret ==> cs[i].score >= cs[k].score
  {
    CandidateListIsUnique(cs, cs, matches, minScore, strip, lower);
    hide CandidateList;
    assert Sorted(cs);
  }
}

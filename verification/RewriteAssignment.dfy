/**
  Assigning keywords to bullets for rewriting: the candidate list, the greedy pass over it, and why
  the greedy assignment is stable and at most a factor two from any other.
 */
module RewriteAssignment {
  import opened Sequences
  import opened StableSort
  import opened Wrappers

  datatype Candidate = Candidate(bullet: Option<nat>, score: real)
  datatype Match = Match(keyword: string, bullet: Option<nat>, score: real, candidates: seq<Candidate>)

  /** A keyword that could go to a bullet. `key` is the lower-cased keyword. */
  datatype Choice = Choice(keyword: string, key: string, bullet: nat, score: real, regret: real)

  /** The sort key: score minus regret, then score. */
  predicate AtLeastAsGood(a: Choice, b: Choice) {
    a.score - a.regret > b.score - b.regret
    || (a.score - a.regret == b.score - b.regret && a.score >= b.score)
  }

  // ----- the greedy pass, by position in the candidate list -----

  function OnBullet(cs: seq<Choice>, picks: set<nat>, b: nat): set<nat> {
    set i | i in picks && i < |cs| && cs[i].bullet == b
  }

  predicate KeyTaken(cs: seq<Choice>, picks: set<nat>, key: string) {
    exists i | i in picks :: i < |cs| && cs[i].key == key
  }

  /** The positions picked: each candidate whose key is free and whose bullet has room. */
  function Picks(cs: seq<Choice>, cap: nat): set<nat> {
    if cs == [] then {}
    else
      var n := |cs| - 1;
      var earlier := Picks(cs[..n], cap);
      if KeyTaken(cs[..n], earlier, cs[n].key) || |OnBullet(cs[..n], earlier, cs[n].bullet)| >= cap
      then earlier else earlier + {n}
  }

  /** Distinct keys, and no bullet over its cap. */
  ghost predicate Feasible(cs: seq<Choice>, picks: set<nat>, cap: nat) {
    && (forall i | i in picks :: i < |cs|)
    && (forall i, k | i in picks && k in picks && cs[i].key == cs[k].key :: i == k)
    && forall b: nat :: |OnBullet(cs, picks, b)| <= cap
  }

  lemma {:induction false} PicksAreFeasible(cs: seq<Choice>, cap: nat)
    ensures Feasible(cs, Picks(cs, cap), cap)
  {
    if cs != [] {
      var n := |cs| - 1;
      var earlier := Picks(cs[..n], cap);
      PicksAreFeasible(cs[..n], cap);
      forall b: nat ensures |OnBullet(cs, Picks(cs, cap), b)| <= cap {
        assert OnBullet(cs, earlier, b) == OnBullet(cs[..n], earlier, b);
        if n in Picks(cs, cap) && cs[n].bullet == b {
          assert OnBullet(cs, Picks(cs, cap), b) == OnBullet(cs, earlier, b) + {n};
        } else {
          assert OnBullet(cs, Picks(cs, cap), b) == OnBullet(cs, earlier, b);
        }
      }
    }
  }

  /** Picks that precede a position. */
  function EarlierPicks(cs: seq<Choice>, cap: nat, i: nat): set<nat> {
    set k | k in Picks(cs, cap) && k < i
  }

  lemma {:induction false} PicksOfPrefix(cs: seq<Choice>, cap: nat, i: nat)
    requires i <= |cs|
    ensures Picks(cs[..i], cap) == EarlierPicks(cs, cap, i)
    decreases |cs| - i
  {
    PicksInRange(cs, cap);
    if i == |cs| {
      assert cs[..i] == cs;
    } else {
      PicksOfPrefix(cs, cap, i + 1);
      assert cs[..i + 1][..i] == cs[..i];
      PicksInRange(cs[..i], cap);
    }
  }

  lemma {:induction false} PicksInRange(cs: seq<Choice>, cap: nat)
    ensures forall i | i in Picks(cs, cap) :: i < |cs|
  {
    if cs != [] { PicksInRange(cs[..|cs|-1], cap); }
  }

  ghost predicate Sorted(cs: seq<Choice>) {
    forall i, k | 0 <= i < k < |cs| :: AtLeastAsGood(cs[i], cs[k])
  }

  /** Blocked by a choice for the same keyword, or by a bullet full of choices, all at least as good. */
  ghost predicate Blocked(cs: seq<Choice>, picks: set<nat>, cap: nat, i: nat)
    requires i < |cs|
  {
    || (exists k | k in picks :: k < |cs| && cs[k].key == cs[i].key && AtLeastAsGood(cs[k], cs[i]))
    || (exists full: set<nat> | full <= OnBullet(cs, picks, cs[i].bullet) && |full| >= cap ::
          forall k | k in full :: AtLeastAsGood(cs[k], cs[i]))
  }

  /** Stability: a candidate that is not picked is blocked by choices at least as good. */
  lemma {:induction false} UnpickedAreBlocked(cs: seq<Choice>, cap: nat, i: nat)
    requires Sorted(cs) && i < |cs| && i !in Picks(cs, cap)
    ensures Blocked(cs, Picks(cs, cap), cap, i)
  {
    PicksOfPrefix(cs, cap, i);
    PicksOfPrefix(cs, cap, i + 1);
    assert cs[..i + 1][..i] == cs[..i];
    var earlier := Picks(cs[..i], cap);
    if KeyTaken(cs[..i], earlier, cs[i].key) {
      var k :| k in earlier && k < i && cs[..i][k].key == cs[i].key;
      assert k in Picks(cs, cap) && AtLeastAsGood(cs[k], cs[i]);
    } else {
      var full := OnBullet(cs[..i], earlier, cs[i].bullet);
      assert |full| >= cap && full <= OnBullet(cs, Picks(cs, cap), cs[i].bullet);
      forall k | k in full ensures AtLeastAsGood(cs[k], cs[i]) { assert k < i; }
    }
  }

  // ----- at most a factor two from any feasible assignment -----

  lemma {:induction false} SharedKeysCount(cs: seq<Choice>, f: set<nat>, p: set<nat>, cap: nat)
    requires Feasible(cs, p, cap)
    requires forall i | i in f :: i < |cs| && KeyTaken(cs, p, cs[i].key)
    requires forall i, k | i in f && k in f && cs[i].key == cs[k].key :: i == k
    ensures |f| <= |p|
    decreases f
  {
    if f != {} {
      var i :| i in f;
      var k :| k in p && k < |cs| && cs[k].key == cs[i].key;
      var p' := p - {k};
      forall b: nat ensures |OnBullet(cs, p', b)| <= cap {
        SubsetSize(OnBullet(cs, p', b), OnBullet(cs, p, b));
      }
      forall j | j in f - {i} ensures KeyTaken(cs, p', cs[j].key) {
        var m :| m in p && m < |cs| && cs[m].key == cs[j].key;
        assert m in p';
      }
      SharedKeysCount(cs, f - {i}, p', cap);
    }
  }

  lemma SetAside(cs: seq<Choice>, f: set<nat>, b: nat)
    requires forall i | i in f :: i < |cs|
    ensures var f' := f - OnBullet(cs, f, b);
            && |f| == |f'| + |OnBullet(cs, f, b)|
            && OnBullet(cs, f', b) == {}
            && (forall i | i in f :: i in f' <==> cs[i].bullet != b)
            && forall c: nat | c != b :: OnBullet(cs, f', c) == OnBullet(cs, f, c)
  {
    var f' := f - OnBullet(cs, f, b);
    assert f == f' + OnBullet(cs, f, b);
  }

  lemma {:induction false} FullBulletsCount(cs: seq<Choice>, f: set<nat>, p: set<nat>, cap: nat)
    requires forall i | i in f :: i < |cs| && |OnBullet(cs, p, cs[i].bullet)| >= cap
    requires forall i | i in p :: i < |cs|
    requires forall b: nat :: |OnBullet(cs, f, b)| <= cap
    ensures |f| <= |p|
    decreases f
  {
    if f != {} {
      var i :| i in f;
      var b := cs[i].bullet;
      assert i in OnBullet(cs, f, b);
      SetAside(cs, f, b);
      SetAside(cs, p, b);
      hide OnBullet;
      FullBulletsCount(cs, f - OnBullet(cs, f, b), p - OnBullet(cs, p, b), cap);
    }
  }

  lemma UnpickedReason(cs: seq<Choice>, cap: nat, i: nat)
    requires i < |cs| && i !in Picks(cs, cap)
    ensures KeyTaken(cs, Picks(cs, cap), cs[i].key)
            || |OnBullet(cs, Picks(cs, cap), cs[i].bullet)| >= cap
  {
    PicksOfPrefix(cs, cap, i);
    PicksOfPrefix(cs, cap, i + 1);
    assert cs[..i + 1][..i] == cs[..i];
    var earlier := Picks(cs[..i], cap);
    if KeyTaken(cs[..i], earlier, cs[i].key) {
      var k :| k in earlier && k < i && cs[..i][k].key == cs[i].key;
      assert cs[k].key == cs[i].key;
    } else {
      SubsetSize(OnBullet(cs[..i], earlier, cs[i].bullet), OnBullet(cs, Picks(cs, cap), cs[i].bullet));
    }
  }

  /** Any feasible assignment over the same candidates has at most twice as many keywords. */
  lemma GreedyIsHalfOptimal(cs: seq<Choice>, cap: nat, other: set<nat>)
    requires Feasible(cs, other, cap)
    ensures |other| <= 2 * |Picks(cs, cap)|
  {
    hide Picks;
    var p := Picks(cs, cap);
    PicksAreFeasible(cs, cap);
    var shared := set i | i in other && KeyTaken(cs, p, cs[i].key);
    var rest := other - shared;
    SharedKeysCount(cs, shared, p, cap);
    forall i | i in rest ensures |OnBullet(cs, p, cs[i].bullet)| >= cap {
      UnpickedReason(cs, cap, i);
    }
    forall b: nat ensures |OnBullet(cs, rest, b)| <= cap {
      SubsetSize(OnBullet(cs, rest, b), OnBullet(cs, other, b));
    }
    FullBulletsCount(cs, rest, p, cap);
    assert other == shared + rest;
  }

  /** The factor is reached: one keyword with two homes, the better of which another one needs. */
  lemma HalfIsReached(x: string, y: string)
    requires x != y
    ensures exists cs: seq<Choice>, other: set<nat> ::
              Sorted(cs) && Feasible(cs, other, 1) && |other| == 2 && |Picks(cs, 1)| == 1
  {
    var cs := Contested(x, y);
    OnlyTheFirst(x, y);
    BothOthersFit(x, y);
    assert Sorted(cs);
  }

  function Contested(x: string, y: string): seq<Choice> {
    [Choice(x, x, 0, 0.9, 0.0), Choice(x, x, 1, 0.85, 0.05), Choice(y, y, 0, 0.8, 0.0)]
  }

  lemma OnlyTheFirst(x: string, y: string)
    ensures Picks(Contested(x, y), 1) == {0}
  {
    var cs := Contested(x, y);
    assert cs[..2][..1] == cs[..1] && cs[..1][..0] == [];
    assert Picks(cs[..1], 1) == {0} by { assert OnBullet([], {}, 0) == {}; }
    assert Picks(cs[..2], 1) == {0} by { assert KeyTaken(cs[..1], {0}, x); }
    assert OnBullet(cs[..2], {0}, 0) == {0};
  }

  lemma BothOthersFit(x: string, y: string)
    requires x != y
    ensures Feasible(Contested(x, y), {1, 2}, 1)
  {
    var cs := Contested(x, y);
    forall b: nat ensures |OnBullet(cs, {1, 2}, b)| <= 1 {
      assert OnBullet(cs, {1, 2}, b) == if b == 0 then {2} else if b == 1 then {1} else {};
    }
  }

  // ----- building the candidate list -----

  /** The options of one match: its candidates above the threshold, else its own bullet. */
  function OptionsOf(m: Match, minScore: real, strip: string -> string, lower: string -> string): seq<Choice> {
    var keyword := strip(m.keyword);
    if keyword == "" || m.bullet.None? then []
    else
      var options := Above(m.candidates, minScore, keyword, lower(keyword));
      if options == [] && m.score >= minScore
      then [Choice(keyword, lower(keyword), m.bullet.value, m.score, 0.0)]
      else options
  }

  function Above(cands: seq<Candidate>, minScore: real, keyword: string, key: string): seq<Choice> {
    if cands == [] then []
    else
      var rest := Above(cands[1..], minScore, keyword, key);
      if cands[0].bullet.Some? && cands[0].score >= minScore
      then [Choice(keyword, key, cands[0].bullet.value, cands[0].score, 0.0)] + rest else rest
  }

  /** All options of a key over all matches, in order. */
  function AllOptions(matches: seq<Match>, key: string, minScore: real, strip: string -> string,
                      lower: string -> string): seq<Choice>
  {
    if matches == [] then []
    else
      var n := |matches| - 1;
      var earlier := AllOptions(matches[..n], key, minScore, strip, lower);
      if lower(strip(matches[n].keyword)) == key
      then earlier + OptionsOf(matches[n], minScore, strip, lower) else earlier
  }

  /** The keys with options, in the order of their first match that has any. */
  function KeyOrder(matches: seq<Match>, minScore: real, strip: string -> string,
                    lower: string -> string): seq<string>
  {
    if matches == [] then []
    else
      var n := |matches| - 1;
      var before := KeyOrder(matches[..n], minScore, strip, lower);
      var key := lower(strip(matches[n].keyword));
      if OptionsOf(matches[n], minScore, strip, lower) == [] || key in before then before else before + [key]
  }

  predicate ScoresLower(a: Choice, b: Choice) { a.score < b.score }

  predicate MeritsLower(a: Choice, b: Choice) { !AtLeastAsGood(a, b) }

  /** The best four of a ranking, each with its regret against the first. */
  function Shortlist(ranking: seq<Choice>): seq<Choice> {
    seq(if |ranking| < 4 then |ranking| else 4, i requires 0 <= i < |ranking| =>
      ranking[i].(regret := if ranking[0].score >= ranking[i].score
                            then ranking[0].score - ranking[i].score else 0.0))
  }

  function Pool(keys: seq<string>, rankings: map<string, seq<Choice>>): seq<Choice>
    requires forall k | k in keys :: k in rankings
  {
    if keys == [] then []
    else Pool(keys[..|keys|-1], rankings) + Shortlist(rankings[keys[|keys|-1]])
  }

  /** Each key with options, once, and its options over all matches in order. */
  ghost predicate Grouped(keys: seq<string>, byKeyword: map<string, seq<Choice>>, matches: seq<Match>,
                          minScore: real, strip: string -> string, lower: string -> string)
  {
    && keys == KeyOrder(matches, minScore, strip, lower) && Distinct(keys)
    && (forall k :: k in keys <==> k in byKeyword)
    && (forall k :: k in byKeyword <==> AllOptions(matches, k, minScore, strip, lower) != [])
    && forall k | k in byKeyword :: byKeyword[k] == AllOptions(matches, k, minScore, strip, lower)
  }

  lemma OptionsMore(matches: seq<Match>, m: Match, k: string, minScore: real, strip: string -> string,
                    lower: string -> string)
    ensures var before := AllOptions(matches, k, minScore, strip, lower);
            AllOptions(matches + [m], k, minScore, strip, lower)
            == if lower(strip(m.keyword)) == k then before + OptionsOf(m, minScore, strip, lower) else before
  {
    assert (matches + [m])[..|matches|] == matches;
  }

  lemma GroupedSame(keys: seq<string>, byKeyword: map<string, seq<Choice>>, matches: seq<Match>, m: Match,
                    minScore: real, strip: string -> string, lower: string -> string)
    requires Grouped(keys, byKeyword, matches, minScore, strip, lower)
    requires OptionsOf(m, minScore, strip, lower) == []
    ensures Grouped(keys, byKeyword, matches + [m], minScore, strip, lower)
  {
    hide AllOptions, OptionsOf;
    forall k
      ensures AllOptions(matches + [m], k, minScore, strip, lower) == AllOptions(matches, k, minScore, strip, lower)
    {
      OptionsMore(matches, m, k, minScore, strip, lower);
    }
  }

  lemma GroupedMore(keys: seq<string>, byKeyword: map<string, seq<Choice>>, matches: seq<Match>, m: Match,
                    minScore: real, strip: string -> string, lower: string -> string)
    requires Grouped(keys, byKeyword, matches, minScore, strip, lower)
    requires OptionsOf(m, minScore, strip, lower) != []
    ensures var key := lower(strip(m.keyword));
            Grouped(if key in byKeyword then keys else keys + [key],
                    byKeyword[key := (if key in byKeyword then byKeyword[key] else [])
                                     + OptionsOf(m, minScore, strip, lower)],
                    matches + [m], minScore, strip, lower)
  {
    hide AllOptions, OptionsOf;
    var key := lower(strip(m.keyword));
    forall k
      ensures AllOptions(matches + [m], k, minScore, strip, lower)
              == if key == k then AllOptions(matches, k, minScore, strip, lower) + OptionsOf(m, minScore, strip, lower)
                 else AllOptions(matches, k, minScore, strip, lower)
    {
      OptionsMore(matches, m, k, minScore, strip, lower);
    }
    if key !in byKeyword { DistinctConcat(keys, [key]); }
  }

  method GroupByKeyword(matches: seq<Match>, minScore: real, strip: string -> string,
                        lower: string -> string)
    returns (keys: seq<string>, byKeyword: map<string, seq<Choice>>)
    ensures Grouped(keys, byKeyword, matches, minScore, strip, lower)
  {
    hide Grouped, OptionsOf;
    keys, byKeyword := [], map[];
    NothingGrouped(minScore, strip, lower);
    for n := 0 to |matches|
      invariant Grouped(keys, byKeyword, matches[..n], minScore, strip, lower)
    {
      assert matches[..n + 1] == matches[..n] + [matches[n]];
      var options := OptionsOf(matches[n], minScore, strip, lower);
      if options == [] {
        GroupedSame(keys, byKeyword, matches[..n], matches[n], minScore, strip, lower);
      } else {
        GroupedMore(keys, byKeyword, matches[..n], matches[n], minScore, strip, lower);
        var key := lower(strip(matches[n].keyword));
        if key !in byKeyword { keys := keys + [key]; }
        byKeyword := byKeyword[key := (if key in byKeyword then byKeyword[key] else []) + options];
      }
    }
    assert matches[..|matches|] == matches;
  }

  lemma NothingGrouped(minScore: real, strip: string -> string, lower: string -> string)
    ensures Grouped([], map[], [], minScore, strip, lower)
  {
  }

  /** The options of each key, best first, and in the order of the matches among equal scores. */
  ghost predicate Ranked(keys: seq<string>, rankings: map<string, seq<Choice>>, matches: seq<Match>,
                         minScore: real, strip: string -> string, lower: string -> string)
  {
    forall k | k in keys ::
      k in rankings && Sorts(rankings[k], AllOptions(matches, k, minScore, strip, lower), ScoresLower)
  }

  /** The shortlists of every key in turn, sorted by merit, and in turn among equals. */
  ghost predicate CandidateList(cs: seq<Choice>, matches: seq<Match>, minScore: real,
                                strip: string -> string, lower: string -> string)
  {
    var keys := KeyOrder(matches, minScore, strip, lower);
    exists rankings: map<string, seq<Choice>> ::
      Ranked(keys, rankings, matches, minScore, strip, lower) && Sorts(cs, Pool(keys, rankings), MeritsLower)
  }

  lemma Orders()
    ensures WeakOrder(ScoresLower) && WeakOrder(MeritsLower)
  {
  }

  method BuildCandidates(matches: seq<Match>, minScore: real, strip: string -> string,
                         lower: string -> string)
    returns (cs: seq<Choice>)
    ensures CandidateList(cs, matches, minScore, strip, lower)
  {
    hide Sorts, WeakOrder, AllOptions, KeyOrder, Distinct;
    Orders();
    var order, byKeyword := GroupByKeyword(matches, minScore, strip, lower);
    ghost var rankings: map<string, seq<Choice>> := map[];
    var pool := [];
    for n := 0 to |order|
      invariant Ranked(order[..n], rankings, matches, minScore, strip, lower)
      invariant pool == Pool(order[..n], rankings)
    {
      var ranked := Sort(byKeyword[order[n]], ScoresLower);
      ghost var before := rankings;
      rankings := rankings[order[n] := ranked];
      assert order[..n + 1][..n] == order[..n];
      assert order[n] !in order[..n] by { KeyIsNew(order, n); }
      PoolIgnoresOthers(order[..n], before, rankings);
      pool := pool + Shortlist(ranked);
    }
    assert order[..|order|] == order;
    cs := Sort(pool, MeritsLower);
  }

  lemma KeyIsNew(keys: seq<string>, n: nat)
    requires Distinct(keys) && n < |keys|
    ensures keys[n] !in keys[..n]
  {
  }

  /** The candidate list is determined by the matches, the threshold and the string functions. */
  lemma CandidateListIsUnique(a: seq<Choice>, b: seq<Choice>, matches: seq<Match>, minScore: real,
                              strip: string -> string, lower: string -> string)
    requires CandidateList(a, matches, minScore, strip, lower) && CandidateList(b, matches, minScore, strip, lower)
    ensures a == b && Sorted(a)
  {
    hide KeyOrder, AllOptions, WeakOrder;
    var keys := KeyOrder(matches, minScore, strip, lower);
    var r: map<string, seq<Choice>> :|
      Ranked(keys, r, matches, minScore, strip, lower) && Sorts(a, Pool(keys, r), MeritsLower);
    var q: map<string, seq<Choice>> :|
      Ranked(keys, q, matches, minScore, strip, lower) && Sorts(b, Pool(keys, q), MeritsLower);
    Orders();
    forall k | k in keys ensures r[k] == q[k] {
      SortsAgree(r[k], q[k], AllOptions(matches, k, minScore, strip, lower), ScoresLower);
    }
    PoolIgnoresOthers(keys, r, q);
    SortsAgree(a, b, Pool(keys, r), MeritsLower);
  }

  lemma {:induction false} PoolIgnoresOthers(keys: seq<string>, a: map<string, seq<Choice>>,
                                             b: map<string, seq<Choice>>)
    requires forall k | k in keys :: k in a && k in b && a[k] == b[k]
    ensures Pool(keys, a) == Pool(keys, b)
  {
    if keys != [] { PoolIgnoresOthers(keys[..|keys|-1], a, b); }
  }

  // ----- the selection -----

  /** The keywords given to a bullet, in the order they were picked. */
  function KeywordsOn(cs: seq<Choice>, cap: nat, b: nat): seq<string> {
    if cs == [] then []
    else
      var n := |cs| - 1;
      KeywordsOn(cs[..n], cap, b)
      + if n in Picks(cs, cap) && cs[n].bullet == b then [cs[n].keyword] else []
  }

  lemma {:induction false} KeywordsCount(cs: seq<Choice>, cap: nat, b: nat)
    ensures |KeywordsOn(cs, cap, b)| == |OnBullet(cs, Picks(cs, cap), b)|
  {
    if cs != [] {
      var n := |cs| - 1;
      KeywordsCount(cs[..n], cap, b);
      var earlier := Picks(cs[..n], cap);
      PicksInRange(cs[..n], cap);
      assert OnBullet(cs, earlier, b) == OnBullet(cs[..n], earlier, b);
      if n in Picks(cs, cap) && cs[n].bullet == b {
        assert OnBullet(cs, Picks(cs, cap), b) == OnBullet(cs, earlier, b) + {n};
      } else {
        assert OnBullet(cs, Picks(cs, cap), b) == OnBullet(cs, earlier, b);
      }
    }
  }

  /** What the pass has recorded after looking at some of the candidates. */
  ghost predicate Recorded(selected: map<nat, seq<string>>, taken: set<string>, cs: seq<Choice>, cap: nat) {
    && (forall b: nat :: b in selected <==> KeywordsOn(cs, cap, b) != [])
    && (forall b: nat | b in selected :: selected[b] == KeywordsOn(cs, cap, b))
    && forall key :: key in taken <==> KeyTaken(cs, Picks(cs, cap), key)
  }

  lemma KeywordsStep(cs: seq<Choice>, cap: nat, n: nat, b: nat)
    requires n < |cs|
    ensures KeywordsOn(cs[..n + 1], cap, b) == KeywordsOn(cs[..n], cap, b)
            + if n in Picks(cs[..n + 1], cap) && cs[n].bullet == b then [cs[n].keyword] else []
  {
    assert cs[..n + 1][..n] == cs[..n];
  }

  lemma PicksStep(cs: seq<Choice>, cap: nat, n: nat)
    requires n < |cs|
    ensures n in Picks(cs[..n + 1], cap) <==>
              !KeyTaken(cs[..n], Picks(cs[..n], cap), cs[n].key)
              && |KeywordsOn(cs[..n], cap, cs[n].bullet)| < cap
  {
    assert cs[..n + 1][..n] == cs[..n];
    PicksInRange(cs[..n], cap);
    KeywordsCount(cs[..n], cap, cs[n].bullet);
  }

  lemma RecordedStep(selected: map<nat, seq<string>>, taken: set<string>, cs: seq<Choice>, cap: nat, n: nat)
    requires n < |cs| && Recorded(selected, taken, cs[..n], cap)
    ensures var c := cs[n];
            var had := if c.bullet in selected then selected[c.bullet] else [];
            if c.key in taken || |had| >= cap
            then Recorded(selected, taken, cs[..n + 1], cap)
            else Recorded(selected[c.bullet := had + [c.keyword]], taken + {c.key}, cs[..n + 1], cap)
  {
    hide KeywordsOn, Picks, KeyTaken;
    PicksStep(cs, cap, n);
    TakenGrows(cs, cap, n);
    forall b: nat
      ensures KeywordsOn(cs[..n + 1], cap, b) == KeywordsOn(cs[..n], cap, b)
              + if n in Picks(cs[..n + 1], cap) && cs[n].bullet == b then [cs[n].keyword] else []
    {
      KeywordsStep(cs, cap, n, b);
    }
  }

  /** Each bullet with exactly the keywords picked for it, in order of picking. */
  ghost predicate AsPicked(selected: map<nat, seq<string>>, cs: seq<Choice>, cap: nat) {
    && (forall b: nat :: b in selected <==> KeywordsOn(cs, cap, b) != [])
    && forall b: nat | b in selected :: selected[b] == KeywordsOn(cs, cap, b)
  }

  method SelectRewriteAssignments(matches: seq<Match>, cap: nat, minScore: real,
                                  strip: string -> string, lower: string -> string)
    returns (selected: map<nat, seq<string>>)
    ensures forall b | b in selected :: |selected[b]| <= cap
    ensures exists cs: seq<Choice> ::
              CandidateList(cs, matches, minScore, strip, lower) && AsPicked(selected, cs, cap)
  {
    hide KeywordsOn, Picks, KeyTaken;
    var cs := BuildCandidates(matches, minScore, strip, lower);
    var taken: set<string> := {};
    selected := map[];
    NothingRecorded(cap);
    assert cs[..0] == [];
    for n := 0 to |cs|
      invariant Recorded(selected, taken, cs[..n], cap)
    {
      var c := cs[n];
      RecordedStep(selected, taken, cs, cap, n);
      var had := if c.bullet in selected then selected[c.bullet] else [];
      if c.key in taken || |had| >= cap { continue; }
      selected := selected[c.bullet := had + [c.keyword]];
      taken := taken + {c.key};
    }
    assert cs[..|cs|] == cs;
    assert AsPicked(selected, cs, cap);
    PickedWithinCap(selected, cs, cap);
  }

  /** Which keywords go to which bullet, and in which order, is determined as well. */
  lemma AssignmentIsUnique(selected: map<nat, seq<string>>, other: map<nat, seq<string>>, cap: nat,
                           cs: seq<Choice>, ds: seq<Choice>, matches: seq<Match>, minScore: real,
                           strip: string -> string, lower: string -> string)
    requires CandidateList(cs, matches, minScore, strip, lower) && AsPicked(selected, cs, cap)
    requires CandidateList(ds, matches, minScore, strip, lower) && AsPicked(other, ds, cap)
    ensures selected == other
  {
    CandidateListIsUnique(cs, ds, matches, minScore, strip, lower);
  }

  lemma PickedWithinCap(selected: map<nat, seq<string>>, cs: seq<Choice>, cap: nat)
    requires AsPicked(selected, cs, cap)
    ensures forall b | b in selected :: |selected[b]| <= cap
  {
    forall b: nat | b in selected ensures |selected[b]| <= cap {
      KeywordsCount(cs, cap, b);
      PicksAreFeasible(cs, cap);
    }
  }

  lemma NothingRecorded(cap: nat)
    ensures Recorded(map[], {}, [], cap)
  {
  }

  lemma TakenGrows(cs: seq<Choice>, cap: nat, n: nat)
    requires n < |cs|
    ensures var picks := Picks(cs[..n + 1], cap);
            forall key :: KeyTaken(cs[..n + 1], picks, key) <==>
              KeyTaken(cs[..n], Picks(cs[..n], cap), key) || (n in picks && cs[n].key == key)
  {
    assert cs[..n + 1][..n] == cs[..n];
    var earlier := Picks(cs[..n], cap);
    PicksInRange(cs[..n], cap);
    forall key
      ensures KeyTaken(cs[..n + 1], Picks(cs[..n + 1], cap), key) <==>
                KeyTaken(cs[..n], earlier, key) || (n in Picks(cs[..n + 1], cap) && cs[n].key == key)
    {
      if KeyTaken(cs[..n], earlier, key) {
        var i :| i in earlier && i < n && cs[..n][i].key == key;
        assert cs[..n + 1][i].key == key;
      }
      if n in Picks(cs[..n + 1], cap) { assert cs[..n + 1][n].key == cs[n].key; }
    }
  }
}

/**
  Dispatching rewrite tasks to a worker pool under a memory guard. Tasks are numbered 0 to n-1.
  Once the guard has tripped, every later pass of the loop recomputes the serial remainder, which
  by then is empty: exactly-once therefore holds only under a condition, stated and proved below.
 */
module RewriteDispatch {
  import opened Sequences

  /** One pass of the loop: the futures found finished, in the order they are handled, and whether
      a memory reading after one of them was refused. */
  datatype Pass = Pass(finished: seq<nat>, tripped: bool)

  datatype Pool = Pool(next: nat, active: set<nat>, handled: seq<nat>, rest: seq<nat>, stopped: bool)

  function Range(a: nat, b: nat): seq<nat> {
    if a < b then seq(b - a, i requires 0 <= i => a + i) else []
  }

  /** Submit tasks in order while a worker is free. */
  function Refill(p: Pool, n: nat, w: nat): Pool
    decreases n - p.next
  {
    if |p.active| < w && p.next < n
    then Refill(p.(active := p.active + {p.next}, next := p.next + 1), n, w)
    else p
  }

  function Start(n: nat, w: nat): Pool {
    Refill(Pool(0, {}, [], [], false), n, w)
  }

  predicate Possible(p: Pool, pass: Pass) {
    pass.finished != [] && Distinct(pass.finished) && forall t | t in pass.finished :: t in p.active
  }

  function Collected(p: Pool, pass: Pass): Pool {
    p.(active := p.active - Elements(pass.finished), handled := p.handled + pass.finished,
       stopped := p.stopped || pass.tripped)
  }

  function AfterPass(p: Pool, pass: Pass, n: nat, w: nat): Pool {
    var q := Collected(p, pass);
    if q.stopped then q.(rest := Range(q.next, n), next := n) else Refill(q, n, w)
  }

  function Run(passes: seq<Pass>, n: nat, w: nat): Pool {
    if passes == [] then Start(n, w)
    else AfterPass(Run(passes[..|passes|-1], n, w), passes[|passes|-1], n, w)
  }

  /** A completion order: each pass finds finished futures among those in flight. */
  ghost predicate Legal(passes: seq<Pass>, n: nat, w: nat) {
    passes != [] ==>
      Legal(passes[..|passes|-1], n, w) && Possible(Run(passes[..|passes|-1], n, w), passes[|passes|-1])
  }

  ghost predicate Complete(passes: seq<Pass>, n: nat, w: nat) {
    Legal(passes, n, w) && Run(passes, n, w).active == {}
  }

  /** Everything handled: through the pool, then the serial remainder. */
  function Handled(passes: seq<Pass>, n: nat, w: nat): seq<nat> {
    Run(passes, n, w).handled + Run(passes, n, w).rest
  }

  /** The index of the first pass in which the guard trips, or the number of passes. */
  function FirstTrip(passes: seq<Pass>): (k: nat)
    ensures k <= |passes|
    ensures k < |passes| ==> passes[k].tripped
    ensures forall i | 0 <= i < k :: !passes[i].tripped
  {
    if passes == [] then 0
    else
      var k := FirstTrip(passes[..|passes|-1]);
      if k == |passes| - 1 && !passes[k].tripped then |passes| else k
  }

  /** How many tasks had been submitted when the guard first tripped, or by the end. */
  function Submitted(passes: seq<Pass>, n: nat, w: nat): nat {
    Run(passes[..FirstTrip(passes)], n, w).next
  }

  // ----- the invariant -----

  ghost predicate Inv(p: Pool, n: nat, w: nat, cut: nat) {
    && |p.active| <= w && cut <= n
    && Distinct(p.handled)
    && (forall t: nat :: t in p.active ==> t !in p.handled)
    && (forall t: nat :: t < cut <==> t in p.handled || t in p.active)
    && (!p.stopped ==> p.next == cut && p.rest == [] && (p.active == {} && w > 0 ==> cut == n))
    && (p.stopped ==> p.next == n && (p.rest == Range(cut, n) || p.rest == []))
  }

  lemma {:induction false} RefillKeepsInv(p: Pool, n: nat, w: nat)
    requires |p.active| <= w && p.next <= n && Distinct(p.handled) && !p.stopped && p.rest == []
    requires forall t: nat :: t in p.active ==> t !in p.handled
    requires forall t: nat :: t < p.next <==> t in p.handled || t in p.active
    ensures var q := Refill(p, n, w);
            Inv(q, n, w, q.next) && q.handled == p.handled && !q.stopped
            && (|q.active| == w || q.next == n)
    decreases n - p.next
  {
    if |p.active| < w && p.next < n {
      RefillKeepsInv(p.(active := p.active + {p.next}, next := p.next + 1), n, w);
    }
  }

  lemma CollectKeepsTasks(p: Pool, pass: Pass, n: nat, w: nat, cut: nat)
    requires Inv(p, n, w, cut) && Possible(p, pass)
    ensures var q := Collected(p, pass);
            && |q.active| <= w && Distinct(q.handled)
            && (forall t: nat :: t in q.active ==> t !in q.handled)
            && (forall t: nat :: t < cut <==> t in q.handled || t in q.active)
  {
    var q := Collected(p, pass);
    assert p.active == q.active + Elements(pass.finished);
    DistinctConcat(p.handled, pass.finished);
  }

  lemma {:induction false} RunKeepsInv(passes: seq<Pass>, n: nat, w: nat)
    requires Legal(passes, n, w)
    ensures Inv(Run(passes, n, w), n, w, Submitted(passes, n, w))
    ensures Run(passes, n, w).stopped <==> FirstTrip(passes) < |passes|
    ensures |passes| <= |Run(passes, n, w).handled|
  {
    if passes == [] {
      RefillKeepsInv(Pool(0, {}, [], [], false), n, w);
    } else {
      var before, pass := passes[..|passes|-1], passes[|passes|-1];
      RunKeepsInv(before, n, w);
      var p := Run(before, n, w);
      var cut := Submitted(before, n, w);
      CollectKeepsTasks(p, pass, n, w, cut);
      var k := FirstTrip(passes);
      if k < |passes| {
        assert passes[..k] == before[..k];
        assert FirstTrip(before) == k;
      } else {
        assert passes[..k] == passes && before[..|before|] == before;
        RefillKeepsInv(Collected(p, pass), n, w);
      }
    }
  }

  // ----- what every schedule guarantees -----

  lemma RangeMembers(a: nat, b: nat)
    ensures Distinct(Range(a, b)) && forall t: nat :: t in Range(a, b) <==> a <= t < b
    ensures forall i, k | 0 <= i < k < |Range(a, b)| :: Range(a, b)[i] < Range(a, b)[k]
  {
    forall t: nat | a <= t < b ensures t in Range(a, b) { assert Range(a, b)[t - a] == t; }
  }

  /** At most `w` tasks are ever in flight, no task is handled twice, and there are at most n passes. */
  lemma AnyScheduleIsSafe(passes: seq<Pass>, n: nat, w: nat)
    requires Legal(passes, n, w)
    ensures |Run(passes, n, w).active| <= w
    ensures Distinct(Handled(passes, n, w)) && forall t | t in Handled(passes, n, w) :: t < n
    ensures |passes| <= n
  {
    RunKeepsInv(passes, n, w);
    var p := Run(passes, n, w);
    RangeMembers(Submitted(passes, n, w), n);
    DistinctConcat(p.handled, p.rest);
    DistinctBelowCount(p.handled, n);
  }

  lemma {:induction false} DistinctBelowCount(s: seq<nat>, n: nat)
    requires Distinct(s) && forall t | t in s :: t < n
    ensures |s| <= n
  {
    DistinctSize(s);
    BelowCount(Elements(s), n);
  }

  lemma {:induction false} BelowCount(s: set<nat>, n: nat)
    requires forall t | t in s :: t < n
    ensures |s| <= n
  {
    if n == 0 {
      assert s == {};
    } else {
      BelowCount(s - {n - 1}, n - 1);
      assert s <= (s - {n - 1}) + {n - 1};
      if n - 1 in s { assert s == (s - {n - 1}) + {n - 1}; } else { assert s == s - {n - 1}; }
    }
  }

  // ----- when every task is handled -----

  ghost predicate OnceEach(s: seq<nat>, n: nat) {
    Distinct(s) && forall t: nat :: t in s <==> t < n
  }

  /** The guard never trips, or first trips in a pass that leaves nothing in flight or nothing unsubmitted. */
  ghost predicate HarmlessTrip(passes: seq<Pass>, n: nat, w: nat) {
    var k := FirstTrip(passes);
    k == |passes| || Run(passes[..k + 1], n, w).active == {} || Submitted(passes, n, w) == n
  }

  lemma {:induction false} LegalPrefix(passes: seq<Pass>, n: nat, w: nat, k: nat)
    requires Legal(passes, n, w) && k <= |passes|
    ensures Legal(passes[..k], n, w)
    ensures k < |passes| ==> Possible(Run(passes[..k], n, w), passes[k])
    decreases |passes| - k
  {
    if k == |passes| {
      assert passes[..k] == passes;
    } else {
      LegalPrefix(passes, n, w, k + 1);
      assert passes[..k + 1][..k] == passes[..k];
    }
  }

  /** The remainder is kept only if the pass that tripped the guard was the last one. */
  lemma RemainderAfterTrip(passes: seq<Pass>, n: nat, w: nat)
    requires Legal(passes, n, w) && FirstTrip(passes) < |passes|
    ensures Run(passes, n, w).rest
            == if FirstTrip(passes) == |passes| - 1 then Range(Submitted(passes, n, w), n) else []
  {
    var before := passes[..|passes|-1];
    RunKeepsInv(before, n, w);
    var k := FirstTrip(passes);
    if k == |passes| - 1 {
      assert passes[..k] == before;
    } else {
      assert FirstTrip(before) == k;
      assert Run(before, n, w).next == n;
    }
  }

  /** What a complete run never handles: whatever was unsubmitted when the guard first tripped, unless harmless. */
  lemma LostTasks(passes: seq<Pass>, n: nat, w: nat)
    requires w > 0 && Complete(passes, n, w)
    ensures forall t: nat | t < n :: t in Handled(passes, n, w) <==>
              t < Submitted(passes, n, w) || HarmlessTrip(passes, n, w)
  {
    RunKeepsInv(passes, n, w);
    var k := FirstTrip(passes);
    var cut := Submitted(passes, n, w);
    if k < |passes| {
      RemainderAfterTrip(passes, n, w);
      RangeMembers(cut, n);
      LegalPrefix(passes, n, w, k + 1);
      if k + 1 < |passes| {
        LegalPrefix(passes, n, w, k + 1);
        var t := passes[k + 1].finished[0];
        assert t in Run(passes[..k + 1], n, w).active;
      } else {
        assert passes[..k + 1] == passes;
      }
    }
  }

  /** Every task is handled exactly once if and only if the guard's first trip is harmless. */
  lemma ExactlyOnceIffHarmless(passes: seq<Pass>, n: nat, w: nat)
    requires w > 0 && Complete(passes, n, w)
    ensures OnceEach(Handled(passes, n, w), n) <==> HarmlessTrip(passes, n, w)
  {
    AnyScheduleIsSafe(passes, n, w);
    LostTasks(passes, n, w);
    RunKeepsInv(passes, n, w);
    if !HarmlessTrip(passes, n, w) {
      var lost: nat := Submitted(passes, n, w);
      assert lost < n && lost !in Handled(passes, n, w);
    }
  }

  lemma {:induction false} FirstFill(p: Pool, n: nat, w: nat)
    requires p.active == Elements(Range(0, p.next)) && |p.active| == p.next && p.next <= w < n
    ensures var q := Refill(p, n, w); q.next == w && q.active == Elements(Range(0, w))
    decreases w - p.next
  {
    if p.next < w {
      RangeGrows(p.next);
      hide Range, Elements;
      FirstFill(p.(active := p.active + {p.next}, next := p.next + 1), n, w);
    }
  }

  lemma RangeGrows(k: nat)
    ensures Elements(Range(0, k + 1)) == Elements(Range(0, k)) + {k} && k !in Elements(Range(0, k))
  {
    RangeMembers(0, k);
    RangeMembers(0, k + 1);
    hide Range;
  }

  lemma TripThenDrain(n: nat, w: nat)
    requires 2 <= w < n
    ensures var p0 := Start(n, w);
            var p1 := AfterPass(p0, Pass([0], true), n, w);
            var p2 := AfterPass(p1, Pass(Range(1, w), false), n, w);
            && Possible(p0, Pass([0], true)) && Possible(p1, Pass(Range(1, w), false))
            && p2.active == {} && w !in p2.handled + p2.rest
  {
    StartIs(n, w);
    var p0 := Start(n, w);
    FirstOut(w);
    hide Start, Refill, Elements, Range;
    var p1 := AfterPass(p0, Pass([0], true), n, w);
    assert p1 == Pool(n, Elements(Range(1, w)), [0], Range(w, n), true) by {
      assert [] + [0] == [0 as nat];
    }
    var p2 := AfterPass(p1, Pass(Range(1, w), false), n, w);
    assert p2 == Pool(n, {}, [0] + Range(1, w), [], true) by { NothingLeft(n); }
  }

  lemma NothingLeft(n: nat)
    ensures Range(n, n) == []
  {
  }

  lemma StartIs(n: nat, w: nat)
    requires w < n
    ensures Start(n, w) == Pool(w, Elements(Range(0, w)), [], [], false)
  {
    var p := Pool(0, {}, [], [], false);
    assert p.active == Elements(Range(0, 0));
    FirstFill(p, n, w);
    RefillFrame(p, n, w);
    hide Refill;
  }

  /** Task 0 finishes first, the others after it. */
  lemma FirstOut(w: nat)
    requires 2 <= w
    ensures Elements([0]) == {0} && Elements(Range(0, w)) - {0} == Elements(Range(1, w))
    ensures Distinct([0]) && forall t | t in [0] :: t in Elements(Range(0, w))
    ensures Distinct(Range(1, w)) && Range(1, w) != [] && forall t | t in Range(1, w) :: t in Elements(Range(1, w))
    ensures w !in [0] + Range(1, w)
  {
    RangeMembers(0, w);
    RangeMembers(1, w);
    assert Range(1, w)[0] == 1;
    hide Range;
  }

  lemma {:induction false} RefillFrame(p: Pool, n: nat, w: nat)
    ensures var q := Refill(p, n, w);
            q == p.(next := q.next, active := q.active)
    decreases n - p.next
  {
    if |p.active| < w && p.next < n {
      RefillFrame(p.(active := p.active + {p.next}, next := p.next + 1), n, w);
    }
  }

  /** With at least two workers and more tasks than workers, some schedule loses tasks. */
  lemma SomeScheduleLosesTasks(n: nat, w: nat)
    requires 2 <= w < n
    ensures exists passes :: Complete(passes, n, w) && !OnceEach(Handled(passes, n, w), n)
  {
    var first, second := Pass([0], true), Pass(Range(1, w), false);
    TripThenDrain(n, w);
    assert [first][..0] == [] && [first, second][..1] == [first];
    assert Legal([], n, w) && Legal([first], n, w);
    assert Complete([first, second], n, w);
  }

  /** With one worker every trip comes when nothing else is in flight. */
  lemma OneWorkerIsHarmless(passes: seq<Pass>, n: nat)
    requires Complete(passes, n, 1)
    ensures HarmlessTrip(passes, n, 1)
  {
    var k := FirstTrip(passes);
    if k < |passes| {
      LegalPrefix(passes, n, 1, k + 1);
      LegalPrefix(passes, n, 1, k);
      assert passes[..k + 1][..k] == passes[..k];
      RunKeepsInv(passes[..k], n, 1);
      var before, pass := Run(passes[..k], n, 1), passes[k];
      var t := pass.finished[0];
      OnlyOne(before.active, t);
      assert before.active - Elements(pass.finished) == {};
    }
  }

  lemma OnlyOne(s: set<nat>, t: nat)
    requires t in s && |s| <= 1
    ensures s == {t}
  {
    assert |s - {t}| == |s| - 1;
  }

  /** With a worker for every task all are submitted before any trip. */
  lemma EnoughWorkersAreHarmless(passes: seq<Pass>, n: nat, w: nat)
    requires Complete(passes, n, w) && n <= w
    ensures HarmlessTrip(passes, n, w)
  {
    var k := FirstTrip(passes);
    LegalPrefix(passes, n, w, k);
    RunSubmitsAll(passes[..k], n, w);
  }

  lemma {:induction false} FillsAll(p: Pool, n: nat, w: nat)
    requires |p.active| <= p.next <= n <= w
    ensures Refill(p, n, w).next == n
    decreases n - p.next
  {
    if p.next < n { FillsAll(p.(active := p.active + {p.next}, next := p.next + 1), n, w); }
  }

  lemma {:induction false} RunSubmitsAll(passes: seq<Pass>, n: nat, w: nat)
    requires Legal(passes, n, w) && n <= w
    ensures Run(passes, n, w).next == n
  {
    if passes == [] {
      FillsAll(Pool(0, {}, [], [], false), n, w);
    } else {
      RunSubmitsAll(passes[..|passes|-1], n, w);
    }
  }

  ghost predicate AlwaysOnceEach(n: nat, w: nat) {
    forall passes: seq<Pass> | Complete(passes, n, w) :: OnceEach(Handled(passes, n, w), n)
  }

  /** What can be known before dispatching: every schedule handles every task exactly once if and only if
      there is one worker or one for every task. */
  lemma AlwaysOnceIffWorkersSuffice(n: nat, w: nat)
    requires w > 0
    ensures AlwaysOnceEach(n, w) <==> w == 1 || n <= w
  {
    if w == 1 || n <= w {
      forall passes: seq<Pass> | Complete(passes, n, w) ensures OnceEach(Handled(passes, n, w), n) {
        if w == 1 { OneWorkerIsHarmless(passes, n); } else { EnoughWorkersAreHarmless(passes, n, w); }
        ExactlyOnceIffHarmless(passes, n, w);
      }
    } else {
      SomeScheduleLosesTasks(n, w);
    }
  }

  // ----- memory readings -----

  /** One of the memory readings from the a-th to before the b-th is refused. */
  ghost predicate Refused(reading: nat -> bool, a: nat, b: nat) {
    exists k: nat :: a <= k < b && !reading(k)
  }

  /** How many readings were asked for: one for every future found finished. */
  function Asked(passes: seq<Pass>): nat {
    if passes == [] then 0 else Asked(passes[..|passes|-1]) + |passes[|passes|-1].finished|
  }

  /** Every pass trips exactly if one of its own readings is refused. */
  ghost predicate Guarded(passes: seq<Pass>, reading: nat -> bool) {
    forall i | 0 <= i < |passes| ::
      passes[i].tripped <==> Refused(reading, Asked(passes[..i]), Asked(passes[..i + 1]))
  }

  lemma GuardedMore(passes: seq<Pass>, pass: Pass, reading: nat -> bool)
    requires Guarded(passes, reading)
    requires pass.tripped <==> Refused(reading, Asked(passes), Asked(passes) + |pass.finished|)
    ensures Guarded(passes + [pass], reading) && Asked(passes + [pass]) == Asked(passes) + |pass.finished|
  {
    hide Refused;
    var more := passes + [pass];
    assert more[..|passes|] == passes;
    forall i | 0 <= i < |more|
      ensures more[i].tripped <==> Refused(reading, Asked(more[..i]), Asked(more[..i + 1]))
    {
      if i < |passes| {
        assert more[..i] == passes[..i] && more[..i + 1] == passes[..i + 1] && more[i] == passes[i];
      } else {
        assert more[..i] == passes && more[..i + 1] == more;
      }
    }
  }

  /** Fewer tasks in flight, and whatever was handled since had been in flight. */
  ghost predicate Drained(p: Pool, q: Pool) {
    q.active < p.active && forall t | t in q.handled :: t in p.handled || t in p.active
  }

  /** From a pass with a refused reading on, no task enters the pool: whatever is in flight later was in
      flight already, and whatever the pool handles had been submitted before. */
  lemma NothingEntersAfterRefusal(passes: seq<Pass>, n: nat, w: nat, reading: nat -> bool, q: nat, i: nat, m: nat)
    requires Legal(passes, n, w) && Guarded(passes, reading) && i < m <= |passes|
    requires Asked(passes[..i]) <= q < Asked(passes[..i + 1]) && !reading(q)
    ensures Drained(Run(passes[..i], n, w), Run(passes[..m], n, w))
  {
    hide Run, Legal;
    assert Refused(reading, Asked(passes[..i]), Asked(passes[..i + 1]));
    NothingEntersAfterTrip(passes, n, w, i, m);
  }

  lemma {:induction false} NothingEntersAfterTrip(passes: seq<Pass>, n: nat, w: nat, i: nat, m: nat)
    requires Legal(passes, n, w) && i < m <= |passes| && passes[i].tripped
    ensures Drained(Run(passes[..i], n, w), Run(passes[..m], n, w))
    decreases m
  {
    hide Run, Legal, AfterPass, Possible, Drained;
    LegalPrefix(passes, n, w, m - 1);
    RunStep(passes, n, w, m - 1);
    if i < m - 1 {
      TrippedStays(passes, n, w, i, m - 1);
      NothingEntersAfterTrip(passes, n, w, i, m - 1);
    }
    StoppedShrinks(Run(passes[..m - 1], n, w), passes[m - 1], n, w);
    if i < m - 1 { DrainedChain(Run(passes[..i], n, w), Run(passes[..m - 1], n, w), Run(passes[..m], n, w)); }
  }

  lemma RunStep(passes: seq<Pass>, n: nat, w: nat, k: nat)
    requires k < |passes|
    ensures Run(passes[..k + 1], n, w) == AfterPass(Run(passes[..k], n, w), passes[k], n, w)
  {
    hide AfterPass;
    assert passes[..k + 1][..k] == passes[..k];
  }

  lemma DrainedChain(a: Pool, b: Pool, c: Pool)
    requires Drained(a, b) && Drained(b, c)
    ensures Drained(a, c)
  {
  }

  lemma StoppedShrinks(p: Pool, pass: Pass, n: nat, w: nat)
    requires Possible(p, pass) && (p.stopped || pass.tripped)
    ensures Drained(p, AfterPass(p, pass, n, w))
  {
    assert pass.finished[0] in p.active;
  }

  lemma {:induction false} TrippedStays(passes: seq<Pass>, n: nat, w: nat, i: nat, m: nat)
    requires i < m <= |passes| && passes[i].tripped
    ensures Run(passes[..m], n, w).stopped
    decreases m
  {
    assert passes[..m][..m - 1] == passes[..m - 1];
    if i < m - 1 { TrippedStays(passes, n, w, i, m - 1); }
  }

  // ----- the loop -----

  /** How many workers run: one unless both the request and the memory guard allow more. */
  function WorkerCount(tasks: nat, parallelism: int, memoryOk: bool): (w: nat)
    ensures 1 <= w
    ensures w > 1 <==> memoryOk && tasks > 1 && parallelism > 1
    ensures w > 1 ==> w <= tasks && w <= parallelism && (w == tasks || w == parallelism)
  {
    var requested := if parallelism < 1 then 1 else parallelism;
    if tasks <= 1 || requested <= 1 then 1
    else if !memoryOk then 1
    else if requested < tasks then requested else tasks
  }

  method RunSerial(tasks: seq<nat>, already: seq<nat>) returns (handled: seq<nat>)
    ensures handled == already + tasks
  {
    handled := already;
    for i := 0 to |tasks|
      invariant handled == already + tasks[..i]
    {
      handled := handled + [tasks[i]];
    }
  }

  /** One sweep over the finished futures, in any order; `reading` answers the k-th memory question. */
  method CollectFinished(done: set<nat>, active0: set<nat>, handled0: seq<nat>, stop0: bool, reading: nat -> bool,
                         asked0: nat)
    returns (active: set<nat>, handled: seq<nat>, stop: bool, asked: nat, ghost pass: Pass)
    requires done != {} && done <= active0
    ensures Elements(pass.finished) == done && Distinct(pass.finished) && pass.finished != []
    ensures active == active0 - done && handled == handled0 + pass.finished
    ensures stop <==> stop0 || pass.tripped
    ensures asked == asked0 + |pass.finished|
    ensures pass.tripped <==> Refused(reading, asked0, asked)
  {
    hide Refused, Distinct;
    active, handled, stop, asked := active0, handled0, stop0, asked0;
    var left := done;
    pass := Pass([], false);
    NothingCollected(reading, asked0);
    while left != {}
      invariant left <= done && Elements(pass.finished) == done - left && Distinct(pass.finished)
      invariant active == active0 - Elements(pass.finished) && handled == handled0 + pass.finished
      invariant stop <==> stop0 || pass.tripped
      invariant asked == asked0 + |pass.finished|
      invariant pass.tripped <==> Refused(reading, asked0, asked)
      decreases left
    {
      var task :| task in left;
      CollectOne(pass.finished, task);
      left := left - {task};
      active := active - {task};
      handled := handled + [task];
      var ok := reading(asked);
      RefusedStep(reading, asked0, asked);
      asked := asked + 1;
      if !ok { stop := true; }
      pass := Pass(pass.finished + [task], pass.tripped || !ok);
    }
    assert done != {} ==> pass.finished != [];
  }

  lemma NothingCollected(reading: nat -> bool, asked: nat)
    ensures Distinct<nat>([]) && !Refused(reading, asked, asked) && Elements<nat>([]) == {}
  {
  }

  lemma CollectOne(finished: seq<nat>, task: nat)
    requires task !in Elements(finished) && Distinct(finished)
    ensures Elements(finished + [task]) == Elements(finished) + {task}
    ensures Distinct(finished + [task])
  {
    DistinctConcat(finished, [task]);
  }

  lemma RefusedStep(reading: nat -> bool, a: nat, b: nat)
    requires a <= b
    ensures Refused(reading, a, b + 1) <==> Refused(reading, a, b) || !reading(b)
  {
  }

  method SubmitFirst(n: nat, w: nat) returns (next: nat, active: set<nat>)
    ensures Pool(next, active, [], [], false) == Start(n, w)
  {
    next, active := 0, {};
    for i := 0 to w
      invariant Refill(Pool(next, active, [], [], false), n, w) == Start(n, w)
      invariant next <= n && (next == i || next == n) && |active| == next <= w
      invariant forall t | t in active :: t < next
    {
      if next >= n { break; }
      active := active + {next};
      next := next + 1;
    }
  }

  method SubmitMore(p: Pool, n: nat, w: nat) returns (next: nat, active: set<nat>)
    ensures p.(next := next, active := active) == Refill(p, n, w)
  {
    next, active := p.next, p.active;
    while |active| < w && next < n
      invariant Refill(p.(next := next, active := active), n, w) == Refill(p, n, w)
      decreases n - next
    {
      active := active + {next};
      next := next + 1;
    }
  }

  lemma NeverRefused(passes: seq<Pass>, reading: nat -> bool)
    requires Guarded(passes, reading) && forall k: nat :: reading(k)
    ensures FirstTrip(passes) == |passes|
  {
    hide Asked;
    forall i | 0 <= i < |passes| ensures !passes[i].tripped {
      assert !Refused(reading, Asked(passes[..i]), Asked(passes[..i + 1]));
    }
  }

  lemma NothingGuarded(reading: nat -> bool)
    ensures Guarded([], reading) && Asked([]) == 0
  {
  }

  /** The dispatch loop: the outcome is that of some legal schedule which trips exactly on refused readings. */
  method Dispatch(n: nat, w: nat, reading: nat -> bool) returns (handled: seq<nat>, ghost passes: seq<Pass>)
    requires w > 1
    ensures Complete(passes, n, w) && handled == Handled(passes, n, w)
    ensures Guarded(passes, reading)
    ensures (forall k: nat :: reading(k)) ==> OnceEach(handled, n)
  {
    hide Refill, Guarded, Refused;
    var rest: seq<nat>, stop, asked: nat := [], false, 0;
    var next, active := SubmitFirst(n, w);
    handled, passes := [], [];
    NothingGuarded(reading);
    while active != {}
      invariant Legal(passes, n, w) && Run(passes, n, w) == Pool(next, active, handled, rest, stop)
      invariant Guarded(passes, reading) && asked == Asked(passes)
      decreases n - |passes|
    {
      ghost var before, was := Run(passes, n, w), passes;
      var done :| done != {} && done <= active;
      ghost var pass;
      active, handled, stop, asked, pass := CollectFinished(done, active, handled, stop, reading, asked);
      passes := passes + [pass];
      assert passes[..|passes|-1] == was;
      GuardedMore(was, pass, reading);
      PassIsPossible(before, pass, done);
      assert Collected(before, pass) == Pool(next, active, handled, rest, stop);
      AnyScheduleIsSafe(passes, n, w);
      if stop {
        rest, next := Range(next, n), n;
        continue;
      }
      next, active := SubmitMore(Pool(next, active, handled, rest, stop), n, w);
    }
    if forall k: nat :: reading(k) {
      NeverRefused(passes, reading);
      ExactlyOnceIffHarmless(passes, n, w);
    }
    if rest != [] { handled := RunSerial(rest, handled); }
  }

  lemma PassIsPossible(p: Pool, pass: Pass, done: set<nat>)
    requires done <= p.active && Elements(pass.finished) == done && Distinct(pass.finished) && pass.finished != []
    ensures Possible(p, pass)
  {
    forall t | t in pass.finished ensures t in p.active { assert t in Elements(pass.finished); }
  }

  method RewriteAll(n: nat, parallelism: int, memoryOk: bool, reading: nat -> bool) returns (handled: seq<nat>)
    ensures Distinct(handled) && forall t | t in handled :: t < n
    ensures !memoryOk || parallelism <= 1 || n <= parallelism || (forall k: nat :: reading(k)) ==>
              OnceEach(handled, n)
    ensures var w := WorkerCount(n, parallelism, memoryOk);
            if w == 1 then handled == Range(0, n)
            else exists passes: seq<Pass> ::
                   Complete(passes, n, w) && Guarded(passes, reading) && handled == Handled(passes, n, w)
  {
    var w := WorkerCount(n, parallelism, memoryOk);
    if w <= 1 {
      handled := RunSerial(Range(0, n), []);
      RangeMembers(0, n);
      assert handled == Range(0, n);
    } else {
      ghost var passes;
      handled, passes := Dispatch(n, w, reading);
      AnyScheduleIsSafe(passes, n, w);
      if n <= parallelism { AlwaysOnceIffWorkersSuffice(n, w); }
    }
  }
}

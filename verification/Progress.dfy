/** The progress tracker of a resume run: milestones reached, and the percentage shown. */
module Progress {
  import opened Wrappers

  type Milestones = seq<seq<string>>

  const PIPELINE: Milestones := [
    ["config"], ["parse_resume"], ["bullets_loaded"], ["resume_structure"], ["classify_done"],
    ["heuristic_keywords"], ["llm_keyword_extract_start"], ["keywords_extracted"],
    ["starting_resume_compiled"], ["keyword_partition"], ["active_buckets"], ["rag_complete", "rag_skipped"],
    ["bullet_rewrite_parallel_config"], ["bullet_rewrites_summary"], ["rewrite_validation_summary"],
    ["bullet_scores"], ["summary_evidence"], ["keywords_skipped_to_summary"], ["summary_keyword_filter"],
    ["summary_start", "summary_skipped"],
    ["summary_done", "summary_generation_error", "summary_validation", "summary_validation_retry_done",
     "summary_skipped"],
    ["skills_keywords_added", "skills_keyword_reuse", "skill_bucket_skipped"], ["compile_done"],
    ["summary_line_check", "compile_summary_skipped", "pipeline_debug_summary", "packaging_review"],
    ["done"]
  ]

  const OPTION_A: Milestones := [["starting"], ["loading_job"], ["selecting_master_resume"], ["generating_resume"]]

  function MilestonesFor(optionA: bool): (ms: Milestones)
    ensures |ms| > 0
  {
    if optionA then OPTION_A + PIPELINE else PIPELINE
  }

  /** The last milestone, and it alone, is "done". */
  predicate EndsWithDone(ms: Milestones) {
    |ms| > 0 && ms[|ms|-1] == ["done"] && forall i | 0 <= i < |ms| - 1 :: "done" !in ms[i]
  }

  lemma MilestonesEndWithDone(optionA: bool)
    ensures EndsWithDone(MilestonesFor(optionA))
  {
    NoEarlyDone(PIPELINE);
    NoEarlyDone(OPTION_A);
    var ms := MilestonesFor(optionA);
    forall i | 0 <= i < |ms| - 1 ensures "done" !in ms[i] {
      assert ms[i] == if !optionA then PIPELINE[i] else if i < 4 then OPTION_A[i] else PIPELINE[i - 4];
    }
  }

  lemma NoEarlyDone(ms: Milestones)
    requires ms == PIPELINE || ms == OPTION_A
    ensures forall i | 0 <= i < |ms| && !(ms == PIPELINE && i == |ms| - 1) :: "done" !in ms[i]
  {
    assert forall i | 0 <= i < |ms| && !(ms == PIPELINE && i == |ms| - 1) ::
        forall k | 0 <= k < |ms[i]| :: |ms[i][k]| > 4;
  }

  /** The first milestone that lists the step. */
  function IndexOf(ms: Milestones, step: string): (r: Option<nat>)
    ensures r.Some? ==> r.value < |ms| && step in ms[r.value]
    ensures r.None? <==> forall i | 0 <= i < |ms| :: step !in ms[i]
  {
    if ms == [] then None
    else
      var n := |ms| - 1;
      var before := IndexOf(ms[..n], step);
      if before.Some? then before else if step in ms[n] then Some(n) else None
  }

  function Advance(ms: Milestones, current: nat, step: string): nat {
    if step == "done" then |ms|
    else
      match IndexOf(ms, step)
      case None => current
      case Some(i) => if current > i + 1 then current else i + 1
  }

  function Reached(ms: Milestones, steps: seq<string>): nat {
    if steps == [] then 0 else Advance(ms, Reached(ms, steps[..|steps|-1]), steps[|steps|-1])
  }

  /** The share of milestones reached, out of 99, rounded down; 100 when all are reached. */
  function PercentOf(current: nat, total: nat): int
    requires total > 0
  {
    if current >= total then 100 else current * 99 / total
  }

  lemma ReachedStep(ms: Milestones, steps: seq<string>, step: string)
    ensures Reached(ms, steps + [step]) == Advance(ms, Reached(ms, steps), step)
  {
    assert (steps + [step])[..|steps|] == steps;
  }

  function Percent(ms: Milestones, steps: seq<string>): int
    requires |ms| > 0
  {
    PercentOf(Reached(ms, steps), |ms|)
  }

  lemma QuotientMonotone(x: nat, y: nat, t: nat)
    requires x <= y && t > 0
    ensures x / t <= y / t
  {
    if y / t < x / t {
      QuotientBelow(y, t, x / t);
    }
  }

  /** A quotient below `q` means a dividend below `q * t`. */
  lemma QuotientBelow(y: nat, t: nat, q: nat)
    requires t > 0 && y / t < q
    ensures y < q * t
  {
    assert y == (y / t) * t + y % t;
    assert (y / t + 1) * t <= q * t;
  }

  lemma PercentRange(current: nat, total: nat)
    requires total > 0
    ensures 0 <= PercentOf(current, total) <= 100
    ensures PercentOf(current, total) == 100 <==> current >= total
  {
    if current < total {
      QuotientMonotone(current * 99, total * 99, total);
      assert total * 99 / total == 99;
    }
  }

  lemma PercentMonotone(a: nat, b: nat, total: nat)
    requires a <= b && total > 0
    ensures PercentOf(a, total) <= PercentOf(b, total)
  {
    PercentRange(a, total);
    PercentRange(b, total);
    if b < total { QuotientMonotone(a * 99, b * 99, total); }
  }

  lemma {:induction false} ReachedAllIffDone(ms: Milestones, steps: seq<string>)
    requires EndsWithDone(ms)
    ensures Reached(ms, steps) <= |ms|
    ensures Reached(ms, steps) == |ms| <==> "done" in steps
  {
    if steps != [] {
      var n := |steps| - 1;
      ReachedAllIffDone(ms, steps[..n]);
      assert steps == steps[..n] + [steps[n]];
      var i := IndexOf(ms, steps[n]);
      if i.Some? && steps[n] != "done" { assert ms[|ms|-1] == ["done"]; }
    }
  }

  /** The percentage is 100 exactly once "done" has been recorded. */
  lemma HundredIffDone(optionA: bool, steps: seq<string>)
    ensures Percent(MilestonesFor(optionA), steps) == 100 <==> "done" in steps
    ensures 0 <= Percent(MilestonesFor(optionA), steps) <= 100
  {
    var ms := MilestonesFor(optionA);
    MilestonesEndWithDone(optionA);
    ReachedAllIffDone(ms, steps);
    PercentRange(Reached(ms, steps), |ms|);
  }

  lemma {:induction false} ReachedGrows(ms: Milestones, steps: seq<string>, more: seq<string>)
    requires EndsWithDone(ms)
    ensures Reached(ms, steps) <= Reached(ms, steps + more)
    decreases |more|
  {
    if more == [] {
      assert steps + more == steps;
    } else {
      var n := |more| - 1;
      ReachedGrows(ms, steps, more[..n]);
      assert (steps + more)[..|steps + more| - 1] == steps + more[..n];
      ReachedAllIffDone(ms, steps + more[..n]);
    }
  }

  /** The percentage never goes back, whatever steps are recorded and in whatever order. */
  lemma PercentNeverGoesBack(optionA: bool, steps: seq<string>, more: seq<string>)
    ensures Percent(MilestonesFor(optionA), steps) <= Percent(MilestonesFor(optionA), steps + more)
  {
    var ms := MilestonesFor(optionA);
    MilestonesEndWithDone(optionA);
    ReachedGrows(ms, steps, more);
    PercentMonotone(Reached(ms, steps), Reached(ms, steps + more), |ms|);
  }

  /** The step is named by this milestone and by none before it. */
  ghost predicate FirstListed(ms: Milestones, step: string, i: nat) {
    i < |ms| && step in ms[i] && forall h | 0 <= h < i :: step !in ms[h]
  }

  /** So many milestones are behind: up to the furthest that any of the steps stands for. */
  ghost predicate Behind(ms: Milestones, steps: seq<string>, k: nat) {
    && (k > 0 ==> exists n | 0 <= n < |steps| :: FirstListed(ms, steps[n], k - 1))
    && forall n, i: nat | 0 <= n < |steps| && FirstListed(ms, steps[n], i) :: i < k
  }

  lemma {:induction false} ReachedIsBehind(ms: Milestones, steps: seq<string>)
    requires "done" !in steps
    ensures Behind(ms, steps, Reached(ms, steps))
  {
    hide FirstListed;
    if steps != [] {
      var n := |steps| - 1;
      ReachedIsBehind(ms, steps[..n]);
      FirstListedIsIndex(ms, steps[n]);
      assert steps[n] != "done" && forall m | 0 <= m < n :: steps[..n][m] == steps[m];
      var before, now := Reached(ms, steps[..n]), Reached(ms, steps);
      if now == before {
        if now > 0 {
          var m :| 0 <= m < n && FirstListed(ms, steps[..n][m], now - 1);
          assert FirstListed(ms, steps[m], now - 1);
        }
      } else {
        assert FirstListed(ms, steps[n], now - 1);
      }
    }
  }

  lemma FirstListedIsIndex(ms: Milestones, step: string)
    ensures forall i: nat :: FirstListed(ms, step, i) <==> IndexOf(ms, step) == Some(i)
  {
    FirstIndex(ms, step);
    forall i: nat, j: nat | FirstListed(ms, step, i) && FirstListed(ms, step, j) ensures i == j {
      assert !(i < j) && !(j < i);
    }
  }

  lemma {:induction false} FirstIndex(ms: Milestones, step: string)
    ensures IndexOf(ms, step).Some? ==> FirstListed(ms, step, IndexOf(ms, step).value)
  {
    if ms != [] {
      FirstIndex(ms[..|ms|-1], step);
      assert forall h | 0 <= h < |ms| - 1 :: ms[..|ms|-1][h] == ms[h];
    }
  }

  /** Until the run is done, the percentage is the share of milestones behind it, of 99, rounded down. */
  lemma PercentIsShare(optionA: bool, steps: seq<string>, k: nat)
    requires "done" !in steps && Behind(MilestonesFor(optionA), steps, k)
    ensures var total := if optionA then 29 else 25;
            var percent := Percent(MilestonesFor(optionA), steps);
            k < total && percent * total <= 99 * k < (percent + 1) * total
  {
    var ms := MilestonesFor(optionA);
    hide *;
    var total := TotalOf(optionA);
    ReachedIsBehind(ms, steps);
    OneBehind(ms, steps, k, Reached(ms, steps));
    MilestonesEndWithDone(optionA);
    ReachedAllIffDone(ms, steps);
    ShareOf(ms, steps, k);
  }

  lemma TotalOf(optionA: bool) returns (total: nat)
    ensures total == |MilestonesFor(optionA)| == if optionA then 29 else 25
  {
    total := |MilestonesFor(optionA)|;
    assert |PIPELINE| == 25 && |OPTION_A| == 4;
  }

  lemma ShareOf(ms: Milestones, steps: seq<string>, k: nat)
    requires Reached(ms, steps) == k < |ms|
    ensures Percent(ms, steps) * |ms| <= 99 * k < (Percent(ms, steps) + 1) * |ms|
  {
    assert Percent(ms, steps) == k * 99 / |ms|;
    hide *;
    Division(k * 99, |ms|);
  }

  lemma Division(x: nat, t: nat)
    requires t > 0
    ensures x / t * t <= x < (x / t + 1) * t
  {
    assert x == x / t * t + x % t;
  }

  lemma OneBehind(ms: Milestones, steps: seq<string>, a: nat, b: nat)
    requires Behind(ms, steps, a) && Behind(ms, steps, b)
    ensures a == b
  {
    hide FirstListed;
  }

  class ProgressTracker {
    const milestones: Milestones
    const total: nat
    var current: nat
    var stepIndices: map<string, nat>
    ghost var steps: seq<string>

    ghost predicate Valid()
      reads this
    {
      && EndsWithDone(milestones) && total == |milestones| > 0
      && current == Reached(milestones, steps)
      && Indexed(stepIndices, milestones)
    }

    constructor (optionA: bool)
      ensures Valid() && steps == [] && milestones == MilestonesFor(optionA)
    {
      var ms := MilestonesFor(optionA);
      MilestonesEndWithDone(optionA);
      var indices := IndexSteps(ms);
      milestones, total, current, stepIndices, steps := ms, |ms|, 0, indices, [];
    }

    /** Records a step and returns the percentage to show. */
    method Record(step: string) returns (percent: int)
      requires Valid()
      modifies this`current, this`steps
      ensures Valid() && steps == old(steps) + [step]
      ensures percent == Percent(milestones, steps)
    {
      hide PercentOf, EndsWithDone, Reached;
      ReachedStep(milestones, steps, step);
      if step == "done" {
        current := total;
      } else if step in stepIndices {
        var index := stepIndices[step];
        current := if current > index + 1 then current else index + 1;
      }
      steps := steps + [step];
      percent := PercentShown(current, total);
    }
  }

  method PercentShown(current: nat, total: nat) returns (percent: int)
    requires total > 0
    ensures percent == PercentOf(current, total)
  {
    PercentRange(current, total);
    percent := if current >= total then 100 else current * 99 / total;
    percent := if percent > 100 then 100 else percent;
    percent := if percent < 0 then 0 else percent;
  }

  /** Each step with the first milestone that lists it. */
  ghost predicate Indexed(indices: map<string, nat>, ms: Milestones) {
    && (forall s :: s in indices <==> IndexOf(ms, s).Some?)
    && forall s | s in indices :: IndexOf(ms, s) == Some(indices[s])
  }

  method IndexSteps(ms: Milestones) returns (indices: map<string, nat>)
    ensures Indexed(indices, ms)
  {
    indices := map[];
    for i := 0 to |ms|
      invariant Indexed(indices, ms[..i])
    {
      indices := IndexMore(ms[..i], ms[i], indices);
      assert ms[..i + 1] == ms[..i] + [ms[i]];
    }
    assert ms[..|ms|] == ms;
  }

  /** One more milestone: names seen before keep their index. */
  method IndexMore(ms: Milestones, names: seq<string>, indices0: map<string, nat>)
    returns (indices: map<string, nat>)
    requires Indexed(indices0, ms)
    ensures Indexed(indices, ms + [names])
  {
    indices := indices0;
    for k := 0 to |names|
      invariant forall s :: s in indices <==> s in indices0 || s in names[..k]
      invariant forall s | s in indices :: indices[s] == if s in indices0 then indices0[s] else |ms|
    {
      assert names[..k + 1] == names[..k] + [names[k]];
      if names[k] !in indices { indices := indices[names[k] := |ms|]; }
    }
    assert names[..|names|] == names;
    assert (ms + [names])[..|ms|] == ms;
  }
}

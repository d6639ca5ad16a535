# Verified models of Hunt's stateful cores

Hunt finds jobs, prepares a resume for each and hands applications to a worker. This project models
the parts of it whose behaviour depends on history, order or interleaving, and proves what they keep.

| files | what they model |
|---|---|
| `CoordinatorModel`, `CoordinatorSafety`, `CoordinatorSteps`, `CoordinatorRuns`, `CoordinatorReconcile`, `CoordinatorService` | the run, worker-lease and submit-approval protocol: one function per database transaction, the invariants of every interleaving, and the service object that makes the transactions |
| `CoordinatorCauses`, `CoordinatorEffects`, `CoordinatorChart`, `CoordinatorTiming` | the same protocol told by requests, statuses, clocks and rows: which request stands behind every event, what each request makes of a run in each status, which jobs start, when waiting ends |
| `PageFit`, `PageFitting`, `PageLoop`, `PageRestart`, `PageRounds`, `PagePipeline` | dropping bullets until a resume compiles to one page, the rounds of one iteration, and the restart loop that gives up entries |
| `PageFloor`, `PageOverflow`, `PageStranding` | when every entry of an accepted resume keeps two bullets, and when the page is sure to fit: exact conditions on the draft |
| `RewriteAssignment`, `RewriteOptions`, `RewriteDispatch` | giving keywords to bullets for rewriting, and running the rewrites on a worker pool with a memory guard |
| `ResumeQueue`, `ResumeQueueRuns`, `ResumeQueueRows`, `FletcherQueue`, `Progress`, `FletcherWorker` | the resume-preparation queue as a queue, the progress tracker, and the worker loop |
| `ResumeStore`, `ResumeStoreRows`, `ResumeTables` | attempts, versions and selection columns in three tables, and the check made of them before an application |
| `PagedScan` | listing jobs ready for a resume page by page |
| `Highlight`, `KeywordCheck` | keyword highlighting that can be read back, and the padded-substring keyword test |
| `Handoff`, `Settings`, `SettingsClients` | handing jobs over one at a time, and the compare-and-set save of settings |
| `Query`, `StableSort`, `Sequences`, `Wrappers` | ordered single-row queries, sorting with ties in order, sequences without repetition, optional values |

Conventions. A committed database transaction is one atomic step. Time is an integer supplied from
outside and never goes back. Scores are real numbers. Compilers, memory readings, other services'
answers, string lower-casing, stripping and hashing are arbitrary functions or arbitrary choices, so
every statement holds for all of them. One exception: `Highlight` lower-cases character by character,
which the spans found depend on; reading a page back (`RenderReadsBack`) holds for any spans, and so for
whatever lowering found them. Row ids are supplied by the caller; inserting one that is taken
is the primary-key error and changes nothing. Where the code updates state in place, a class does the
same and each of its methods is proved equal to a function of the old state; the theorems are about
those functions and about all sequences of them, and they name fields, requests and literal values rather
than the functions wherever a caller could observe them. The run service starts safe, that is with the invariant
of those theorems, and each of its handlers keeps it.

The main results, each for every input, run or schedule:

- a submitted application was cleared, approved and confirmed by requests naming it, in this order, and a denied one stays denied (`SubmissionWasRequested`, `DenialIsFinal`);
- the event log alone determines every run's row, and every event has its request (`EventsDetermineRun`, `EventWasAsked`);
- how many runs can execute at once, and that the bound is attained (`ExecutingRunsAreBounded`, `OverlapsAreAttained`);
- a reconcile pass in closed form, idempotent and independent of row order (`ReconcileComputes`, `ReconcileIsIdempotent`);
- the exact conditions on a draft under which an accepted resume always keeps two bullets per entry, and always fits (`FloorKeptIffTellable`, `FitsIffSomeEntryHolds`);
- greedy keyword assignment is stable, half-optimal with the factor attained, and unique (`UnpickedAreBlocked`, `GreedyIsHalfOptimal`, `AssignmentIsUnique`);
- the rewrite dispatcher handles every task exactly once if and only if its first memory trip is harmless, and nothing enters the pool after a refused reading (`ExactlyOnceIffHarmless`, `NothingEntersAfterRefusal`);
- the resume table is a queue under every run of its operations, and each row's payload is the one enqueued with its edits (`RunIsQueueRun`, `RowWasEnqueued`);
- attempts, versions and selections agree after every run, so the check before an application never refuses a sound selection (`RunsAgree`, `ReadyJobsMatch`);
- a highlighted page reads back to its text, and the padded-substring test is a test for a window of tokens (`RenderReadsBack`, `PaddedSubstringIsWindow`).

## Model

| member | source | states |
|---|---|---|
| `CoordinatorRuns.ReachableInv` | coordinator/service.py:561-1909 | every interleaving of transactions, with lease completion split into its separate steps, keeps the event log, the approval trail, one run per job, one active lease and one recorded fill per run |
| `CoordinatorRuns.EventsDetermineRun` | coordinator/service.py:258-287 | event sourcing: folding a run's events in log order gives back status, review flag and reason, submit flag, approval and failure code of its row, and a run without events does not exist |
| `CoordinatorRuns.SubmittedRunWasApproved` | coordinator/service.py:1774-1822 | behind every submitted run: a clean fill or a review resolved with continue, then its latest approval, an approve recorded for this run and job, then the submission, with no other change of the run in between or since |
| `CoordinatorRuns.SubmitFlagMeansApproved` | coordinator/service.py:1693-1743 | the submit flag is set if and only if the run's approval id names an approve row of this run and job |
| `CoordinatorRuns.OneRunPerJobForever` | coordinator/service.py:289-365 | a job that ever got a run keeps exactly that one: any later start is refused, as not ready even after a failed run was reopened, or as not found once the job row is deleted |
| `CoordinatorSteps.ReadyJobHasNoRun` | coordinator/service.py:201-213 | a job judged ready has no run at all, finished ones included |
| `CoordinatorRuns.LeasesAndFillsAreSingle` | coordinator/service.py:879-938 | at most one active lease per run and at most one recorded fill per run under all interleavings of claims, heartbeats, expiry, direct results and lease completion |
| `CoordinatorRuns.ClosedAndSealedStay` | coordinator/service.py:774-811 | events are only appended, a closed lease never becomes active again, and a submitted or denied run is never written again |
| `CoordinatorRuns.ExecutingRunsAreBounded` | coordinator/service.py:1824-1909 | under every interleaving, `run_once` whole or split into its three transactions, executing runs number at most one, plus the continue resolutions and investigation requests so far, plus the starts made while another run executed |
| `CoordinatorRuns.ExecutingRunsWithoutOverlap` | coordinator/service.py:1824-1909 | so without overlapping starts at most one, plus those two |
| `CoordinatorRuns.StartAddsExecutingRun` | coordinator/service.py:561-630 | starting a ready job adds exactly one executing run and its event and changes no other run or job |
| `CoordinatorRuns.OverlapsAreAttained` | coordinator/service.py:1856-1909 | the bound is tight: any number of ready jobs picked before any was started all execute, and the bound holds with equality |
| `CoordinatorSteps.StepKeepsInv` | coordinator/service.py:561-1909 | each step keeps the invariant, never reopens a lease, never touches a sealed run, never moves a run to another job |
| `CoordinatorCauses.EventWasAsked` | coordinator/service.py:561-1909 | behind every event of every run of the protocol stands an executed step that asked for it, with the same run, approval, fill result and decision word; a resolution with continue, say, comes from a request that said continue |
| `CoordinatorCauses.SubmissionWasRequested` | coordinator/service.py:1654-1822 | behind every submitted run stand three requests in this order: one that cleared it (a clean fill posted for it or a resolution saying continue), a gate request for it saying approve with the approval id on its row, and a confirmation |
| `CoordinatorCauses.ApprovalWasRequested` | coordinator/service.py:1654-1765 | behind every approved run stand the first two of these |
| `CoordinatorCauses.GateDecides` | coordinator/service.py:1693-1765 | a run at the gate: the word approve sets its status, flag and approve row and claims its job; deny sets them the other way, ends the run and skips the job; any other word changes nothing |
| `CoordinatorCauses.DenialIsFinal` | coordinator/service.py:1711-1743 | after a denial of a waiting run, whatever is executed later: the run stays denied, its flag unset, its deny row in place |
| `CoordinatorEffects.RunsStartEligible` | coordinator/service.py:289-478 | behind every run stands a step that started it, at the run's start time, for a job that was then eligible and had no run |
| `CoordinatorEffects.StartsIffEligible` | coordinator/service.py:561-630 | in every reachable state a start succeeds if and only if the job's columns allow it, it has no run and the id is new; the new row in full, and no change otherwise |
| `CoordinatorEffects.ReasonIsFirstObstacle` | coordinator/service.py:289-478 | the reason given for not starting a job names the first of its columns that stands in the way |
| `CoordinatorEffects.OpenRunBlocks` | coordinator/service.py:201-213 | a job with an unfinished run is turned away with that run, as held for a person or as active |
| `CoordinatorEffects.PickFollowsRule` | coordinator/service.py:1824-1854 | in every state with the invariant: the oldest executing run blocks; else a run held for one of the global reasons; else the job picked is eligible and preferred to every other eligible one by source, recency and id; idle only if there is none |
| `CoordinatorEffects.RunOnceStartsPicked` | coordinator/service.py:1856-1909 | `run_once` gives the picked job a run, asks for its fill unless told only to prepare, claims the job if fresh, and does nothing else |
| `CoordinatorChart.StepFollowsChart` | coordinator/service.py:691-1822 | the status chart: for each status and each request, the status it leads to or that it is refused, the completion time, what becomes of the job, and that no other run or job changes |
| `CoordinatorChart.AnswerFollowsChart` | coordinator/service.py:691-1822 | a caller is told done exactly when the chart is followed, and otherwise the first obstacle: a bad word, a missing run, the wrong status, a taken id |
| `CoordinatorChart.CodeIsNamed` | coordinator/failure_log.py:30-80 | the failure code of a fill is the one given, else the captcha's by substring, else that of the first flag that stands for one, else the status's |
| `CoordinatorChart.TriggersInvestigation` | coordinator/failure_log.py:10-80 | a fill goes to investigation if and only if one of five codes is given, or none is given and there is a captcha, or a widget or captcha flag comes before every other coded one |
| `CoordinatorChart.CleanFillMeans` | coordinator/service.py:1253-1330 | a fill opens the gate if and only if it has no investigable code, no flag and no failed status |
| `CoordinatorChart.FillLeaves` | coordinator/service.py:1253-1410 | the flags, reason, review mark and failure code that people see on a run after a fill |
| `CoordinatorChart.HoldReasons` | coordinator/db.py:27-36 | the reasons that stop the scheduler, among the flags that stand for a code |
| `CoordinatorTiming.ClaimTakesOldest` | coordinator/service.py:857-946 | a claim leases the oldest free run waiting for its kind of work, for exactly the seconds asked for |
| `CoordinatorTiming.ClaimIsServed` | coordinator/service.py:857-946 | a claim is refused or in vain only for a missing runtime, fewer than 30 seconds, a taken id, or because every waiting run is leased |
| `CoordinatorTiming.LeaseLastsAsGranted` | coordinator/service.py:948-1007 | a lease granted for some seconds can be renewed and completed before they have passed, and from then on times out instead |
| `CoordinatorTiming.ReconcileEndsLeases` | coordinator/service.py:1038-1103 | a reconcile pass times out a lease if and only if its seconds have passed, and then hands its unfinished run to a person |
| `CoordinatorTiming.CompletionDelivers` | coordinator/service.py:986-1036 | completing a live lease undisturbed is posting the result to the lease's run, as an investigation's if one is queued, then closing the lease |
| `CoordinatorTiming.FillTimesOut` | coordinator/service.py:1038-1103 | a requested fill that nobody leased is given up by a pass if and only if it has waited for the timeout |
| `CoordinatorTiming.SubmitTimesOut` | coordinator/service.py:1038-1103 | an approved submission that nobody confirmed likewise, if a timeout is set |
| `CoordinatorTiming.ReconcileHandsOver` | coordinator/service.py:813-855 | a pass changes a run in one way only: from unfinished to manual review, with one of the two reasons as its only flag; the jobs of exactly these runs become claimed |
| `CoordinatorReconcile.ExpireLeasesComputes` | coordinator/service.py:774-811 | one sweep over any list of leases times out exactly the due active ones in it and sends exactly their unfinished runs to manual review, in whatever order |
| `CoordinatorReconcile.TimeOutFillsComputes` | coordinator/service.py:1038-1103 | the fill sweep marks exactly the listed runs still waiting for a fill, without a live lease and not newer than the cutoff |
| `CoordinatorReconcile.TimeOutSubmitsComputes` | coordinator/service.py:1038-1103 | the submit sweep marks exactly the listed approved runs not newer than the cutoff |
| `CoordinatorReconcile.ReconcileComputes` | coordinator/service.py:1038-1103 | every row after a reconcile pass in closed form, independent of the order in which the queries return rows |
| `CoordinatorReconcile.ReconcileLeavesNothingDue` | coordinator/service.py:1038-1103 | afterwards no active lease is due, every run waiting for a fill is leased or newer than the cutoff, and terminal runs are untouched |
| `CoordinatorReconcile.ReconcileIsIdempotent` | coordinator/service.py:1038-1103 | repeating the pass at the same time changes nothing, not even the log |
| `CoordinatorService.OrchestrationService.DecisionFromRow` | coordinator/service.py:289-478 | readiness checks in their order, an open run of the job first |
| `CoordinatorService.OrchestrationService.PickNextJob` | coordinator/service.py:1824-1854 | the oldest executing run blocks, then a global hold, else the first ready job by source, recency and id |
| `CoordinatorService.OrchestrationService.BuildApplyContext` | coordinator/service.py:561-630 | a ready job gets a run row with its seed review flags, a claimed status and its first event in one transaction; otherwise nothing changes |
| `CoordinatorService.OrchestrationService.RequestFill` | coordinator/service.py:691-731 | only a prepared run is moved on, with its event |
| `CoordinatorService.OrchestrationService.RunOnce` | coordinator/service.py:1856-1909 | picking, starting and requesting the fill one after the other; the runs above interleave the three transactions as well |
| `CoordinatorService.OrchestrationService.MarkRunManualReview` | coordinator/service.py:813-855 | unfinished runs go to manual review with the reason; terminal and already held ones are left alone |
| `CoordinatorService.OrchestrationService.ExpireDueWorkerLeases` | coordinator/service.py:774-811 | due leases are timed out and, on request, their runs marked |
| `CoordinatorService.OrchestrationService.ClaimNextFill` | coordinator/service.py:857-946 | expires due leases, then leases the oldest pending run without an active lease |
| `CoordinatorService.OrchestrationService.HeartbeatLease` | coordinator/service.py:948-984 | extends an active lease that is not due; a due one is closed and refused |
| `CoordinatorService.OrchestrationService.CheckLease` | coordinator/service.py:986-1007 | first transaction of a lease completion: a due lease is closed, then refused |
| `CoordinatorService.OrchestrationService.CloseLease` | coordinator/service.py:1015-1036 | last transaction of a lease completion: the lease is completed whatever its status has become |
| `CoordinatorService.OrchestrationService.ReconcileStaleRuns` | coordinator/service.py:1038-1103 | the whole pass, with its row lists covering what the three queries select |
| `CoordinatorService.OrchestrationService.RecordFillResult` | coordinator/service.py:1234-1410 | a fill result is taken once, judged in order (investigation trigger, review flags, failure, clean) and written to run, job and log together |
| `CoordinatorService.OrchestrationService.QueueInvestigation` | coordinator/service.py:1412-1447 | reopens held, failed, requested or prepared runs for investigation and no others |
| `CoordinatorService.OrchestrationService.RecordInvestigationResult` | coordinator/service.py:1449-1552 | completes a queued investigation and fails the job |
| `CoordinatorService.OrchestrationService.ResolveReview` | coordinator/service.py:1562-1652 | continue returns a held run to the submit gate, fail ends it |
| `CoordinatorService.OrchestrationService.ApproveSubmit` | coordinator/service.py:1654-1765 | records the decision and moves the run through the gate in one transaction; what each word does is GateDecides |
| `CoordinatorService.OrchestrationService.MarkSubmitted` | coordinator/service.py:1774-1822 | only an approved run is submitted |
| `Query.SelectFirst` | coordinator/service.py:215-226 | an ordered single-row query returns the unique least row |
| `PageFit.GreedyIsDeterministic` | fletcher/ad_hoc_pipeline.py:1030-1119 | the drops are determined by the scores and how many there are |
| `PageFit.SurvivorsAreTheBest` | fletcher/ad_hoc_pipeline.py:1061-1110 | every bullet dropped from a bucket scores at most what any bullet left in it scores, and stands before it at an equal score |
| `PageFit.LowestIsDropped` | fletcher/ad_hoc_pipeline.py:1061-1110 | every drop scores lowest among all bullets of all buckets that still have more than the floor, the earliest at an equal score |
| `PageFit.BucketsKeepFloor` | fletcher/ad_hoc_pipeline.py:1061-1082 | no bucket is taken below the floor, and one that starts at or below it keeps everything |
| `PageFit.DropsAreBounded` | fletcher/ad_hoc_pipeline.py:1030-1119 | drops and the bullets still above the floor together number the bullets above the floor at the start, whatever the scores |
| `PageFit.RemovingHitsTheBullet` | fletcher/ad_hoc_pipeline.py:455-469 | with distinct texts in an entry, removal by hash removes the intended bullet and keeps the order of the others |
| `PageFitting.RemainderAtFloor` | fletcher/ad_hoc_pipeline.py:1084-1088 | when nothing can be dropped, a bucket has been flagged if and only if some bucket started with a floor's worth of bullets |
| `PageFitting.Document.RemoveBullet` | fletcher/ad_hoc_pipeline.py:455-469 | removes the first bullet with the source's hash, else the one at its original place, else fails and changes nothing |
| `PageFitting.Document.RemoveBucket` | fletcher/ad_hoc_pipeline.py:472-476 | removes the entry and keeps the others in order |
| `PageFitting.OnlyBucketGoes` | fletcher/ad_hoc_pipeline.py:472-476 | the entry of the bucket goes, those before and after it stay in their order |
| `PageFitting.RemovalTakes` | fletcher/ad_hoc_pipeline.py:455-469 | in the first entry of the bucket: the first bullet with the hash goes, else the one at its old place, else the removal fails; no other entry changes |
| `PageFitting.FitIsBounded` | fletcher/ad_hoc_pipeline.py:1030-1119 | for any texts and scores: at most as many drops as bullets above the floor, every compile but the last asked for one, and a removed bucket stands at the floor |
| `PageFitting.FitIsGreedy` | fletcher/ad_hoc_pipeline.py:1030-1119 | when texts differ in every bucket above the floor: the drops are the greedy ones, a bucket is removed exactly when the page still overflows and some bucket started with a floor's worth, and the document shows exactly the surviving bullets |
| `PageFitting.FitEnds` | fletcher/ad_hoc_pipeline.py:1021-1119 | every compile followed by a drop or a removal was of status ok, not on one page and of more than one page; a fit that gives nothing up ends on a compile that was not, or with nothing it can drop or give up |
| `PageFitting.RemovedReachedFloorFirst` | fletcher/ad_hoc_pipeline.py:1076-1095 | the bucket given up is one that stood at the floor no later than any other, the earliest in the sources among these |
| `PageLoop.CollectCandidates` | fletcher/ad_hoc_pipeline.py:1061-1082 | the candidates are exactly the least bullets of the buckets above the floor, and a bucket is flagged once it is at the floor |
| `PageLoop.FitToPage` | fletcher/ad_hoc_pipeline.py:1030-1119 | terminates against any compiler with the outcome of that fit for every document and within its compile bound; in the compiles' own fields: each one followed by a drop or removal had more than one page, and the last had not, unless nothing was left to drop or give up |
| `PageRestart.CollectReady` | fletcher/ad_hoc_pipeline.py:422-444 | a freshly collected document shows exactly its sources, bucket by bucket |
| `PageRestart.PresentReady` | fletcher/ad_hoc_pipeline.py:644-657 | after a fit, the sources still present are exactly those not dropped, so the next fit starts right |
| `PageRestart.FitKeepsFloor` | fletcher/ad_hoc_pipeline.py:1030-1119 | a fit that gives up no entry ends without a needed drop, keeps all entries and leaves each at or above the floor |
| `PageRestart.IterateGivesUpAnEntry` | fletcher/ad_hoc_pipeline.py:2005-2180 | one iteration is accepted or gives up one entry of its document, never both, whatever the texts |
| `PageRestart.IterateKeepsFloor` | fletcher/ad_hoc_pipeline.py:2005-2180 | when every entry of more than two bullets has distinct texts, an accepted resume, with and without summary, keeps every entry and two bullets in each |
| `PageFloor.RepeatedTextLosesTheFloor` | fletcher/ad_hoc_pipeline.py:644-657 | an entry of more than two bullets with a repeated text: some page counts, and scores that stay the same from fit to fit, lead to an accepted resume whose entry has one bullet |
| `PageFloor.FloorKeptIffTellable` | fletcher/ad_hoc_pipeline.py:2005-2180 | every accepted iteration over a draft keeps two bullets per entry if and only if each entry of more than two bullets has distinct texts; steady scores make no difference |
| `PageFloor.NoSummaryFits` | fletcher/ad_hoc_pipeline.py:2005-2050 | whatever texts repeat, an accepted resume without summary is complete and not known to overflow |
| `PageStranding.FitsIffSomeEntryHolds` | fletcher/ad_hoc_pipeline.py:1021-1119 | an accepted iteration over a draft never ends on an overflowing page if and only if some entry cannot be stranded: it has two bullets, or distinct texts, or one text three times |
| `PageOverflow.OpenEntryFits` | fletcher/ad_hoc_pipeline.py:1084-1119 | one such entry in the draft is enough, for all scores and page counts |
| `PageStranding.StrandedIsAccepted` | fletcher/ad_hoc_pipeline.py:644-657 | otherwise this trial, built from the draft, leads through three fits to an accepted resume of more than one page |
| `PageRestart.RunIteration` | fletcher/ad_hoc_pipeline.py:2005-2180 | up to three fits in a row amount to one iteration |
| `PageRounds.IterationShrinks` | fletcher/ad_hoc_pipeline.py:2005-2180 | the resume with summary has the entries of the one without, each less some bullets in the same order; and that one those of the draft |
| `PageRounds.RoundsFollow` | fletcher/ad_hoc_pipeline.py:2005-2180 | the summary's round starts from what the first left, its retry from what that left; what an earlier round gave up or settled stays; a round whose first page fits changes nothing |
| `PagePipeline.RunPipeline` | fletcher/ad_hoc_pipeline.py:2755-2781 | each restart removes exactly one active bucket, at most as many iterations as starting buckets, an end only with the resume its last iteration accepted or an empty bucket set; its document without summary keeps every entry and two bullets in each and is not known to have more than one page, whatever texts repeat; the one with summary keeps them when entries of more than two bullets have distinct texts, and is not known to overflow when some entry of the draft cannot be stranded |
| `PagePipeline.StartingIsActive` | fletcher/ad_hoc_pipeline.py:2707-2718 | the starting buckets are distinct, and exactly those of the entries with two bullets or more |
| `RewriteAssignment.PicksAreFeasible` | fletcher/ad_hoc_pipeline.py:998-1013 | each keyword goes to at most one bullet and no bullet exceeds its cap |
| `RewriteAssignment.UnpickedAreBlocked` | fletcher/ad_hoc_pipeline.py:998-1013 | stability: every candidate left out is blocked by an at-least-as-good choice for its keyword or by a full bullet of at-least-as-good choices |
| `RewriteAssignment.GreedyIsHalfOptimal` | fletcher/ad_hoc_pipeline.py:998-1013 | no feasible assignment over the same candidates places more than twice as many keywords |
| `RewriteAssignment.HalfIsReached` | fletcher/ad_hoc_pipeline.py:998-1013 | the factor two is attained |
| `RewriteOptions.AllOptionsMean` | fletcher/ad_hoc_pipeline.py:961-983 | a keyword's options are exactly its matches' candidates with a bullet and a score of at least the threshold, and, of a match without any, its own bullet if its own score is |
| `RewriteOptions.CandidateMeans` | fletcher/ad_hoc_pipeline.py:984-997 | every candidate is such an option, and its regret is the distance from the best score among the options of its keyword in any spelling |
| `RewriteOptions.CandidatesSuffice` | fletcher/ad_hoc_pipeline.py:984-997 | every option is a candidate, or its keyword has four candidates already that all score at least as high |
| `RewriteOptions.AssignmentMeans` | fletcher/ad_hoc_pipeline.py:953-1013 | every keyword given to a bullet may be placed there by some match of it, at or above the threshold |
| `RewriteOptions.CandidatesAreOrdered` | fletcher/ad_hoc_pipeline.py:998-1001 | candidates come by score minus regret, then by score |
| `RewriteAssignment.GroupByKeyword` | fletcher/ad_hoc_pipeline.py:961-983 | options are collected per lower-cased keyword, in order, over all matches |
| `RewriteAssignment.BuildCandidates` | fletcher/ad_hoc_pipeline.py:984-1001 | the candidates are the best four options of each keyword with their regret, keywords in order of first match, sorted by score minus regret, then score, and in that order among equals |
| `StableSort.SortIsUnique` | fletcher/ad_hoc_pipeline.py:986-1001 | only one list has the same elements, in order, with ties as they stood |
| `RewriteAssignment.CandidateListIsUnique` | fletcher/ad_hoc_pipeline.py:984-1001 | so the matches and the threshold determine the candidate list |
| `RewriteAssignment.AssignmentIsUnique` | fletcher/ad_hoc_pipeline.py:953-1013 | and which keywords go to which bullet, and in which order |
| `RewriteAssignment.SelectRewriteAssignments` | fletcher/ad_hoc_pipeline.py:953-1013 | returns per bullet exactly the keywords picked for it, in order of picking, at most the cap; who may be picked is AssignmentMeans |
| `RewriteDispatch.AnyScheduleIsSafe` | fletcher/ad_hoc_pipeline.py:1756-1821 | for every completion order and all memory answers: at most `active_workers` in flight, no task handled twice, at most one pass per task |
| `RewriteDispatch.LostTasks` | fletcher/ad_hoc_pipeline.py:1816-1819 | what is lost is exactly every rewrite unsubmitted at the guard's first trip, unless the trip was harmless |
| `RewriteDispatch.ExactlyOnceIffHarmless` | fletcher/ad_hoc_pipeline.py:1783-1830 | every task is handled exactly once if and only if the guard never trips or first trips in a pass that leaves nothing in flight or nothing unsubmitted |
| `RewriteDispatch.SomeScheduleLosesTasks` | fletcher/ad_hoc_pipeline.py:1816-1819 | with two or more workers and more tasks than workers, some completion order loses tasks |
| `RewriteDispatch.RemainderAfterTrip` | fletcher/ad_hoc_pipeline.py:1816-1819 | the serial remainder survives only if the tripping pass is the last one |
| `RewriteDispatch.CollectFinished` | fletcher/ad_hoc_pipeline.py:1784-1815 | one sweep handles each finished future once, asks the guard after each, and raises the stop flag if and only if an answer refuses |
| `RewriteDispatch.Dispatch` | fletcher/ad_hoc_pipeline.py:1753-1830 | the loop's outcome is that of some legal schedule in which a pass trips if and only if one of the readings taken in it was refused, and all tasks are handled once when no reading refuses |
| `RewriteDispatch.NothingEntersAfterRefusal` | fletcher/ad_hoc_pipeline.py:1783-1821 | in every such schedule: from the pass of a refused reading on no task enters the pool; what is in flight or handled later had been submitted before |
| `RewriteDispatch.WorkerCount` | fletcher/ad_hoc_pipeline.py:1430-1457 | more than one worker exactly when the guard, the number of rewrites and the request all allow it, and then the lesser of the two numbers |
| `RewriteDispatch.AlwaysOnceIffWorkersSuffice` | fletcher/ad_hoc_pipeline.py:1753-1830 | what can be known before dispatching: every schedule handles every task exactly once if and only if there is one worker or one for every task |
| `RewriteDispatch.RewriteAll` | fletcher/ad_hoc_pipeline.py:1742-1830 | no task twice in any case; every task once when run serially, undisturbed, or with a parallelism of at least their number; in order when serial, and otherwise as some schedule that trips exactly on refused readings |
| `ResumeQueue.EnqueueAppends` | fletcher/db.py:242-270 | the listings of queued rows by position and creation time after an enqueue are those before it with the new row last |
| `ResumeQueue.ClaimTakesHead` | fletcher/db.py:732-765 | the listings after a claim are the tails of those that began with the claimed row |
| `ResumeQueueRuns.HeadHasView` | fletcher/db.py:732-745 | every row a claim may return is the first of some listing |
| `ResumeQueue.HeadOfViewIsHead` | fletcher/db.py:732-745 | and the first of every listing is a row a claim may return |
| `ResumeQueue.CancelRemoves` | fletcher/db.py:374-408 | cancelling a queued row removes it and moves no other |
| `ResumeQueue.OtherOperationsKeepTheQueue` | fletcher/db.py:423-469 | progress, log, edit, delete, clear and finishing a claimed row leave the listing as it was |
| `ResumeQueue.RecoverMerges` | fletcher/db.py:173-222 | recovery leaves nothing running and merges the interrupted rows in at their old places |
| `ResumeQueue.RecoverUndoesClaim` | fletcher/db.py:173-222 | a claim followed by recovery restores the queue |
| `ResumeQueue.ViewIsUnique` | fletcher/db.py:732-745 | when no two queued rows share position and creation time the listing is unique, so the claimed head is |
| `ResumeQueueRuns.MoveConservesPositions` | fletcher/db.py:339-371 | a move permutes active positions and changes nothing else |
| `ResumeQueueRuns.MoveBackRestoresIffUnshared` | fletcher/db.py:339-371 | moving back the other way restores the table, whichever neighbour the database picks, if and only if no other active row shared the position left |
| `ResumeQueueRuns.MoveSwapsAdjacent` | fletcher/db.py:339-371 | with distinct positions, a move among queued rows swaps two adjacent entries of the listing |
| `ResumeQueueRuns.MovePastRunning` | fletcher/db.py:339-371 | swapping places with a running row leaves the queue's order as it was |
| `ResumeQueueRuns.RunIsQueueRun` | fletcher/db.py:173-807 | every run of table operations is a run of an abstract queue: append, take head, remove one, merge back, and a move that changes the order of no two other rows; with distinct positions it swaps neighbours |
| `ResumeQueueRuns.PositionsStayDistinct` | fletcher/db.py:245-249 | distinct positions survive an operation if and only if an enqueue does not hit a position a claimed row still holds |
| `ResumeQueueRuns.RecoveredRowsCanShareAPosition` | fletcher/db.py:245-249 | a row enqueued while the only other one is claimed takes that one's position |
| `ResumeQueueRuns.CancelledStays` | fletcher/db.py:782-783 | a cancelled job stays cancelled whatever is called later, until it is deleted |
| `ResumeQueueRuns.FinishedStays` | fletcher/db.py:768-807 | a finished job never becomes active again |
| `ResumeQueueRuns.RowsAreNotLost` | fletcher/db.py:452-469 | a job disappears only by deleting or clearing it after it finished |
| `ResumeQueueRuns.PercentNeverDecreases` | fletcher/db.py:423-449 | within one claim the stored percentage never decreases |
| `ResumeQueueRows.EnqueuedIsStored` | fletcher/db.py:242-270 | from an enqueue on, as long as the row exists: its payload is the one enqueued, overwritten in order by exactly the edits made while it was queued, and its creation time is the call's |
| `ResumeQueueRows.RowWasEnqueued` | fletcher/db.py:242-270 | in every table made by calls from an empty one, each row was put there by an enqueue of its id, with that payload but for those edits |
| `ResumeQueueRows.ClaimTakesEarliest` | fletcher/db.py:732-745 | a claim takes a queued row of the least position, the one created first among equals, and nothing only if none is queued |
| `ResumeQueueRows.MoveExchanges` | fletcher/db.py:339-371 | up and down exchange positions with the nearest unfinished row of a lower or higher one, and change nothing if there is none |
| `ResumeQueueRows.CallShows` | fletcher/db.py:173-807 | what each call leaves on its row, field by field: status, times, percentage, error, log and revision, and which rows a deletion, a recovery or a clear affects |
| `FletcherQueue.JobTable.Enqueue` | fletcher/db.py:242-270 | the new row gets the greatest queued position plus one; what it holds from then on is EnqueuedIsStored |
| `FletcherQueue.JobTable.ClaimNext` | fletcher/db.py:732-765 | takes a row of least position and creation time among the queued ones and marks it running |
| `FletcherQueue.JobTable.Cancel` | fletcher/db.py:374-408 | cancels an active row, returns a finished one unchanged, reports a missing one |
| `FletcherQueue.JobTable.CancelAll` | fletcher/db.py:411-420 | cancels one after the other up to the first missing job |
| `FletcherQueue.JobTable.Move` | fletcher/db.py:339-371 | exchanges positions with a nearest active row in the given direction, if there is one |
| `FletcherQueue.JobTable.Recover` | fletcher/db.py:173-222 | requeues exactly the running rows |
| `FletcherQueue.JobTable.UpdateProgress` | fletcher/db.py:423-449 | stores the greater of old and new percentage when both are numbers |
| `FletcherQueue.JobTable.Finish` | fletcher/db.py:768-807 | writes the verdict unless the row was cancelled |
| `FletcherQueue.JobTable.Delete` | fletcher/db.py:452-469 | deletes finished rows only |
| `FletcherQueue.JobTable.PatchInput` | fletcher/db.py:319-336 | edits queued rows only |
| `FletcherQueue.JobTable.ClearHistory` | fletcher/db.py:580-628 | refuses while any row is active; otherwise removes the job-linked rows, or all |
| `Progress.HundredIffDone` | backend/app.py:575-582 | the percentage is 100 exactly once "done" has been recorded, for both milestone lists |
| `Progress.PercentNeverGoesBack` | backend/app.py:575-582 | the percentage never decreases, whatever steps come in whatever order |
| `Progress.PercentIsShare` | backend/app.py:575-582 | until done, the percentage is 99 times the milestones reached over 25, or 29 with Option A, rounded down; reached is the furthest first milestone that any step so far stands for |
| `Progress.MilestonesEndWithDone` | backend/app.py:516-561 | "done" is the last milestone and appears in no other |
| `Progress.ProgressTracker.constructor` | backend/app.py:565-573 | a step is indexed by the first milestone that lists it |
| `Progress.ProgressTracker.Record` | backend/app.py:575-588 | the value shown is determined by the steps recorded so far |
| `FletcherWorker.WorkerRunEnds` | backend/app.py:638-829 | however other calls interleave, a worker's run ends the job with its verdict or leaves it cancelled, and stores 100 if and only if "done" was recorded |
| `FletcherWorker.TrackerIsStoredAsSent` | fletcher/db.py:431-436 | keeping the maximum never alters what the tracker sends |
| `FletcherWorker.ProcessNextJob` | backend/app.py:638-829 | one turn: nothing on an empty queue, otherwise the head is worked on with its own payload, Option A exactly if that has a job id, and ended with one verdict and its error, wherever the work failed; it shows the percentage of the steps recorded, and no other job is touched; in every table made by calls, that payload is the one enqueued and its edits |
| `FletcherWorker.EndMeans` | backend/app.py:638-829 | succeeded exactly when no error is left, the error of each way the work can end, and the percentage of the steps that were recorded by then |
| `ResumeStore.RunsAgree` | fletcher/db.py:1050-1302 | over any sequence of recordings, clears and refreshes: the newest version of each job, and no other, is the latest generated one, at most one is latest useful, at most one selected, and the job's columns name exactly these |
| `ResumeStore.ReadyJobsMatch` | backend/c3.py:108-141 | after any run of sound recordings a job marked ready passes the selection check: its refusal branch is unreachable |
| `ResumeStore.QueuePayloadIsSound` | fletcher/db.py:914-957 | what the queue records is sound, and selected if and only if a one-page PDF compiled and the job was ready |
| `ResumeStore.SelectedMatchesIffSound` | backend/c3.py:108-141 | a recording that selects passes the check if and only if it is sound |
| `ResumeStore.QueueSelectsNewest` | fletcher/db.py:918-951 | with queue recordings only, a selected version is always the newest and a useful one |
| `ResumeStore.RefreshKeepsAgreement` | fletcher/resume/review_store.py:208-311 | replacing the selected files keeps job, version and attempt in agreement |
| `ResumeStore.ClearKeepsAgreement` | fletcher/db.py:665-716 | clearing with or without ad-hoc runs keeps the tables in agreement |
| `ResumeStoreRows.RecordingShows` | fletcher/db.py:1050-1302 | a recording field by field: the attempt and version added, the flags taken from the job's earlier versions, the job's latest and selected columns, and nothing else |
| `ResumeStoreRows.JobShowsLastRecording` | fletcher/db.py:1050-1302 | after any run, a job shows status, files and ids of its last recording until the next or a clear; it is ready with that version if the recording selected it, not ready if it withdrew the selection, and as before otherwise |
| `ResumeStoreRows.ClearShows` | fletcher/db.py:665-716 | a clear leaves no job with a resume, and exactly the attempts and versions of no job if those are spared |
| `ResumeStoreRows.RefreshShows` | fletcher/resume/review_store.py:208-311 | a refresh puts the new files into job, version and attempt if the selection stands for them and all three had the files replaced, and changes nothing otherwise |
| `ResumeStoreRows.CheckIsExact` | backend/c3.py:108-141 | in any tables: the check passes if and only if the selection stands for a selected version of a successful useful attempt, all three with the same PDF |
| `ResumeStoreRows.QueueRecords` | fletcher/db.py:914-957 | the status, kind, flags and files the queue records, from what the pipeline delivered |
| `ResumeTables.Tables.RecordAttempt` | fletcher/db.py:1050-1302 | the statements, in order, amount to one recording |
| `ResumeTables.Tables.RecordQueueAttempt` | fletcher/db.py:857-957 | nothing without a LaTeX file, else the queue's payload is recorded |
| `ResumeTables.Tables.ClearGenerated` | fletcher/db.py:665-716 | the deletions and the reset of every job amount to one clear |
| `ResumeTables.Tables.RefreshSelected` | fletcher/resume/review_store.py:208-311 | refreshes only a selection that matches on every path |
| `PagedScan.ListingIsFilterAndTake` | fletcher/db.py:1365-1397 | the listing is the first wanted eligible rows of a whole-page prefix; of all rows when it is full or fewer than 5000 count; it differs only if the limit was hit |
| `PagedScan.ListingIsUnique` | fletcher/db.py:1365-1397 | rows, limit and page size determine the listing |
| `PagedScan.ListingStops` | fletcher/db.py:1365-1397 | the scan stops at the first page end at which enough rows are found, 5000 rows counted or none left |
| `PagedScan.ListJobsReadyForResume` | fletcher/db.py:1365-1397 | the loop terminates although suppressed rows do not count, stops at the first page with enough rows or the limit reached, and returns the listing |
| `PagedScan.ListReady` | fletcher/db.py:1376-1392 | no suppressed job and none whose very description was found unusable is listed, and a short listing of a small table misses none |
| `Highlight.RenderReadsBack` | backend/resume_review_ui.py:28-87 | removing the tags and unescaping gives the text back with exactly the characters inside spans marked |
| `Highlight.HighlightingIsUnique` | backend/resume_review_ui.py:55-87 | disjoint longest-at-start spans with no term starting outside one: at most one such list exists, so the page depends only on text and terms |
| `Highlight.CaseDoesNotMatter` | backend/resume_review_ui.py:65-69 | terms that differ in case only give the same highlighting |
| `Highlight.FindBest` | backend/resume_review_ui.py:63-76 | the leftmost, then longest, occurrence from a position, or none |
| `Highlight.HighlightTerms` | backend/resume_review_ui.py:55-87 | terminates with the page of that highlighting, which reads back to the text |
| `Highlight.EscapedIsSafe` | backend/resume_review_ui.py:28-87 | escaped text has no character that opens or closes a tag or an attribute |
| `KeywordCheck.PaddedSubstringIsWindow` | fletcher/keyword_check.py:25-34 | the padded keyword is a substring of the padded text if and only if its tokens are a contiguous window of the text's |
| `KeywordCheck.SplitSpacedIsRuns` | fletcher/keyword_check.py:10-12 | substituting other characters by spaces and splitting gives exactly the maximal runs of kept characters |
| `KeywordCheck.NormalizeForMatch` | fletcher/keyword_check.py:6-24 | the normalised text is the stemmed tokens joined by spaces |
| `KeywordCheck.KwInText` | fletcher/keyword_check.py:25-34 | true if and only if the keyword has tokens and they are a window of the text's |
| `KeywordCheck.OneWordMentions` | fletcher/keyword_check.py:25-34 | a keyword of one word of letters, digits, plus or hash signs is in a text if and only if its stem is one of the text's tokens |
| `KeywordCheck.FirstRestful` | fletcher/keyword_check.py:9-9 | the first whole word "restful" becomes "rest", the text before it stays and the rest is treated likewise |
| `KeywordCheck.NoRestful` | fletcher/keyword_check.py:9-9 | and a text without that word stays as it is |
| `KeywordCheck.StemsOfEndings` | fletcher/keyword_check.py:12-20 | what stemming makes of words ending in ies, ing, es and s, by their length, and that it leaves other words alone |
| `KeywordCheck.RunsOfWord` | fletcher/keyword_check.py:10-11 | a text of the 38 kept characters is one token before stemming |
| `KeywordCheck.RunsSplit` | fletcher/keyword_check.py:10-11 | and any other character separates |
| `KeywordCheck.PartitionKeywords` | fletcher/keyword_check.py:37-61 | keywords split in order into present and missing, with the exact ascending places of each hit |
| `KeywordCheck.PartitionIsComplete` | fletcher/keyword_check.py:50-61 | every keyword lands on exactly one side |
| `Handoff.OutcomesTellTheTruth` | backend/c3.py:214-271 | not sent means never transferred, confirmed means the service confirmed it, and only the last transfer can be in doubt |
| `Handoff.ConfirmationMeans` | backend/c3.py:222-271 | a transfer counts as confirmed if and only if the response is no error and lists one entry, for this job; otherwise the code reported is the response's, or 502 |
| `Handoff.DedupeKeepsFirst` | backend/c3.py:80-197 | jobs keep the order of their first occurrences |
| `Handoff.FirstRejectionIsFirst` | backend/c3.py:80-197 | the rejection reported is that of the first job rejected |
| `Handoff.PreparedJobs` | backend/c3.py:80-197 | all jobs once each in first-occurrence order, or the first rejection |
| `Handoff.Transfer` | backend/c3.py:222-271 | outcomes are a confirmed prefix, at most one unconfirmed, then not sent; the queue is the confirmations of that prefix; full success means all confirmed |
| `Handoff.Handoff` | backend/c3.py:199-271 | nothing is sent unless the selection is valid and every job in it was prepared |
| `Settings.AcceptedKeepsPairs` | backend/app.py:4357-4381 | a saved batch keeps low at most high for the three pairs, touched or not |
| `Settings.PairsAlwaysHold` | backend/app.py:4330-4414 | so do all histories of save requests from an empty table |
| `Settings.StaleBatchIsRefused` | backend/app.py:4344-4355 | no lost update: a batch that expects the row as it was before a later-stamped save is refused |
| `Settings.MergedIsResult` | backend/app.py:4357-4365 | the values checked before writing are the values stored after it |
| `SettingsClients.OnlySecretsAreWithheld` | backend/app.py:3259-3271 | a client is shown every column, but of a secret's value only whether there is one |
| `SettingsClients.SecretsDoNotShow` | backend/app.py:3259-3271 | two tables that differ in the values of secrets only look the same, also to a save that says what it expects |
| `SettingsClients.ExpectationMeans` | backend/app.py:4344-4355 | a save is as expected if and only if it expects nothing, or no row where there is none, or the row with every column as shown |
| `SettingsClients.SavedIsStored` | backend/app.py:4383-4414 | after a save each item's row is what the item says, with author and time; every other row is as it was |
| `SettingsClients.SavedPairIsOrdered` | backend/app.py:4357-4381 | after an accepted batch that sets one of a pair, both stored texts are numbers and the low one is at most the high one |
| `SettingsClients.LoneSettingIsBounded` | backend/app.py:4357-4381 | the first of a pair saved is held against the other's default: the exact numbers that pass, for all six settings |
| `Settings.SettingsTable.Save` | backend/app.py:4330-4414 | saved if and only if the batch is sized, valid, without repeats, as expected and in order; a conflict if and only if only the expectations and possibly the order fail; refused batches change nothing; each written row is reported back, without its value when secret |

## Left out

- ReachableInv: steps of other components that reopen a job's status are excluded; new jobs, deleted jobs, edits of other columns and the operator's skip are included. A new job never gets the id of a deleted one that has a run, since ids count up.
- RunPipeline: says nothing about which drafts a rewrite can produce; FloorKeptIffTellable and FitsIffSomeEntryHolds are exact for each draft. Entry identifiers are taken to be unique.
- FitIsGreedy: names the surviving bullets only when texts differ in the buckets above the floor, because the code removes by text hash; FitIsBounded and FitToPage need no such condition.
- AnyScheduleIsSafe: a finished future whose result handler itself raises is handled a second time by the code; handlers that raise are not modelled.
- ReadyJobsMatch: job rows are fixed at the start; the columns of other components enter as the readiness answer of each recording.
- Record: the percentage is an exact quotient rounded down, not a floating-point one; the milestone counters and names returned beside it are not modelled.
- Save: stored numbers are taken as parsed by one partial function, so a stored not-a-number that escapes the ordering check is not represented.
- Transactions of a cancel, a move or a progress update, which read first and write later on another connection, are single steps; a race between the read and the write is not modelled.
- Reconcile and lease completion read rows in transactions of their own; each is a step, and row order is arbitrary.
- How a fill result's free text becomes review flags (`coordinator/service.py:1126-1196`) enters as given flags.
- Scores (`_score_sources`, `_score_details` and the multipliers) enter as arbitrary real functions, so their formulas are not modelled; the losing score of RepeatedTextLosesTheFloor is one such function.
- `collect_highlight_terms` orders and de-duplicates the terms, which by HighlightingIsUnique cannot change the page.
- The row order of the paged scan and the two snapshots different pages may see are not modelled.
- Of the checks before a handoff only the selection check is modelled; the posting link, the file and the application type enter as one answer per job.
- Validation of a single setting's value, template synchronisation and the audit entry are outside the settings model.
- Files, PDFs, logs, ZIPs, notifications, HTTP, authentication, command lines and page templates are outside every model.

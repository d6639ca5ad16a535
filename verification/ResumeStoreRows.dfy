/** What the resume tables show of a recording, a clear or a refresh, row by row and from then on. */
module ResumeStoreRows {
  import opened Wrappers
  import opened ResumeStore

  // ----- one recording -----

  /** The columns a job shows of its last recording. */
  ghost predicate ShowsLatest(row: JobRow, attempt: nat, version: nat, p: Payload) {
    && row.status == Some(p.status) && row.latestPdf == Some(p.pdf) && row.latestTex == Some(p.tex)
    && row.latestAttempt == Some(attempt) && row.latestVersion == Some(version)
  }

  /** The columns a job shows of a selecting recording, of one that withdraws the selection, or of neither. */
  ghost predicate ShowsSelection(was: JobRow, row: JobRow, version: nat, p: Payload) {
    if p.selected then
      row.ready && row.selectedVersion == Some(version) && row.selectedPdf == Some(p.pdf)
      && row.selectedTex == Some(p.tex)
    else if p.clearExisting then
      !row.ready && row.selectedVersion.None? && row.selectedPdf.None? && row.selectedTex.None?
    else
      row.ready == was.ready && row.selectedVersion == was.selectedVersion && row.selectedPdf == was.selectedPdf
      && row.selectedTex == was.selectedTex
  }

  /** A recording adds one attempt and one version with its payload, takes the flags it claims from the job's
      earlier versions, and updates the job; nothing else changes. */
  lemma RecordingShows(s: Store, job: Option<nat>, p: Payload)
    requires forall v | v in s.versions :: v < s.nextVersion
    requires forall a | a in s.attempts :: a < s.nextAttempt
    ensures var s' := After(s, Record(job, p));
            var a, v := s.nextAttempt, s.nextVersion;
            && s'.attempts.Keys == s.attempts.Keys + {a}
            && (forall b | b in s.attempts :: s'.attempts[b] == s.attempts[b])
            && s'.attempts[a].job == job && s'.attempts[a].status == p.status && s'.attempts[a].kind == p.kind
            && s'.attempts[a].pdf == p.pdf && s'.attempts[a].tex == p.tex
            && s'.versions.Keys == s.versions.Keys + {v}
            && s'.versions[v].job == job && s'.versions[v].attempt == a && s'.versions[v].latestGenerated
            && s'.versions[v].latestUseful == p.useful && s'.versions[v].selected == p.selected
            && s'.versions[v].pdf == p.pdf && s'.versions[v].tex == p.tex
    ensures var s' := After(s, Record(job, p));
            forall w | w in s.versions ::
              var was, row := s.versions[w], s'.versions[w];
              && row.job == was.job && row.attempt == was.attempt && row.pdf == was.pdf && row.tex == was.tex
              && (was.job != job ==> row == was)
              && (was.job == job ==>
                    && !row.latestGenerated
                    && row.latestUseful == (was.latestUseful && !p.useful)
                    && row.selected == (was.selected && !p.selected && !p.clearExisting))
    ensures var s' := After(s, Record(job, p));
            && s'.jobs.Keys == s.jobs.Keys
            && forall j | j in s.jobs ::
                 if job == Some(j) then
                   ShowsLatest(s'.jobs[j], s.nextAttempt, s.nextVersion, p)
                   && ShowsSelection(s.jobs[j], s'.jobs[j], s.nextVersion, p)
                 else s'.jobs[j] == s.jobs[j]
  {
    RecordedRows(s, job, p);
    forall j | j in s.jobs { RecordedJob(s, job, p, j); }
    hide Recorded;
  }

  // ----- from then on -----

  /** Calls that record nothing more for the job and clear nothing. */
  predicate Leaves(op: Op, j: nat) {
    !op.Clear? && (op.Record? ==> op.job != Some(j))
  }

  lemma {:induction false} RunAppends(s: Store, ops: seq<Op>, more: seq<Op>)
    ensures Run(s, ops + more) == Run(Run(s, ops), more)
  {
    if more == [] {
      assert ops + more == ops;
    } else {
      assert (ops + more)[..|ops + more| - 1] == ops + more[..|more| - 1];
      RunAppends(s, ops, more[..|more| - 1]);
    }
  }

  lemma {:induction false} LatestStays(s: Store, ops: seq<Op>, j: nat, attempt: nat, version: nat, p: Payload)
    requires forall op | op in ops :: Leaves(op, j)
    requires j in s.jobs && ShowsLatest(s.jobs[j], attempt, version, p)
    ensures j in Run(s, ops).jobs && ShowsLatest(Run(s, ops).jobs[j], attempt, version, p)
    ensures Run(s, ops).jobs[j].ready == s.jobs[j].ready
    ensures Run(s, ops).jobs[j].selectedVersion == s.jobs[j].selectedVersion
  {
    if ops != [] {
      var before, op := ops[..|ops|-1], ops[|ops|-1];
      assert op in ops;
      LatestStays(s, before, j, attempt, version, p);
      OneCallLeaves(Run(s, before), op, j);
      hide After, Leaves;
    }
  }

  lemma OneCallLeaves(s: Store, op: Op, j: nat)
    requires Leaves(op, j) && j in s.jobs
    ensures var s' := After(s, op);
            && j in s'.jobs && s'.jobs[j].ready == s.jobs[j].ready
            && s'.jobs[j].selectedVersion == s.jobs[j].selectedVersion
            && s'.jobs[j].status == s.jobs[j].status
            && s'.jobs[j].latestPdf == s.jobs[j].latestPdf && s'.jobs[j].latestTex == s.jobs[j].latestTex
            && s'.jobs[j].latestAttempt == s.jobs[j].latestAttempt
            && s'.jobs[j].latestVersion == s.jobs[j].latestVersion
  {
    hide SelectedRow, PathsAgree;
  }

  /** From any state the system reaches: a job shows the status and files of its last recording, and is ready
      with that version exactly if it selected, or was so before and it neither selected nor withdrew. */
  lemma JobShowsLastRecording(s: Store, ops: seq<Op>, j: nat, p: Payload, more: seq<Op>)
    requires Initial(s) && j in s.jobs && forall op | op in more :: Leaves(op, j)
    ensures j in Run(s, ops).jobs && j in Run(s, ops + [Record(Some(j), p)] + more).jobs
    ensures var before := Run(s, ops);
            var row := Run(s, ops + [Record(Some(j), p)] + more).jobs[j];
            && ShowsLatest(row, before.nextAttempt, before.nextVersion, p)
            && row.ready == (p.selected || (before.jobs[j].ready && !p.clearExisting))
            && row.selectedVersion == (if p.selected then Some(before.nextVersion)
                                       else if p.clearExisting then None
                                       else before.jobs[j].selectedVersion)
  {
    RunsAgree(s, ops);
    var before := Run(s, ops);
    var recorded := After(before, Record(Some(j), p));
    RecordingShows(before, Some(j), p);
    assert (ops + [Record(Some(j), p)])[..|ops|] == ops;
    RunAppends(s, ops + [Record(Some(j), p)], more);
    LatestStays(recorded, more, j, before.nextAttempt, before.nextVersion, p);
    hide Run, After;
  }

  // ----- clearing and refreshing -----

  /** A clear leaves no job with a resume, and no attempt or version but, if they are spared, those of no job. */
  lemma ClearShows(s: Store, includeAdHoc: bool)
    requires Agreement(s)
    ensures var s' := After(s, Clear(includeAdHoc));
            && s'.jobs.Keys == s.jobs.Keys
            && (forall j | j in s'.jobs ::
                  var row := s'.jobs[j];
                  !row.ready && row.status.None? && row.latestVersion.None? && row.latestAttempt.None?
                  && row.latestPdf.None? && row.latestTex.None? && row.selectedVersion.None?
                  && row.selectedPdf.None? && row.selectedTex.None?)
            && (forall v: nat :: v in s'.versions <==> v in s.versions && !includeAdHoc && s.versions[v].job.None?)
            && (forall v | v in s'.versions :: s'.versions[v] == s.versions[v])
            && (forall a: nat :: a in s'.attempts <==> a in s.attempts && !includeAdHoc && s.attempts[a].job.None?)
            && (forall a | a in s'.attempts :: s'.attempts[a] == s.attempts[a])
  {
    ClearedRows(s, includeAdHoc);
    hide Cleared;
  }

  /** The version and attempt a ready job's selection stands for: its own, selected, successful and useful. */
  ghost predicate Selects(s: Store, j: nat, v: nat, a: nat) {
    && j in s.jobs && s.jobs[j].selectedVersion == Some(v)
    && v in s.versions && s.versions[v].job == Some(j) && s.versions[v].selected && s.versions[v].attempt == a
    && a in s.attempts && s.attempts[a].job == Some(j) && s.attempts[a].status in {"done", "done_with_flags"}
    && s.attempts[a].kind == "latest_useful"
  }

  predicate IsAt(resolve: string -> string, path: string, expected: string) {
    path != "" && resolve(path) == expected
  }

  /** All three tables have the files being replaced. */
  ghost predicate Replaceable(s: Store, j: nat, v: nat, a: nat, expected: (string, string), resolve: string -> string) {
    && Selects(s, j, v, a) && s.jobs[j].ready
    && s.jobs[j].selectedPdf.Some? && IsAt(resolve, s.jobs[j].selectedPdf.value, expected.0)
    && IsAt(resolve, s.versions[v].pdf, expected.0) && IsAt(resolve, s.attempts[a].pdf, expected.0)
    && s.jobs[j].selectedTex.Some? && IsAt(resolve, s.jobs[j].selectedTex.value, expected.1)
    && IsAt(resolve, s.versions[v].tex, expected.1) && IsAt(resolve, s.attempts[a].tex, expected.1)
  }

  /** A refresh puts the new files into the job's selection, its version and its attempt, if all three had the
      files being replaced; otherwise it changes nothing. */
  lemma RefreshShows(s: Store, j: nat, jobReady: bool, attempt: Option<nat>, expected: (string, string),
                     resolve: string -> string, pdf: string, tex: string)
    ensures var s' := After(s, Refresh(j, jobReady, attempt, expected, resolve, pdf, tex));
            && (forall v: nat, a: nat | Replaceable(s, j, v, a, expected, resolve) && jobReady
                                        && (attempt == None || attempt == Some(a)) ::
                  s' == s.(jobs := s.jobs[j := s.jobs[j].(selectedPdf := Some(pdf), selectedTex := Some(tex))],
                           versions := s.versions[v := s.versions[v].(pdf := pdf, tex := tex)],
                           attempts := s.attempts[a := s.attempts[a].(pdf := pdf, tex := tex)]))
            && ((forall v: nat, a: nat :: Replaceable(s, j, v, a, expected, resolve) ==>
                   !jobReady || (attempt != None && attempt != Some(a))) ==> s' == s)
  {
    if j in s.jobs {
      SelectedRowMeans(s, j);
      if s.jobs[j].selectedVersion.Some? && s.jobs[j].selectedVersion.value in s.versions {
        var v := s.jobs[j].selectedVersion.value;
        var a := s.versions[v].attempt;
        assert Selects(s, j, v, a) ==> (Replaceable(s, j, v, a, expected, resolve) <==>
            s.jobs[j].ready && PathsAgree(s, j, s.versions[v], s.attempts[a], resolve, expected.0, expected.1));
      }
    }
    hide SelectedRow, PathsAgree;
  }

  lemma SelectedRowMeans(s: Store, j: nat)
    requires j in s.jobs
    ensures forall v: nat, a: nat | Selects(s, j, v, a) :: SelectedRow(s, j) == Some((s.versions[v], s.attempts[a]))
    ensures SelectedRow(s, j).Some? ==>
              && s.jobs[j].selectedVersion.Some? && s.jobs[j].selectedVersion.value in s.versions
              && Selects(s, j, s.jobs[j].selectedVersion.value, s.versions[s.jobs[j].selectedVersion.value].attempt)
  {
  }

  /** In any tables at all, the check before an application lets a job through exactly if its selection stands
      for a version and an attempt with the same PDF as the job. */
  lemma CheckIsExact(s: Store, j: nat, resolve: string -> string)
    requires Selectable(s, j)
    ensures var path := resolve(s.jobs[j].selectedPdf.value);
            MatchesVersion(s, j, resolve) <==>
              exists v, a :: Selects(s, j, v, a) && IsAt(resolve, s.versions[v].pdf, path)
                             && IsAt(resolve, s.attempts[a].pdf, path)
  {
    SelectedRowMeans(s, j);
    hide SelectedRow;
  }

  /** What the queue records of a finished pipeline: a success exactly if a one-page PDF is there, and selected
      exactly if the job is ready too; every other recording withdraws the selection. */
  lemma QueueRecords(pdf: string, pdfExists: bool, compileStatus: string, onePage: bool, tex: string, jobReady: bool)
    ensures var p := QueuePayload(pdf, pdfExists, compileStatus, onePage, tex, jobReady);
            && p.pdf == pdf && p.tex == tex
            && (p.useful <==> pdf != "" && pdfExists && compileStatus == "ok" && onePage)
            && (p.selected <==> p.useful && jobReady) && (p.clearExisting <==> !p.selected)
            && (if p.useful then p.status == "done" && p.kind == "latest_useful"
                else p.status == "failed" && p.kind == "latest_generated")
  {
  }
}

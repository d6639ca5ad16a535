/** The statements of recording, clearing and checking, run on the three tables. */
module ResumeTables {
  import opened Wrappers
  import opened ResumeStore

  class Tables {
    var jobs: map<nat, JobRow>
    var attempts: map<nat, Attempt>
    var versions: map<nat, Version>
    var nextAttempt: nat
    var nextVersion: nat

    function State(): Store
      reads this
    {
      Store(jobs, attempts, versions, nextAttempt, nextVersion)
    }

    constructor (jobIds: set<nat>)
      ensures Initial(State()) && jobs.Keys == jobIds
    {
      jobs := map j | j in jobIds :: NO_RESUME;
      attempts, versions, nextAttempt, nextVersion := map[], map[], 1, 1;
    }

    method ClearEarlierFlags(job: Option<nat>, p: Payload)
      modifies this`versions
      ensures versions == UnflaggedAll(old(versions), job, p)
    {
      hide ClearFlags;
      versions := ClearFlags(versions, job, true, false, false);
      if p.useful {
        ClearFlagsTwice(old(versions), job, true, false, false, false, true, false);
        versions := ClearFlags(versions, job, false, true, false);
      }
      if p.selected || p.clearExisting {
        ClearFlagsTwice(old(versions), job, true, p.useful, false, false, false, true);
        versions := ClearFlags(versions, job, false, false, true);
      }
    }

    method RecordAttempt(job: Option<nat>, p: Payload) returns (attempt: nat, version: nat)
      modifies this
      ensures State() == Recorded(old(State()), job, p)
      ensures attempt == old(nextAttempt) && version == old(nextVersion)
    {
      attempt := nextAttempt;
      attempts := attempts[attempt := Attempt(job, p.status, p.kind, p.pdf, p.tex)];
      nextAttempt := nextAttempt + 1;
      ClearEarlierFlags(job, p);
      version := nextVersion;
      versions := versions[version := NewVersion(job, attempt, p)];
      nextVersion := nextVersion + 1;
      if job.Some? && job.value in jobs {
        jobs := jobs[job.value := UpdatedJob(jobs[job.value], attempt, version, p)];
      }
    }

    /** Promoting a finished queue result; nothing is recorded without a LaTeX file. */
    method RecordQueueAttempt(job: nat, tex: Option<string>, pdf: string, pdfExists: bool, compileStatus: string,
                              onePage: bool, jobReady: bool)
      returns (ids: Option<(nat, nat)>)
      modifies this
      ensures ids.None? <==> tex.None?
      ensures State() == if tex.None? then old(State())
                         else Recorded(old(State()), Some(job),
                                QueuePayload(pdf, pdfExists, compileStatus, onePage, tex.value, jobReady))
    {
      if tex.None? { return None; }
      var useful := pdf != "" && pdfExists && compileStatus == "ok" && onePage;
      var selected := useful && jobReady;
      var status, kind := "failed", "latest_generated";
      if useful { status, kind := "done", "latest_useful"; }
      var attempt, version := RecordAttempt(Some(job),
        Payload(status, kind, pdf, tex.value, useful, selected, !selected));
      ids := Some((attempt, version));
    }

    method DeleteVersions(gone: set<nat>, includeAdHoc: bool)
      modifies this`versions
      ensures versions == Spared(old(versions), gone, includeAdHoc)
    {
      if gone != {} {
        versions := map v | v in versions && versions[v].attempt !in gone :: versions[v];
      }
      if includeAdHoc {
        versions := map[];
      } else {
        versions := map v | v in versions && versions[v].job.None? :: versions[v];
      }
    }

    method ClearGenerated(includeAdHoc: bool)
      modifies this
      ensures State() == Cleared(old(State()), includeAdHoc)
    {
      var gone := DoomedAttempts(State(), includeAdHoc);
      DeleteVersions(gone, includeAdHoc);
      attempts := attempts - gone;
      jobs := map j | j in jobs :: NO_RESUME;
    }

    method RefreshSelected(j: nat, jobReady: bool, attempt: Option<nat>, expected: (string, string),
                           resolve: string -> string, pdf: string, tex: string)
      modifies this
      ensures State() == Refreshed(old(State()), j, jobReady, attempt, expected, resolve, pdf, tex)
    {
      if j !in jobs || !jobs[j].ready || !jobReady { return; }
      var row := SelectedRow(State(), j);
      if row.None? || (attempt.Some? && attempt.value != row.value.0.attempt) { return; }
      var (version, att) := row.value;
      if !PathsAgree(State(), j, version, att, resolve, expected.0, expected.1) { return; }
      var id := jobs[j].selectedVersion.value;
      versions := versions[id := version.(pdf := pdf, tex := tex)];
      attempts := attempts[version.attempt := att.(pdf := pdf, tex := tex)];
      jobs := jobs[j := jobs[j].(selectedPdf := Some(pdf), selectedTex := Some(tex))];
    }
  }
}

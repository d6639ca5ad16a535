/**
  Resume attempts, versions and the selection columns of jobs: recording, clearing and refreshing
  them, the agreement the three tables keep, and the check the next component makes of it.
 */
module ResumeStore {
  import opened Wrappers

  datatype Attempt = Attempt(job: Option<nat>, status: string, kind: string, pdf: string, tex: string)

  datatype Version = Version(job: Option<nat>, attempt: nat, pdf: string, tex: string,
                             latestGenerated: bool, latestUseful: bool, selected: bool)

  /** The resume columns of a job. */
  datatype JobRow = JobRow(status: Option<string>, latestAttempt: Option<nat>, latestVersion: Option<nat>,
                           latestPdf: Option<string>, latestTex: Option<string>,
                           selectedVersion: Option<nat>, selectedPdf: Option<string>,
                           selectedTex: Option<string>, ready: bool)

  const NO_RESUME := JobRow(None, None, None, None, None, None, None, None, false)

  datatype Store = Store(jobs: map<nat, JobRow>, attempts: map<nat, Attempt>, versions: map<nat, Version>,
                         nextAttempt: nat, nextVersion: nat)

  datatype Payload = Payload(status: string, kind: string, pdf: string, tex: string,
                             useful: bool, selected: bool, clearExisting: bool)

  // ----- recording -----

  /** `UPDATE resume_versions SET flag = FALSE …` for the named flags of the job's versions. */
  function ClearFlags(versions: map<nat, Version>, job: Option<nat>, generated: bool, useful: bool,
                      selected: bool): map<nat, Version>
  {
    map v | v in versions ::
      if versions[v].job != job then versions[v]
      else versions[v].(latestGenerated := versions[v].latestGenerated && !generated,
                        latestUseful := versions[v].latestUseful && !useful,
                        selected := versions[v].selected && !selected)
  }

  lemma ClearFlagsTwice(versions: map<nat, Version>, job: Option<nat>, g: bool, u: bool, s: bool,
                        g': bool, u': bool, s': bool)
    ensures ClearFlags(ClearFlags(versions, job, g, u, s), job, g', u', s')
            == ClearFlags(versions, job, g || g', u || u', s || s')
  {
    var once := ClearFlags(versions, job, g, u, s);
    forall v | v in versions ensures once[v].job == versions[v].job {}
  }

  /** What recording does to the flags of the job's earlier versions. */
  function Unflagged(v: Version, p: Payload): Version {
    v.(latestGenerated := false,
       latestUseful := v.latestUseful && !p.useful,
       selected := v.selected && !(p.selected || p.clearExisting))
  }

  function UnflaggedAll(versions: map<nat, Version>, job: Option<nat>, p: Payload): map<nat, Version> {
    ClearFlags(versions, job, true, p.useful, p.selected || p.clearExisting)
  }

  function NewVersion(job: Option<nat>, attempt: nat, p: Payload): Version {
    Version(job, attempt, p.pdf, p.tex, true, p.useful, p.selected)
  }

  function UpdatedJob(row: JobRow, attempt: nat, version: nat, p: Payload): JobRow {
    var latest := row.(status := Some(p.status), latestAttempt := Some(attempt), latestVersion := Some(version),
                       latestPdf := Some(p.pdf), latestTex := Some(p.tex));
    if p.selected then
      latest.(selectedVersion := Some(version), selectedPdf := Some(p.pdf), selectedTex := Some(p.tex), ready := true)
    else if p.clearExisting then
      latest.(selectedVersion := None, selectedPdf := None, selectedTex := None, ready := false)
    else latest
  }

  function Recorded(s: Store, job: Option<nat>, p: Payload): Store {
    var a, v := s.nextAttempt, s.nextVersion;
    Store(
      if job.Some? && job.value in s.jobs
      then s.jobs[job.value := UpdatedJob(s.jobs[job.value], a, v, p)] else s.jobs,
      s.attempts[a := Attempt(job, p.status, p.kind, p.pdf, p.tex)],
      UnflaggedAll(s.versions, job, p)[v := NewVersion(job, a, p)],
      a + 1, v + 1)
  }

  /** The payload the queue records: useful when a one-page PDF compiled, selected when the job is
      ready as well; otherwise any earlier selection is withdrawn. */
  function QueuePayload(pdf: string, pdfExists: bool, compileStatus: string, onePage: bool, tex: string,
                        jobReady: bool): Payload
  {
    var useful := pdf != "" && pdfExists && compileStatus == "ok" && onePage;
    Payload(if useful then "done" else "failed", if useful then "latest_useful" else "latest_generated",
            pdf, tex, useful, useful && jobReady, !(useful && jobReady))
  }

  // ----- clearing -----

  function DoomedAttempts(s: Store, includeAdHoc: bool): set<nat> {
    set a | a in s.attempts && (includeAdHoc || s.attempts[a].job.Some?)
  }

  function Spared(versions: map<nat, Version>, gone: set<nat>, includeAdHoc: bool): map<nat, Version> {
    map v | v in versions && versions[v].attempt !in gone && !includeAdHoc && versions[v].job.None? :: versions[v]
  }

  function Cleared(s: Store, includeAdHoc: bool): Store {
    var gone := DoomedAttempts(s, includeAdHoc);
    Store(map j | j in s.jobs :: NO_RESUME,
          s.attempts - gone,
          Spared(s.versions, gone, includeAdHoc),
          s.nextAttempt, s.nextVersion)
  }

  // ----- the selection check -----

  /** The version a job's selection names, if it is a selected version of a successful attempt. */
  function SelectedRow(s: Store, j: nat): Option<(Version, Attempt)>
    requires j in s.jobs
  {
    var id := s.jobs[j].selectedVersion;
    if id.None? || id.value !in s.versions then None
    else
      var v := s.versions[id.value];
      if v.attempt !in s.attempts then None
      else
        var a := s.attempts[v.attempt];
        if v.job == Some(j) && a.job == Some(j) && v.selected
           && (a.status == "done" || a.status == "done_with_flags") && a.kind == "latest_useful"
        then Some((v, a)) else None
  }

  /** The job is marked ready and names a selected PDF and version: the check below is reached. */
  predicate Selectable(s: Store, j: nat) {
    j in s.jobs && s.jobs[j].ready && s.jobs[j].selectedPdf.Some? && s.jobs[j].selectedPdf.value != ""
    && s.jobs[j].selectedVersion.Some?
  }

  /** The selection matches its version and attempt; otherwise the job is turned away. */
  predicate MatchesVersion(s: Store, j: nat, resolve: string -> string)
    requires Selectable(s, j)
  {
    var row := SelectedRow(s, j);
    var path := resolve(s.jobs[j].selectedPdf.value);
    row.Some? && row.value.0.pdf != "" && row.value.1.pdf != ""
    && path == resolve(row.value.0.pdf) && path == resolve(row.value.1.pdf)
  }

  // ----- refreshing the selected document after a review edit -----

  predicate PathsAgree(s: Store, j: nat, v: Version, a: Attempt, resolve: string -> string, pdf: string, tex: string)
    requires j in s.jobs
  {
    var row := s.jobs[j];
    && row.selectedPdf.Some? && row.selectedTex.Some?
    && row.selectedPdf.value != "" && v.pdf != "" && a.pdf != ""
    && row.selectedTex.value != "" && v.tex != "" && a.tex != ""
    && resolve(row.selectedPdf.value) == resolve(v.pdf) == resolve(a.pdf) == pdf
    && resolve(row.selectedTex.value) == resolve(v.tex) == resolve(a.tex) == tex
  }

  function Replaced(s: Store, j: nat, v: nat, pdf: string, tex: string): Store
    requires j in s.jobs && v in s.versions && s.versions[v].attempt in s.attempts
  {
    var a := s.versions[v].attempt;
    s.(versions := s.versions[v := s.versions[v].(pdf := pdf, tex := tex)],
       attempts := s.attempts[a := s.attempts[a].(pdf := pdf, tex := tex)],
       jobs := s.jobs[j := s.jobs[j].(selectedPdf := Some(pdf), selectedTex := Some(tex))])
  }

  /** `expected` are the paths of the document being replaced. */
  function Refreshed(s: Store, j: nat, jobReady: bool, attempt: Option<nat>, expected: (string, string),
                     resolve: string -> string, pdf: string, tex: string): Store
  {
    if j !in s.jobs || !s.jobs[j].ready || !jobReady then s
    else
      var row := SelectedRow(s, j);
      if row.None? || (attempt.Some? && attempt.value != row.value.0.attempt)
         || !PathsAgree(s, j, row.value.0, row.value.1, resolve, expected.0, expected.1)
      then s
      else Replaced(s, j, s.jobs[j].selectedVersion.value, pdf, tex)
  }

  // ----- runs -----

  datatype Op =
    | Record(job: Option<nat>, payload: Payload)
    | Clear(includeAdHoc: bool)
    | Refresh(owner: nat, jobReady: bool, attempt: Option<nat>, expected: (string, string),
              resolve: string -> string, pdf: string, tex: string)

  function After(s: Store, op: Op): Store {
    match op
    case Record(job, p) => Recorded(s, job, p)
    case Clear(includeAdHoc) => Cleared(s, includeAdHoc)
    case Refresh(j, ready, attempt, expected, resolve, pdf, tex) =>
      Refreshed(s, j, ready, attempt, expected, resolve, pdf, tex)
  }

  function Run(s: Store, ops: seq<Op>): Store {
    if ops == [] then s else After(Run(s, ops[..|ops|-1]), ops[|ops|-1])
  }

  /** A database with some jobs and no resumes yet. */
  predicate Initial(s: Store) {
    s.attempts == map[] && s.versions == map[] && forall j | j in s.jobs :: s.jobs[j] == NO_RESUME
  }

  // ----- agreement -----

  predicate SameJob(s: Store, v: nat, w: nat) {
    v in s.versions && w in s.versions && s.versions[v].job == s.versions[w].job
  }

  /** Exactly the newest version of each job is the latest generated one. */
  ghost predicate NewestIsLatest(s: Store) {
    forall v | v in s.versions ::
      s.versions[v].latestGenerated <==> forall w: nat :: SameJob(s, v, w) ==> w <= v
  }

  ghost predicate FlagsUnique(s: Store) {
    forall v, w | SameJob(s, v, w) && v != w ::
      !(s.versions[v].latestUseful && s.versions[w].latestUseful)
      && !(s.versions[v].selected && s.versions[w].selected)
  }

  /** Rows refer to rows that exist and belong to the same job; ids grow. */
  ghost predicate Linked(s: Store) {
    && (forall v | v in s.versions ::
          && v < s.nextVersion && s.versions[v].attempt in s.attempts
          && s.attempts[s.versions[v].attempt].job == s.versions[v].job
          && s.attempts[s.versions[v].attempt].pdf == s.versions[v].pdf)
    && (forall v, w | v in s.versions && w in s.versions && v != w :: s.versions[v].attempt != s.versions[w].attempt)
    && forall a | a in s.attempts :: a < s.nextAttempt
  }

  /** The job's selection columns name exactly its selected version, with that version's files. */
  ghost predicate SelectionAgrees(s: Store, j: nat)
    requires j in s.jobs
  {
    var row := s.jobs[j];
    && (row.ready <==> row.selectedVersion.Some?)
    && (forall v | v in s.versions && s.versions[v].job == Some(j) ::
          s.versions[v].selected <==> row.selectedVersion == Some(v))
    && (row.selectedVersion.Some? ==>
          && row.selectedVersion.value in s.versions
          && s.versions[row.selectedVersion.value].job == Some(j)
          && row.selectedPdf == Some(s.versions[row.selectedVersion.value].pdf)
          && row.selectedTex == Some(s.versions[row.selectedVersion.value].tex))
    && (row.selectedVersion.None? ==> row.selectedPdf.None? && row.selectedTex.None?)
  }

  /** The job's latest columns name its newest version and that version's attempt. */
  ghost predicate LatestAgrees(s: Store, j: nat)
    requires j in s.jobs
  {
    var row := s.jobs[j];
    && (row.latestVersion.Some? ==>
          && row.latestVersion.value in s.versions
          && s.versions[row.latestVersion.value].job == Some(j)
          && s.versions[row.latestVersion.value].latestGenerated
          && row.latestAttempt == Some(s.versions[row.latestVersion.value].attempt))
    && (row.latestVersion.None? ==> forall v | v in s.versions :: s.versions[v].job != Some(j))
  }

  ghost predicate Agreement(s: Store) {
    && Linked(s) && NewestIsLatest(s) && FlagsUnique(s)
    && forall j | j in s.jobs :: SelectionAgrees(s, j) && LatestAgrees(s, j)
  }

  lemma RecordedRows(s: Store, job: Option<nat>, p: Payload)
    requires forall v | v in s.versions :: v < s.nextVersion
    ensures var s' := Recorded(s, job, p);
            && s'.versions.Keys == s.versions.Keys + {s.nextVersion}
            && s'.versions[s.nextVersion] == NewVersion(job, s.nextAttempt, p)
            && (forall v | v in s.versions ::
                  s'.versions[v] == if s.versions[v].job == job then Unflagged(s.versions[v], p) else s.versions[v])
            && s'.attempts == s.attempts[s.nextAttempt := Attempt(job, p.status, p.kind, p.pdf, p.tex)]
            && s'.nextVersion == s.nextVersion + 1 && s'.nextAttempt == s.nextAttempt + 1
  {
  }

  lemma RecordKeepsLinks(s: Store, job: Option<nat>, p: Payload)
    requires Linked(s)
    ensures Linked(Recorded(s, job, p))
  {
    RecordedRows(s, job, p);
    hide Recorded;
    var s' := Recorded(s, job, p);
    forall v | v in s.versions
      ensures s'.versions[v].attempt == s.versions[v].attempt != s.nextAttempt
      ensures s'.versions[v].job == s.versions[v].job && s'.versions[v].pdf == s.versions[v].pdf
    {
    }
    hide Unflagged;
  }

  lemma RecordKeepsNewest(s: Store, job: Option<nat>, p: Payload)
    requires Linked(s) && NewestIsLatest(s)
    ensures NewestIsLatest(Recorded(s, job, p))
  {
    RecordedRows(s, job, p);
    hide Recorded;
    var s', n := Recorded(s, job, p), s.nextVersion;
    forall v | v in s'.versions
      ensures s'.versions[v].latestGenerated <==> forall w: nat :: SameJob(s', v, w) ==> w <= v
    {
      if v == n {
      } else if s.versions[v].job == job {
        assert SameJob(s', v, n);
      } else {
        forall w: nat ensures SameJob(s', v, w) <==> SameJob(s, v, w) {}
      }
    }
  }

  lemma RecordKeepsFlags(s: Store, job: Option<nat>, p: Payload)
    requires Linked(s) && FlagsUnique(s)
    ensures FlagsUnique(Recorded(s, job, p))
  {
    RecordedRows(s, job, p);
    hide Recorded;
    var s', n := Recorded(s, job, p), s.nextVersion;
    forall v, w: nat | SameJob(s', v, w) && v != n && w != n ensures SameJob(s, v, w) {}
  }

  lemma RecordKeepsSelection(s: Store, job: Option<nat>, p: Payload, j: nat)
    requires Linked(s) && j in s.jobs && SelectionAgrees(s, j)
    ensures SelectionAgrees(Recorded(s, job, p), j)
  {
    RecordedRows(s, job, p);
    RecordedJob(s, job, p, j);
    hide Recorded;
  }

  lemma RecordKeepsLatest(s: Store, job: Option<nat>, p: Payload, j: nat)
    requires Linked(s) && j in s.jobs && LatestAgrees(s, j)
    ensures LatestAgrees(Recorded(s, job, p), j)
  {
    RecordedRows(s, job, p);
    RecordedJob(s, job, p, j);
    hide Recorded;
  }

  lemma RecordedJob(s: Store, job: Option<nat>, p: Payload, j: nat)
    requires j in s.jobs
    ensures var s' := Recorded(s, job, p);
            && s'.jobs.Keys == s.jobs.Keys
            && s'.jobs[j] == if job == Some(j) then UpdatedJob(s.jobs[j], s.nextAttempt, s.nextVersion, p)
                             else s.jobs[j]
  {
  }

  lemma ClearedRows(s: Store, includeAdHoc: bool)
    requires Linked(s)
    ensures var s' := Cleared(s, includeAdHoc);
            && s'.jobs.Keys == s.jobs.Keys && (forall j | j in s'.jobs :: s'.jobs[j] == NO_RESUME)
            && (forall v: nat :: v in s'.versions <==> v in s.versions && !includeAdHoc && s.versions[v].job.None?)
            && (forall v | v in s'.versions :: s'.versions[v] == s.versions[v])
            && (forall a: nat :: a in s'.attempts <==> a in s.attempts && !includeAdHoc && s.attempts[a].job.None?)
            && (forall a | a in s'.attempts :: s'.attempts[a] == s.attempts[a])
            && s'.nextVersion == s.nextVersion && s'.nextAttempt == s.nextAttempt
  {
  }

  lemma ClearKeepsLinks(s: Store, includeAdHoc: bool)
    requires Linked(s)
    ensures Linked(Cleared(s, includeAdHoc))
  {
    ClearedRows(s, includeAdHoc);
    hide Cleared;
  }

  lemma ClearKeepsFlags(s: Store, includeAdHoc: bool)
    requires Linked(s) && NewestIsLatest(s) && FlagsUnique(s)
    ensures NewestIsLatest(Cleared(s, includeAdHoc)) && FlagsUnique(Cleared(s, includeAdHoc))
  {
    ClearedRows(s, includeAdHoc);
    hide Cleared, Linked;
    var s' := Cleared(s, includeAdHoc);
    forall v, w: nat | v in s'.versions ensures SameJob(s', v, w) <==> SameJob(s, v, w) {}
    forall v, w: nat | SameJob(s', v, w) ensures SameJob(s, v, w) {}
  }

  lemma ClearKeepsAgreement(s: Store, includeAdHoc: bool)
    requires Agreement(s)
    ensures Agreement(Cleared(s, includeAdHoc))
  {
    ClearedRows(s, includeAdHoc);
    ClearKeepsLinks(s, includeAdHoc);
    ClearKeepsFlags(s, includeAdHoc);
    hide Cleared, Linked, NewestIsLatest, FlagsUnique;
  }

  lemma ReplaceKeepsAgreement(s: Store, j: nat, v: nat, pdf: string, tex: string)
    requires Agreement(s) && j in s.jobs && s.jobs[j].selectedVersion == Some(v)
    requires v in s.versions && s.versions[v].job == Some(j)
    ensures Agreement(Replaced(s, j, v, pdf, tex))
  {
    hide NewestIsLatest, FlagsUnique, SelectionAgrees, LatestAgrees;
    var s' := Replaced(s, j, v, pdf, tex);
    ReplaceKeepsFlags(s, j, v, pdf, tex);
    ReplaceKeepsLinks(s, j, v, pdf, tex);
    forall i | i in s'.jobs ensures SelectionAgrees(s', i) && LatestAgrees(s', i) {
      ReplaceKeepsJob(s, j, v, pdf, tex, i);
    }
  }

  lemma ReplaceKeepsFlags(s: Store, j: nat, v: nat, pdf: string, tex: string)
    requires NewestIsLatest(s) && FlagsUnique(s) && j in s.jobs && v in s.versions
    requires s.versions[v].attempt in s.attempts
    ensures NewestIsLatest(Replaced(s, j, v, pdf, tex)) && FlagsUnique(Replaced(s, j, v, pdf, tex))
  {
    var s' := Replaced(s, j, v, pdf, tex);
    forall v, w: nat ensures SameJob(s', v, w) <==> SameJob(s, v, w) {}
  }

  lemma ReplaceKeepsLinks(s: Store, j: nat, v: nat, pdf: string, tex: string)
    requires Linked(s) && j in s.jobs && v in s.versions
    ensures Linked(Replaced(s, j, v, pdf, tex))
  {
  }

  lemma ReplaceKeepsJob(s: Store, j: nat, v: nat, pdf: string, tex: string, i: nat)
    requires Linked(s) && j in s.jobs && s.jobs[j].selectedVersion == Some(v)
    requires v in s.versions && s.versions[v].job == Some(j)
    requires i in s.jobs && SelectionAgrees(s, i) && LatestAgrees(s, i)
    ensures SelectionAgrees(Replaced(s, j, v, pdf, tex), i) && LatestAgrees(Replaced(s, j, v, pdf, tex), i)
  {
  }

  lemma RefreshKeepsAgreement(s: Store, j: nat, ready: bool, attempt: Option<nat>, expected: (string, string),
                              resolve: string -> string, pdf: string, tex: string)
    requires Agreement(s)
    ensures Agreement(Refreshed(s, j, ready, attempt, expected, resolve, pdf, tex))
  {
    if Refreshed(s, j, ready, attempt, expected, resolve, pdf, tex) != s {
      ReplaceKeepsAgreement(s, j, s.jobs[j].selectedVersion.value, pdf, tex);
    }
  }

  /** Every run of recordings, clears and refreshes keeps the three tables in agreement. */
  lemma {:induction false} RunsAgree(s: Store, ops: seq<Op>)
    requires Initial(s)
    ensures Agreement(Run(s, ops)) && Run(s, ops).jobs.Keys == s.jobs.Keys
  {
    if ops != [] {
      var before := ops[..|ops|-1];
      RunsAgree(s, before);
      var r := Run(s, before);
      match ops[|ops|-1]
      case Record(job, p) =>
        RecordKeepsLinks(r, job, p);
        RecordKeepsNewest(r, job, p);
        RecordKeepsFlags(r, job, p);
        forall j | j in Recorded(r, job, p).jobs
          ensures SelectionAgrees(Recorded(r, job, p), j) && LatestAgrees(Recorded(r, job, p), j)
        {
          RecordKeepsSelection(r, job, p, j);
          RecordKeepsLatest(r, job, p, j);
        }
      case Clear(includeAdHoc) =>
        ClearKeepsAgreement(r, includeAdHoc);
      case Refresh(j, ready, attempt, expected, resolve, pdf, tex) =>
        RefreshKeepsAgreement(r, j, ready, attempt, expected, resolve, pdf, tex);
    }
  }

  // ----- when the selection check cannot fail -----

  /** A recording whose selected version is a successful, useful attempt with a PDF. */
  predicate Sound(p: Payload) {
    p.selected ==> (p.status == "done" || p.status == "done_with_flags") && p.kind == "latest_useful" && p.pdf != ""
  }

  lemma QueuePayloadIsSound(pdf: string, pdfExists: bool, compileStatus: string, onePage: bool, tex: string,
                            jobReady: bool)
    ensures var p := QueuePayload(pdf, pdfExists, compileStatus, onePage, tex, jobReady);
            Sound(p) && (p.selected ==> p.useful) && p.clearExisting == !p.selected
            && (p.selected <==> pdf != "" && pdfExists && compileStatus == "ok" && onePage && jobReady)
  {
  }

  predicate SoundOp(op: Op) {
    match op
    case Record(_, p) => Sound(p)
    case Clear(_) => true
    case Refresh(_, _, _, _, _, pdf, _) => pdf != ""
  }

  ghost predicate SelectionsSucceeded(s: Store)
    requires Linked(s)
  {
    forall v | v in s.versions && s.versions[v].selected ::
      var a := s.attempts[s.versions[v].attempt];
      (a.status == "done" || a.status == "done_with_flags") && a.kind == "latest_useful" && a.pdf != ""
  }

  lemma {:induction false} SoundRunsSelectSuccess(s: Store, ops: seq<Op>)
    requires Initial(s) && forall op | op in ops :: SoundOp(op)
    ensures Linked(Run(s, ops)) && SelectionsSucceeded(Run(s, ops))
  {
    RunsAgree(s, ops);
    if ops != [] {
      var before := ops[..|ops|-1];
      SoundRunsSelectSuccess(s, before);
      RunsAgree(s, before);
      var r := Run(s, before);
      assert ops[|ops|-1] in ops && After(r, ops[|ops|-1]) == Run(s, ops);
      StepSelectsSuccess(r, ops[|ops|-1]);
    }
  }

  lemma StepSelectsSuccess(s: Store, op: Op)
    requires Agreement(s) && SelectionsSucceeded(s) && SoundOp(op) && Linked(After(s, op))
    ensures SelectionsSucceeded(After(s, op))
  {
    hide Recorded, Cleared;
    match op {
      case Record(job, p) => RecordedRows(s, job, p);
      case Clear(includeAdHoc) => ClearedRows(s, includeAdHoc);
      case Refresh(_, _, _, _, _, _, _) =>
    }
    var s' := After(s, op);
    forall v | v in s'.versions && s'.versions[v].selected
      ensures var a := s'.attempts[s'.versions[v].attempt];
              (a.status == "done" || a.status == "done_with_flags") && a.kind == "latest_useful" && a.pdf != ""
    {
      if v in s.versions { assert s.versions[v].selected; }
    }
  }

  /** After any run of sound recordings, a job marked ready always passes the selection check. */
  lemma ReadyJobsMatch(s: Store, ops: seq<Op>, j: nat, resolve: string -> string)
    requires Initial(s) && forall op | op in ops :: SoundOp(op)
    requires j in Run(s, ops).jobs && Run(s, ops).jobs[j].ready
    ensures Selectable(Run(s, ops), j) && MatchesVersion(Run(s, ops), j, resolve)
  {
    RunsAgree(s, ops);
    SoundRunsSelectSuccess(s, ops);
    var r := Run(s, ops);
    assert SelectionAgrees(r, j);
    var v := r.jobs[j].selectedVersion.value;
    assert r.versions[v].selected;
  }

  /** A recording that selects passes the check exactly when it is sound. */
  lemma SelectedMatchesIffSound(s: Store, j: nat, p: Payload, resolve: string -> string)
    requires Agreement(s) && j in s.jobs && p.selected
    ensures var s' := Recorded(s, Some(j), p);
            Selectable(s', j) && MatchesVersion(s', j, resolve) <==> Sound(p)
  {
  }

  /** Recordings made by the queue, on any job. */
  ghost predicate FromQueue(op: Op) {
    op.Record? ==> op.job.Some? && op.payload.selected == !op.payload.clearExisting
                   && (op.payload.selected ==> op.payload.useful)
  }

  ghost predicate SelectedIsNewest(s: Store) {
    forall v | v in s.versions && s.versions[v].selected :: s.versions[v].latestGenerated && s.versions[v].latestUseful
  }

  lemma QueueStepSelectsNewest(s: Store, op: Op)
    requires Agreement(s) && SelectedIsNewest(s) && FromQueue(op)
    ensures SelectedIsNewest(After(s, op))
  {
    hide Recorded, Cleared;
    match op
    case Record(job, p) => RecordedRows(s, job, p);
    case Clear(includeAdHoc) => ClearedRows(s, includeAdHoc);
    case Refresh(j, ready, attempt, expected, resolve, pdf, tex) =>
  }

  /** With queue recordings only, the selected version is the newest one, and a useful one. */
  lemma {:induction false} QueueSelectsNewest(s: Store, ops: seq<Op>)
    requires Initial(s) && forall op | op in ops :: FromQueue(op)
    ensures SelectedIsNewest(Run(s, ops))
  {
    if ops != [] {
      var before := ops[..|ops|-1];
      RunsAgree(s, before);
      QueueSelectsNewest(s, before);
      assert ops[|ops|-1] in ops;
      QueueStepSelectsNewest(Run(s, before), ops[|ops|-1]);
    }
  }
}

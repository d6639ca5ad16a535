/**
  Listing jobs ready for a resume by reading sorted rows page by page, against filter-and-take.
  Suppressed rows do not count towards the scan limit; rows to skip do.
 */
module PagedScan {
  import opened Wrappers

  const MAX_SCAN := 5000

  predicate Eligible<T(!new)>(row: T, suppressed: T -> bool, skip: T -> bool) {
    !suppressed(row) && !skip(row)
  }

  function Wanted<T(!new)>(rows: seq<T>, suppressed: T -> bool, skip: T -> bool): seq<T> {
    if rows == [] then []
    else
      var n := |rows| - 1;
      if Eligible(rows[n], suppressed, skip)
      then Wanted(rows[..n], suppressed, skip) + [rows[n]] else Wanted(rows[..n], suppressed, skip)
  }

  function Counted<T(!new)>(rows: seq<T>, suppressed: T -> bool): nat {
    if rows == [] then 0
    else Counted(rows[..|rows|-1], suppressed) + if suppressed(rows[|rows|-1]) then 0 else 1
  }

  function Take<T>(s: seq<T>, n: nat): seq<T> {
    if |s| <= n then s else s[..n]
  }

  function Min(a: nat, b: nat): nat { if a < b then a else b }

  /** The rows of the first `pages` pages. */
  function Pages<T>(rows: seq<T>, batch: nat, pages: nat): seq<T> {
    rows[..Min(pages * batch, |rows|)]
  }

  /** Scanning goes on: not enough found, the limit not reached, rows left. */
  ghost predicate GoesOn<T(!new)>(rows: seq<T>, suppressed: T -> bool, skip: T -> bool, want: nat, batch: nat,
                                  pages: nat)
  {
    && |Wanted(Pages(rows, batch, pages), suppressed, skip)| < want
    && Counted(Pages(rows, batch, pages), suppressed) < MAX_SCAN
    && pages * batch < |rows|
  }

  /** The page at which scanning stops, and what has been collected by then. */
  ghost predicate IsListing<T(!new)>(rows: seq<T>, suppressed: T -> bool, skip: T -> bool, want: nat, batch: nat,
                                     out: seq<T>)
  {
    exists pages: nat ::
      && (forall k: nat | k < pages :: GoesOn(rows, suppressed, skip, want, batch, k))
      && !GoesOn(rows, suppressed, skip, want, batch, pages)
      && out == Take(Wanted(Pages(rows, batch, pages), suppressed, skip), want)
  }

  lemma {:induction false} WantedOfPrefix<T(!new)>(rows: seq<T>, suppressed: T -> bool, skip: T -> bool, n: nat)
    requires n <= |rows|
    ensures Wanted(rows[..n], suppressed, skip) <= Wanted(rows, suppressed, skip)
    ensures Counted(rows[..n], suppressed) <= Counted(rows, suppressed)
    decreases |rows|
  {
    if n == |rows| {
      assert rows[..n] == rows;
    } else {
      var m := |rows| - 1;
      assert rows[..m][..n] == rows[..n];
      WantedOfPrefix(rows[..m], suppressed, skip, n);
    }
  }

  /** The listing is unique, and below the scan limit it is filter-and-take over all rows. */
  lemma ListingIsFilterAndTake<T(!new)>(rows: seq<T>, suppressed: T -> bool, skip: T -> bool, want: nat,
                                        batch: nat, out: seq<T>)
    requires batch > 0 && IsListing(rows, suppressed, skip, want, batch, out)
    ensures |out| <= want && out <= Wanted(rows, suppressed, skip)
    ensures |out| == want || Counted(rows, suppressed) < MAX_SCAN
            ==> out == Take(Wanted(rows, suppressed, skip), want)
    ensures out != Take(Wanted(rows, suppressed, skip), want)
            ==> exists pages: nat ::
                  Counted(Pages(rows, batch, pages), suppressed) >= MAX_SCAN
                  && out == Wanted(Pages(rows, batch, pages), suppressed, skip)
  {
    var pages: nat :|
      && (forall k: nat | k < pages :: GoesOn(rows, suppressed, skip, want, batch, k))
      && !GoesOn(rows, suppressed, skip, want, batch, pages)
      && out == Take(Wanted(Pages(rows, batch, pages), suppressed, skip), want);
    var n := Min(pages * batch, |rows|);
    WantedOfPrefix(rows, suppressed, skip, n);
    assert rows[..|rows|] == rows;
  }

  lemma ListingIsUnique<T(!new)>(rows: seq<T>, suppressed: T -> bool, skip: T -> bool, want: nat,
                                 batch: nat, a: seq<T>, b: seq<T>)
    requires IsListing(rows, suppressed, skip, want, batch, a) && IsListing(rows, suppressed, skip, want, batch, b)
    ensures a == b
  {
    var m: nat :|
      && (forall k: nat | k < m :: GoesOn(rows, suppressed, skip, want, batch, k))
      && !GoesOn(rows, suppressed, skip, want, batch, m)
      && a == Take(Wanted(Pages(rows, batch, m), suppressed, skip), want);
    var n: nat :|
      && (forall k: nat | k < n :: GoesOn(rows, suppressed, skip, want, batch, k))
      && !GoesOn(rows, suppressed, skip, want, batch, n)
      && b == Take(Wanted(Pages(rows, batch, n), suppressed, skip), want);
    assert m == n;
  }

  lemma NextPage(pages: nat, batch: nat)
    ensures (pages + 1) * batch == pages * batch + batch
  {
  }

  /** Where the scan stops: at the first page end with enough rows, five thousand counted, or nothing left. */
  lemma ListingStops<T(!new)>(rows: seq<T>, suppressed: T -> bool, skip: T -> bool, want: nat, batch: nat,
                              out: seq<T>) returns (pages: nat)
    requires IsListing(rows, suppressed, skip, want, batch, out)
    ensures out == Take(Wanted(Pages(rows, batch, pages), suppressed, skip), want)
    ensures forall k: nat | k < pages ::
              && |Wanted(Pages(rows, batch, k), suppressed, skip)| < want
              && Counted(Pages(rows, batch, k), suppressed) < 5000 && k * batch < |rows|
    ensures |Wanted(Pages(rows, batch, pages), suppressed, skip)| >= want
            || Counted(Pages(rows, batch, pages), suppressed) >= 5000 || pages * batch >= |rows|
  {
    pages :|
      && (forall k: nat | k < pages :: GoesOn(rows, suppressed, skip, want, batch, k))
      && !GoesOn(rows, suppressed, skip, want, batch, pages)
      && out == Take(Wanted(Pages(rows, batch, pages), suppressed, skip), want);
    forall k: nat | k < pages
      ensures |Wanted(Pages(rows, batch, k), suppressed, skip)| < want
      ensures Counted(Pages(rows, batch, k), suppressed) < 5000 && k * batch < |rows|
    {
      assert GoesOn(rows, suppressed, skip, want, batch, k);
    }
  }

  /** Rows are wanted and counted one by one, in the order they stand. */
  lemma {:induction false} RowByRow<T(!new)>(a: seq<T>, b: seq<T>, suppressed: T -> bool, skip: T -> bool)
    ensures Wanted(a + b, suppressed, skip) == Wanted(a, suppressed, skip) + Wanted(b, suppressed, skip)
    ensures Counted(a + b, suppressed) == Counted(a, suppressed) + Counted(b, suppressed)
    ensures forall row :: Wanted([row], suppressed, skip) == if suppressed(row) || skip(row) then [] else [row]
    ensures forall row :: Counted([row], suppressed) == if suppressed(row) then 0 else 1
  {
    forall row
      ensures Wanted([row], suppressed, skip) == if suppressed(row) || skip(row) then [] else [row]
      ensures Counted([row], suppressed) == if suppressed(row) then 0 else 1
    {
      assert [row][..0] == [];
    }
    if b == [] {
      assert a + b == a;
    } else {
      assert (a + b)[..|a + b| - 1] == a + b[..|b| - 1];
      RowByRow(a, b[..|b| - 1], suppressed, skip);
    }
  }

  method ListJobsReadyForResume<T(!new)>(rows: seq<T>, suppressed: T -> bool, skip: T -> bool, limit: int)
    returns (out: seq<T>)
    ensures var want := if limit > 1 then limit else 1;
            var batch := if want * 5 > 50 then want * 5 else 50;
            IsListing(rows, suppressed, skip, want, batch, out)
            && (Counted(rows, suppressed) < MAX_SCAN ==> out == Take(Wanted(rows, suppressed, skip), want))
  {
    var want: nat := if limit > 1 then limit else 1;
    var batch: nat := if want * 5 > 50 then want * 5 else 50;
    var offset: nat, scanned: nat := 0, 0;
    ghost var pages: nat := 0;
    out := [];
    while |out| < want && scanned < MAX_SCAN
      invariant offset == pages * batch
      invariant forall k: nat | k < pages :: GoesOn(rows, suppressed, skip, want, batch, k)
      invariant out == Take(Wanted(Pages(rows, batch, pages), suppressed, skip), want)
      invariant |out| < want ==> scanned == Counted(Pages(rows, batch, pages), suppressed)
      decreases |rows| + batch - offset
    {
      var from, to := Min(offset, |rows|), Min(offset + batch, |rows|);
      var page := rows[from..to];
      if page == [] { break; }
      assert rows[..from] == Pages(rows, batch, pages);
      NextPage(pages, batch);
      assert rows[..to] == Pages(rows, batch, pages + 1);
      out, scanned := ReadPage(rows, from, to, suppressed, skip, want, out, scanned);
      pages := pages + 1;
      offset := offset + batch;
    }
    assert !GoesOn(rows, suppressed, skip, want, batch, pages);
    ListingIsFilterAndTake(rows, suppressed, skip, want, batch, out);
  }

  /** One page: stops early once enough rows are found. */
  method ReadPage<T(!new)>(rows: seq<T>, from: nat, to: nat, suppressed: T -> bool, skip: T -> bool,
                           want: nat, found: seq<T>, before: nat)
    returns (out: seq<T>, scanned: nat)
    requires from <= to <= |rows| && |found| < want
    requires found == Wanted(rows[..from], suppressed, skip) && before == Counted(rows[..from], suppressed)
    ensures out == Take(Wanted(rows[..to], suppressed, skip), want)
    ensures |out| < want ==> scanned == Counted(rows[..to], suppressed)
  {
    out, scanned := found, before;
    for i := from to to
      invariant |out| < want
      invariant out == Wanted(rows[..i], suppressed, skip) && scanned == Counted(rows[..i], suppressed)
    {
      assert rows[..i + 1][..i] == rows[..i];
      if suppressed(rows[i]) { continue; }
      scanned := scanned + 1;
      if skip(rows[i]) { continue; }
      out := out + [rows[i]];
      if |out| >= want {
        WantedOfPrefix(rows[..to], suppressed, skip, i + 1);
        assert rows[..to][..i + 1] == rows[..i + 1];
        return;
      }
    }
  }

  // ----- the rows of the jobs table -----

  datatype Job = Job(id: nat, status: string, suppressedReason: string, description: string)
  datatype Attempt = Attempt(job: Option<nat>, jdUsable: Option<nat>, descriptionHash: string)

  /** Excluded from discovery, or already applied or cancelled; `normalize` strips and lower-cases. */
  predicate IsSuppressed(job: Job, normalize: string -> string) {
    job.suppressedReason != "" || normalize(job.status) in ["applied", "canceled", "cancelled"]
  }

  /** An attempt already found this very description unusable. */
  predicate IsSettled(job: Job, attempts: seq<Attempt>, fingerprint: string -> string) {
    exists i | 0 <= i < |attempts| :: attempts[i] == Attempt(Some(job.id), Some(0), fingerprint(job.description))
  }

  method ListReady(jobs: seq<Job>, attempts: seq<Attempt>, limit: int, normalize: string -> string,
                   fingerprint: string -> string)
    returns (out: seq<Job>)
    ensures forall job | job in out ::
              && job in jobs && job.suppressedReason == ""
              && normalize(job.status) !in {"applied", "canceled", "cancelled"}
              && forall a | a in attempts ::
                   a.job != Some(job.id) || a.jdUsable != Some(0) || a.descriptionHash != fingerprint(job.description)
    ensures |jobs| < 5000 && |out| < limit ==>
              forall job | job in jobs && job.suppressedReason == ""
                           && normalize(job.status) !in {"applied", "canceled", "cancelled"}
                           && (forall a | a in attempts :: a.job != Some(job.id) || a.jdUsable != Some(0)
                                                           || a.descriptionHash != fingerprint(job.description)) ::
                job in out
  {
    var suppressed := (job: Job) => IsSuppressed(job, normalize);
    var skip := (job: Job) => IsSettled(job, attempts, fingerprint);
    out := ListJobsReadyForResume(jobs, suppressed, skip, limit);
    ghost var want: nat := if limit > 1 then limit else 1;
    ListingIsFilterAndTake(jobs, suppressed, skip, want, if want * 5 > 50 then want * 5 else 50, out);
    WantedMembers(jobs, suppressed, skip);
    CountedAtMost(jobs, suppressed);
    forall job | job in out ensures job in Wanted(jobs, suppressed, skip) {
      var i :| 0 <= i < |out| && out[i] == job;
      assert Wanted(jobs, suppressed, skip)[i] == job;
    }
  }

  lemma {:induction false} WantedMembers<T(!new)>(rows: seq<T>, suppressed: T -> bool, skip: T -> bool)
    ensures forall row :: row in Wanted(rows, suppressed, skip) <==> row in rows && Eligible(row, suppressed, skip)
  {
    if rows != [] {
      var n := |rows| - 1;
      WantedMembers(rows[..n], suppressed, skip);
      assert rows == rows[..n] + [rows[n]];
    }
  }

  lemma {:induction false} CountedAtMost<T(!new)>(rows: seq<T>, suppressed: T -> bool)
    ensures Counted(rows, suppressed) <= |rows|
  {
    if rows != [] { CountedAtMost(rows[..|rows|-1], suppressed); }
  }
}

/**
 * The `jobs` table both services write to and the read endpoint reads from,
 * and the dedup-insert loop that both `processAndSave…Jobs` functions run.
 *
 * The table is keyed by `jobUrl`, the column the services look rows up by,
 * so at most one row per URL holds by construction. Every row also carries
 * the identifier the database assigns on insert; here it is drawn from a
 * counter.
 */
module JobTable {
  import opened Wrappers
  import opened PageWalk

  /** The columns a service writes when it creates a row. */
  datatype JobData = JobData(
    title: string,
    company: string,
    location: string,
    description: string,
    postedDate: int,
    jobUrl: string)

  /** A stored row: the written columns plus the identifier assigned on insert. */
  datatype Row = Row(id: nat, job: JobData)

  /** The table's contents, and the identifier the next insert will receive. */
  datatype Table = Table(rows: map<string, Row>, nextId: nat)

  /**
   * Every row sits under its own URL, and identifiers are below the counter
   * and pairwise distinct.
   */
  ghost predicate WellFormed(t: Table)
  {
    && (forall u :: u in t.rows ==> t.rows[u].job.jobUrl == u && t.rows[u].id < t.nextId)
    && (forall u, v :: u in t.rows && v in t.rows && t.rows[u].id == t.rows[v].id ==> u == v)
  }

  /**
   * One record of a batch: look the URL up and insert only if it is absent;
   * a record whose processing throws leaves the table as it was.
   */
  function Step(t: Table, rec: JobData, fails: bool): Table
  {
    if fails || rec.jobUrl in t.rows then t
    else Table(t.rows[rec.jobUrl := Row(t.nextId, rec)], t.nextId + 1)
  }

  /** The table after the writer has processed `recs` in order; `failing` holds the indices that throw. */
  function Saved(t: Table, recs: seq<JobData>, failing: set<nat>): Table
    decreases |recs|
  {
    if recs == [] then t
    else Step(Saved(t, recs[..|recs| - 1], failing), recs[|recs| - 1], |recs| - 1 in failing)
  }

  /** The records a writer hands to its insert loop: one per job, in order, with the columns `columns` picks. */
  function Records<J>(jobs: seq<J>, columns: J -> JobData): (recs: seq<JobData>)
    ensures |recs| == |jobs|
  {
    seq(|jobs|, i requires 0 <= i < |jobs| => columns(jobs[i]))
  }

  /** The URLs of the records whose processing does not throw. */
  function AttemptedUrls(recs: seq<JobData>, failing: set<nat>): set<string>
  {
    set i | 0 <= i < |recs| && i !in failing :: recs[i].jobUrl
  }

  /** Record `i` is the first record of the batch with URL `u` whose processing does not throw. */
  ghost predicate FirstAttempt(recs: seq<JobData>, failing: set<nat>, u: string, i: int)
  {
    && 0 <= i < |recs| && i !in failing && recs[i].jobUrl == u
    && forall j :: 0 <= j < i && j !in failing ==> recs[j].jobUrl != u
  }

  /** A row that existed before the batch is still there afterwards, unchanged. */
  lemma {:induction false} SavedKeepsExisting(t: Table, recs: seq<JobData>, failing: set<nat>, u: string)
    requires u in t.rows
    ensures u in Saved(t, recs, failing).rows && Saved(t, recs, failing).rows[u] == t.rows[u]
    decreases |recs|
  {
    if recs != [] {
      SavedKeepsExisting(t, recs[..|recs| - 1], failing, u);
    }
  }

  /** After the batch the table holds exactly the old URLs plus those of the records that did not throw. */
  lemma {:induction false} SavedKeys(t: Table, recs: seq<JobData>, failing: set<nat>)
    ensures Saved(t, recs, failing).rows.Keys == t.rows.Keys + AttemptedUrls(recs, failing)
    decreases |recs|
  {
    if recs != [] {
      var n := |recs| - 1;
      var init := recs[..n];
      SavedKeys(t, init, failing);
      assert forall i :: 0 <= i < n ==> init[i] == recs[i];
      if n in failing {
        assert AttemptedUrls(recs, failing) == AttemptedUrls(init, failing);
      } else {
        assert AttemptedUrls(recs, failing) == AttemptedUrls(init, failing) + {recs[n].jobUrl};
      }
    }
  }

  /**
   * A row the batch added holds the columns of the first record with that URL
   * whose processing did not throw; later records with the same URL are skipped.
   */
  lemma {:induction false} SavedNewRow(t: Table, recs: seq<JobData>, failing: set<nat>, u: string)
    requires u !in t.rows && u in Saved(t, recs, failing).rows
    ensures exists i :: FirstAttempt(recs, failing, u, i) && Saved(t, recs, failing).rows[u].job == recs[i]
    decreases |recs|
  {
    var n := |recs| - 1;
    var init := recs[..n];
    var before := Saved(t, init, failing);
    assert forall i :: 0 <= i < n ==> init[i] == recs[i];
    if u in before.rows {
      SavedNewRow(t, init, failing, u);
      var i :| FirstAttempt(init, failing, u, i) && before.rows[u].job == init[i];
      assert FirstAttempt(recs, failing, u, i);
    } else {
      SavedKeys(t, init, failing);
      assert u !in AttemptedUrls(init, failing);
      assert FirstAttempt(recs, failing, u, n);
    }
  }

  /** Each inserted row consumes exactly one identifier. */
  lemma {:induction false} SavedCountsInserts(t: Table, recs: seq<JobData>, failing: set<nat>)
    ensures |Saved(t, recs, failing).rows| == |t.rows| + (Saved(t, recs, failing).nextId - t.nextId)
    decreases |recs|
  {
    if recs != [] {
      SavedCountsInserts(t, recs[..|recs| - 1], failing);
    }
  }

  /** The writer keeps the table well formed. */
  lemma {:induction false} SavedWellFormed(t: Table, recs: seq<JobData>, failing: set<nat>)
    requires WellFormed(t)
    ensures WellFormed(Saved(t, recs, failing))
    decreases |recs|
  {
    if recs != [] {
      SavedWellFormed(t, recs[..|recs| - 1], failing);
    }
  }

  /** A batch whose URLs are all stored already changes nothing, whichever records throw. */
  lemma {:induction false} SavedNothingNew(t: Table, recs: seq<JobData>, failing: set<nat>)
    requires forall i :: 0 <= i < |recs| ==> recs[i].jobUrl in t.rows
    ensures Saved(t, recs, failing) == t
    decreases |recs|
  {
    if recs != [] {
      SavedNothingNew(t, recs[..|recs| - 1], failing);
    }
  }

  /**
   * Re-running the writer on a batch that went through without failures adds
   * nothing and changes nothing, whatever fails the second time.
   */
  lemma SavedIdempotent(t: Table, recs: seq<JobData>, failing: set<nat>)
    ensures Saved(Saved(t, recs, {}), recs, failing) == Saved(t, recs, {})
  {
    SavedKeys(t, recs, {});
    forall i | 0 <= i < |recs|
      ensures recs[i].jobUrl in Saved(t, recs, {}).rows
    {
      assert recs[i].jobUrl in AttemptedUrls(recs, {});
    }
    SavedNothingNew(Saved(t, recs, {}), recs, failing);
  }

  /**
   * Partial-failure isolation: on an empty table, a batch of three records with
   * distinct URLs whose second one throws stores the first and the third.
   */
  lemma FailureIsolated(a: JobData, b: JobData, c: JobData)
    requires a.jobUrl != b.jobUrl && b.jobUrl != c.jobUrl && a.jobUrl != c.jobUrl
    ensures Saved(Table(map[], 0), [a, b, c], {1}).rows
         == map[a.jobUrl := Row(0, a), c.jobUrl := Row(1, c)]
  {
    var t := Table(map[], 0);
    assert [a, b, c][..2] == [a, b];
    assert [a, b][..1] == [a];
    assert [a][..0] == [];
    assert Saved(t, [a], {1}) == Table(map[a.jobUrl := Row(0, a)], 1);
    assert Saved(t, [a, b], {1}) == Saved(t, [a], {1});
  }

  /** The greatest of a non-empty finite set of dates. */
  ghost function MaxDate(ds: set<int>): (m: int)
    requires ds != {}
    ensures m in ds && forall x :: x in ds ==> x <= m
    decreases |ds|
  {
    assert exists x :: x in ds by {
      if forall x :: x !in ds {
        assert false;
      }
    }
    var d :| d in ds;
    if ds == {d} then d
    else
      var rest := MaxDate(ds - {d});
      assert forall x :: x in ds ==> x == d || x in ds - {d};
      if d > rest then d else rest
  }

  /** The posted dates of the rows whose company column is exactly `company`. */
  ghost function CompanyDates(t: Table, company: string): set<int>
  {
    set u | u in t.rows && t.rows[u].job.company == company :: t.rows[u].job.postedDate
  }

  /**
   * The checkpoint: the date of the most recent row whose company column is
   * exactly `company`, or None when there is no such row.
   */
  ghost function LatestPosted(t: Table, company: string): (r: Option<int>)
    ensures r.None? <==> forall u :: u in t.rows ==> t.rows[u].job.company != company
    ensures r.Some? ==> exists u :: u in t.rows && t.rows[u].job.company == company && t.rows[u].job.postedDate == r.value
    ensures r.Some? ==> forall u :: u in t.rows && t.rows[u].job.company == company ==> t.rows[u].job.postedDate <= r.value
  {
    var ds := CompanyDates(t, company);
    if ds == {} then
      assert forall u :: u in t.rows && t.rows[u].job.company == company ==> t.rows[u].job.postedDate in ds;
      None
    else
      assert forall u :: u in t.rows && t.rows[u].job.company == company ==> t.rows[u].job.postedDate in ds;
      Some(MaxDate(ds))
  }

  /** Writing a batch never moves a company's checkpoint backwards. */
  lemma SavedCheckpointAdvances(t: Table, recs: seq<JobData>, failing: set<nat>, company: string)
    ensures AtLeast(LatestPosted(Saved(t, recs, failing), company), LatestPosted(t, company))
  {
    var before := LatestPosted(t, company);
    if before.Some? {
      var u :| u in t.rows && t.rows[u].job.company == company && t.rows[u].job.postedDate == before.value;
      SavedKeepsExisting(t, recs, failing, u);
    }
  }

  /** The storage handle the services share; `rows` and `nextId` change as rows are created. */
  class JobStore {
    var rows: map<string, Row>
    var nextId: nat

    function State(): Table
      reads this
    {
      Table(rows, nextId)
    }

    ghost predicate Valid()
      reads this
    {
      WellFormed(State())
    }

    constructor ()
      ensures Valid() && State() == Table(map[], 0)
    {
      rows := map[];
      nextId := 0;
    }

    /** `findUnique` on the `jobUrl` column. */
    method FindUnique(url: string) returns (found: Option<Row>)
      requires Valid()
      ensures found.Some? <==> url in rows
      ensures found.Some? ==> found.value == rows[url] && found.value.job.jobUrl == url
    {
      found := if url in rows then Some(rows[url]) else None;
    }

    /**
     * `create`: insert a row under a fresh identifier. The table's unique
     * constraint on `jobUrl` refuses a second row with a stored URL.
     */
    method Create(job: JobData) returns (created: bool)
      requires Valid()
      modifies this
      ensures Valid()
      ensures created <==> job.jobUrl !in old(rows)
      ensures State() == Step(old(State()), job, false)
    {
      created := job.jobUrl !in rows;
      if created {
        rows := rows[job.jobUrl := Row(nextId, job)];
        nextId := nextId + 1;
      }
    }
  }

  /**
   * The loop of `processAndSaveMicrosoftJobs` and `processAndSaveAmazonJobs`:
   * for each record in order, look its URL up and create a row only when the
   * URL is absent. A record in `failing` throws somewhere in its lookup or
   * insert; the error is caught and the loop moves on.
   */
  method SaveRecords(store: JobStore, recs: seq<JobData>, failing: set<nat>)
    requires store.Valid()
    modifies store
    ensures store.Valid()
    ensures store.State() == Saved(old(store.State()), recs, failing)
  {
    for i := 0 to |recs|
      invariant store.Valid()
      invariant store.State() == Saved(old(store.State()), recs[..i], failing)
    {
      assert recs[..i + 1][..i] == recs[..i];
      if i in failing {
        // the lookup or the insert throws; caught, and this record is skipped
      } else {
        var existing := store.FindUnique(recs[i].jobUrl);
        if existing.None? {
          var _ := store.Create(recs[i]);
        }
      }
    }
    assert recs[..|recs|] == recs;
  }
}

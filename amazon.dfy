/**
 * The Amazon jobs source: the URL mapping of search results, the batch
 * walker `fetchAmazonJobs` and the writer `processAndSaveAmazonJobs`.
 *
 * The search endpoint is an oracle from offset to response. A listing's
 * `posted_date` is the timestamp the date parser yields for it. The walk is
 * the generic one of `PageWalk`, with the fetch count as request number and
 * the offset `Limit * fetchCount` as what each request is sent with.
 */
module AmazonService {
  import opened Wrappers
  import opened PageWalk
  import opened JobTable

  const Limit := 100
  const MaxFetches := 3
  const UrlPrefix := "https://amazon.jobs/"
  /** The company the checkpoint query looks for. */
  const Company := "Amazon"

  /** One entry of `data.jobs` as the endpoint sends it. */
  datatype Listing = Listing(
    title: string,
    companyName: string,
    normalizedLocation: string,
    description: string,
    postedDate: int,
    jobPath: string)

  /** A listing with its canonical URL added; every field of the listing is kept. */
  datatype AmazonJob = AmazonJob(listing: Listing, url: string)

  /**
   * What a request yields: it throws, the body has no `data` or no
   * `data.jobs`, or a list of listings arrives.
   */
  datatype Response = Failed | NoJobs | Jobs(listings: seq<Listing>)

  /** The `map` callback: spread the listing and add `url`. */
  function WithUrl(l: Listing): AmazonJob
  {
    AmazonJob(l, UrlPrefix + l.jobPath)
  }

  function WithUrls(ls: seq<Listing>): (r: seq<AmazonJob>)
    ensures |r| == |ls|
  {
    if ls == [] then [] else [WithUrl(ls[0])] + WithUrls(ls[1..])
  }

  /** A response as the walker sees it once its listings carry URLs. */
  function ToPage(resp: Response): Page<AmazonJob>
  {
    match resp
    case Failed => Page.Failed
    case NoJobs => NoList
    case Jobs(listings) => Listed(WithUrls(listings))
  }

  function PostedDate(j: AmazonJob): int
  {
    j.listing.postedDate
  }

  /**
   * `fetchAmazonJobs` as an instance of the generic walk: request `n` is sent
   * with offset `Limit * n`, the stop-at-old-jobs rule is armed from the
   * second request on, and request `MaxFetches - 1` is the last one.
   */
  function Amazon(upstream: int -> Response): Source<AmazonJob>
  {
    Source((n: int) => ToPage(upstream(Limit * n)), PostedDate, (n: int) => Limit * n, 0, MaxFetches - 1)
  }

  /**
   * `fetchAmazonJobs`: request offsets 0, 100, 200 until a response has no
   * listings, three requests have been made, or a batch after the first holds
   * nothing newer than the checkpoint `lastJob` (that batch is still kept).
   * An error anywhere makes it return the empty list. `requested` records the
   * offsets requested, in order.
   */
  method FetchAmazonJobs(upstream: int -> Response, lastJob: Option<int>)
    returns (allJobs: seq<AmazonJob>, ghost requested: seq<int>)
    ensures requested == Walk(Amazon(upstream), lastJob, 0).requests
    ensures allJobs == Delivered(Walk(Amazon(upstream), lastJob, 0))
  {
    ghost var src := Amazon(upstream);
    ghost var whole := FetchLoop(src, lastJob, 0, [], [], true);
    FetchLoopFromStart(src, lastJob, 0);
    allJobs := [];
    requested := [];
    var offset := 0;
    var fetchCount := 0;
    var foundNewJobs := true;
    while foundNewJobs && fetchCount < MaxFetches
      invariant offset == Limit * fetchCount
      invariant whole == FetchLoop(src, lastJob, fetchCount, requested, allJobs, foundNewJobs)
      decreases MaxFetches - fetchCount
    {
      var response := upstream(offset);
      requested := requested + [offset];
      if response.Failed? {
        // the request throws; the catch discards what was collected
        return [], requested;
      }
      if response.NoJobs? || |response.listings| == 0 {
        break;
      }
      var jobsWithUrls := WithUrls(response.listings);
      if lastJob.Some? && fetchCount > 0 {
        var newJobs := FilterNewer(jobsWithUrls, PostedDate, lastJob.value);
        if |newJobs| == 0 {
          foundNewJobs := false;
        }
      }
      allJobs := allJobs + jobsWithUrls;
      offset := offset + Limit;
      fetchCount := fetchCount + 1;
    }
  }

  /**
   * The columns `processAndSaveAmazonJobs` writes for a job: the company is
   * the listing's own `company_name`, the location its `normalized_location`.
   */
  function RowData(j: AmazonJob): JobData
  {
    JobData(j.listing.title, j.listing.companyName, j.listing.normalizedLocation,
            j.listing.description, j.listing.postedDate, j.url)
  }


  /**
   * `processAndSaveAmazonJobs`: insert each job unless its URL is stored; a
   * job in `failing` throws and is skipped.
   */
  method ProcessAndSaveAmazonJobs(store: JobStore, jobs: seq<AmazonJob>, failing: set<nat>)
    requires store.Valid()
    modifies store
    ensures store.Valid()
    ensures store.State() == Saved(old(store.State()), Records(jobs, RowData), failing)
  {
    SaveRecords(store, Records(jobs, RowData), failing);
  }

  // ---------------------------------------------------------------------
  // Properties of the mapping

  /**
   * Mapping a batch keeps every listing, in order and with all its fields,
   * and gives each the URL built from its own `job_path`.
   */
  lemma {:induction false} WithUrlsKeepsListings(ls: seq<Listing>, i: int)
    requires 0 <= i < |ls|
    ensures WithUrls(ls)[i].listing == ls[i]
    ensures WithUrls(ls)[i].url == UrlPrefix + ls[i].jobPath
    decreases |ls|
  {
    if i > 0 {
      WithUrlsKeepsListings(ls[1..], i - 1);
    }
  }

  /** Two listings get the same URL exactly when their `job_path`s are equal. */
  lemma UrlIdentifiesJobPath(a: Listing, b: Listing)
    ensures WithUrl(a).url == WithUrl(b).url <==> a.jobPath == b.jobPath
  {
    if WithUrl(a).url == WithUrl(b).url {
      assert WithUrl(a).url[|UrlPrefix|..] == a.jobPath;
      assert WithUrl(b).url[|UrlPrefix|..] == b.jobPath;
    }
  }

  // ---------------------------------------------------------------------
  // Properties of the walk over the search endpoint

  /**
   * The k-th request (from 0) uses offset `100 * k`, and there are at most
   * `MaxFetches` requests.
   */
  lemma OffsetsStepByLimit(upstream: int -> Response, last: Option<int>)
    ensures var reqs := Walk(Amazon(upstream), last, 0).requests;
      && (forall k :: 0 <= k < |reqs| ==> reqs[k] == Limit * k)
      && 1 <= |reqs| <= MaxFetches
  {
    WalkRequestsConsecutive(Amazon(upstream), last, 0);
  }

  /**
   * A response without `data.jobs`, or with an empty list, ends the walk at
   * that request and adds nothing to the result.
   */
  lemma MissingOrEmptyBatchEndsWalk(upstream: int -> Response, last: Option<int>, n: int)
    requires 0 <= n < MaxFetches
    requires upstream(Limit * n).NoJobs? || (upstream(Limit * n).Jobs? && |upstream(Limit * n).listings| == 0)
    ensures Walk(Amazon(upstream), last, n) == WalkResult([Limit * n], Collected([]))
  {
  }

  /**
   * The stop-at-old-jobs rule is not armed on the first request: a non-empty
   * first batch is always followed by the request at offset 100.
   */
  lemma FirstBatchNeverStops(upstream: int -> Response, last: Option<int>)
    requires upstream(0).Jobs? && |upstream(0).listings| > 0
    ensures |Walk(Amazon(upstream), last, 0).requests| >= 2
    ensures Walk(Amazon(upstream), last, 0).requests[1] == Limit
  {
    FirstRequestNeverStops(Amazon(upstream), last, 0);
  }

  /**
   * The boundary scenario: the second batch holds only listings no newer
   * than the checkpoint. Both batches are fetched and returned; offset 200 is
   * never requested.
   */
  lemma StopsAfterStaleSecondBatch(upstream: int -> Response, checkpoint: int)
    requires upstream(0).Jobs? && |upstream(0).listings| > 0
    requires upstream(Limit).Jobs? && |upstream(Limit).listings| > 0
    requires forall j :: j in JobsOf(ToPage(upstream(Limit))) ==> j.listing.postedDate <= checkpoint
    ensures Walk(Amazon(upstream), Some(checkpoint), 0).requests == [0, Limit]
    ensures Delivered(Walk(Amazon(upstream), Some(checkpoint), 0))
         == JobsOf(ToPage(upstream(0))) + JobsOf(ToPage(upstream(Limit)))
  {
    var src := Amazon(upstream);
    var b1 := JobsOf(ToPage(upstream(Limit)));
    AnyNewerIff(b1, PostedDate, checkpoint);
    assert !AnyNewer(b1, PostedDate, checkpoint) by {
      forall i | 0 <= i < |b1| ensures PostedDate(b1[i]) <= checkpoint {
        assert b1[i] in b1;
      }
    }
    assert !Continues(src, Some(checkpoint), 1);
  }

  // ---------------------------------------------------------------------
  // The writer, the checkpoint and a whole run

  /**
   * A row the writer adds carries the listing's `company_name` as company
   * and its `normalized_location` as location, taken from the first job of
   * the batch with that URL whose processing did not throw.
   */
  lemma SavedAmazonRow(t: Table, jobs: seq<AmazonJob>, failing: set<nat>, u: string)
    requires u !in t.rows && u in Saved(t, Records(jobs, RowData), failing).rows
    ensures exists i :: && 0 <= i < |jobs| && i !in failing && jobs[i].url == u
                        && Saved(t, Records(jobs, RowData), failing).rows[u].job.company == jobs[i].listing.companyName
                        && Saved(t, Records(jobs, RowData), failing).rows[u].job.location == jobs[i].listing.normalizedLocation
                        && Saved(t, Records(jobs, RowData), failing).rows[u].job == RowData(jobs[i])
  {
    SavedNewRow(t, Records(jobs, RowData), failing, u);
  }

  /**
   * The checkpoint query looks for company "Amazon" while the writer stores
   * each listing's `company_name`: as long as no listing is named exactly
   * "Amazon", a table without such a row never gets one, so the walk never
   * has a checkpoint and its stop-at-old-jobs rule never fires.
   */
  lemma CheckpointBlindToCompanyNames(t: Table, jobs: seq<AmazonJob>, failing: set<nat>)
    requires LatestPosted(t, Company).None?
    requires forall i :: 0 <= i < |jobs| ==> jobs[i].listing.companyName != Company
    ensures LatestPosted(Saved(t, Records(jobs, RowData), failing), Company).None?
  {
    var t1 := Saved(t, Records(jobs, RowData), failing);
    forall u | u in t1.rows
      ensures t1.rows[u].job.company != Company
    {
      if u in t.rows {
        SavedKeepsExisting(t, Records(jobs, RowData), failing, u);
      } else {
        SavedAmazonRow(t, jobs, failing, u);
      }
    }
  }

  /**
   * One scheduled run for this source: read the checkpoint, walk from offset
   * 0, then write what the walk delivered. `failing` holds the indices of the
   * jobs whose processing throws.
   */
  ghost function Scrape(t: Table, upstream: int -> Response, failing: set<nat>): Table
  {
    Saved(t, Records(Delivered(Walk(Amazon(upstream), LatestPosted(t, Company), 0)), RowData), failing)
  }

  /**
   * Against an unchanged endpoint, a second run after a run without write
   * failures adds nothing and changes nothing, whatever fails the second time.
   */
  lemma ScrapeAgainChangesNothing(t: Table, upstream: int -> Response, failing: set<nat>)
    ensures Scrape(Scrape(t, upstream, {}), upstream, failing) == Scrape(t, upstream, {})
  {
    var src := Amazon(upstream);
    var w0 := Walk(src, LatestPosted(t, Company), 0);
    var recs0 := Records(Delivered(w0), RowData);
    var t1 := Scrape(t, upstream, {});
    if w0.outcome.Threw? {
      assert t1 == t;
    } else {
      SavedCheckpointAdvances(t, recs0, {}, Company);
      LaterCheckpointStopsSooner(src, LatestPosted(t, Company), LatestPosted(t1, Company), 0);
      var recs1 := Records(Delivered(Walk(src, LatestPosted(t1, Company), 0)), RowData);
      SavedKeys(t, recs0, {});
      forall i | 0 <= i < |recs1|
        ensures recs1[i].jobUrl in t1.rows
      {
        assert recs1[i] == recs0[i];
        assert recs0[i].jobUrl in AttemptedUrls(recs0, {});
      }
      SavedNothingNew(t1, recs1, failing);
    }
  }
}

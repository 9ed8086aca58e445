/**
 * The Microsoft careers source: mapping of the search API's job records,
 * the page walker `fetchMicrosoftJobs` and the writer
 * `processAndSaveMicrosoftJobs`.
 *
 * The search API is an oracle from page number to response. Posted dates are
 * the timestamps the date parser yields. `receivedAt` is the clock reading
 * that `new Date()` takes while a page is mapped. The walk itself is the
 * generic one of `PageWalk`, with page numbers as request numbers.
 */
module MicrosoftService {
  import opened Wrappers
  import opened PageWalk
  import opened JobTable

  const MaxPages := 3
  const NotAvailable := "N/A"
  const Company := "Microsoft"
  const JobUrlPrefix := "https://careers.microsoft.com/us/en/job/"

  /**
   * One job of `operationResult.result.jobs` as the API sends it. A field the
   * record lacks is None. `properties` is flattened into its three fields, and
   * a missing `properties` or `locations` gives None and [] respectively.
   */
  datatype RawJob = RawJob(
    jobId: Option<string>,
    title: Option<string>,
    primaryLocation: Option<string>,
    locations: seq<string>,
    description: Option<string>,
    postingDate: Option<int>)

  /**
   * What a page request yields: the request throws, the body lacks
   * `operationResult.result.jobs`, or a list of jobs arrives.
   */
  datatype Response = Failed | NoJobsField | Jobs(raw: seq<RawJob>, receivedAt: int)

  /** A mapped job. */
  datatype MicrosoftJob = MicrosoftJob(
    jobId: string,
    title: string,
    location: string,
    description: string,
    postedDate: int,
    url: string)

  /** `field || "N/A"` */
  function OrNotAvailable(o: Option<string>): string
  {
    if Truthy(o) then o.value else NotAvailable
  }

  /** How a template literal renders the raw `jobId`: an absent id prints as "undefined". */
  function IdText(id: Option<string>): string
  {
    match id
    case Some(s) => s
    case None => "undefined"
  }

  /** The canonical listing URL, built from the raw (not the defaulted) `jobId`. */
  function JobUrl(id: Option<string>): string
  {
    JobUrlPrefix + IdText(id)
  }

  /** The `map` callback of `fetchMicrosoftJobs`. */
  function MapJob(raw: RawJob, receivedAt: int): MicrosoftJob
  {
    var location :=
      if Truthy(raw.primaryLocation) then raw.primaryLocation.value
      else if |raw.locations| > 0 && raw.locations[0] != "" then raw.locations[0]
      else NotAvailable;
    MicrosoftJob(
      OrNotAvailable(raw.jobId),
      OrNotAvailable(raw.title),
      location,
      OrNotAvailable(raw.description),
      match raw.postingDate
      case Some(d) => d
      case None => receivedAt,
      JobUrl(raw.jobId))
  }

  /** Every job of a page mapped, in order. */
  function MapJobs(raw: seq<RawJob>, receivedAt: int): (r: seq<MicrosoftJob>)
    ensures |r| == |raw|
  {
    if raw == [] then [] else [MapJob(raw[0], receivedAt)] + MapJobs(raw[1..], receivedAt)
  }

  /** The mapping is position by position: job `i` of the page becomes job `i` of the result. */
  lemma {:induction false} MapJobsAt(raw: seq<RawJob>, receivedAt: int, i: int)
    requires 0 <= i < |raw|
    ensures MapJobs(raw, receivedAt)[i] == MapJob(raw[i], receivedAt)
    decreases |raw|
  {
    if i > 0 {
      MapJobsAt(raw[1..], receivedAt, i - 1);
    }
  }

  /** A response as the walker sees it once its jobs are mapped. */
  function ToPage(resp: Response): Page<MicrosoftJob>
  {
    match resp
    case Failed => Page.Failed
    case NoJobsField => NoList
    case Jobs(raw, receivedAt) => Listed(MapJobs(raw, receivedAt))
  }

  function PostedDate(j: MicrosoftJob): int
  {
    j.postedDate
  }

  /**
   * `fetchMicrosoftJobs` as an instance of the generic walk: request `n` asks
   * for page `n`, the stop-at-old-jobs rule is armed from page 2 on, and page
   * `MaxPages` is the last one.
   */
  function Microsoft(upstream: int -> Response): Source<MicrosoftJob>
  {
    Source((n: int) => ToPage(upstream(n)), PostedDate, (n: int) => n, 1, MaxPages)
  }

  /**
   * `fetchMicrosoftJobs`: request pages `initialPage`, `initialPage + 1`, …
   * until a page is malformed or empty, page `MaxPages` has been requested, or
   * a page after page 1 holds nothing newer than the checkpoint `lastJob`
   * (that page is still kept). An error anywhere makes it return the empty
   * list. `requested` records the page numbers requested, in order.
   */
  method FetchMicrosoftJobs(upstream: int -> Response, lastJob: Option<int>, initialPage: int)
    returns (allJobs: seq<MicrosoftJob>, ghost requested: seq<int>)
    ensures requested == Walk(Microsoft(upstream), lastJob, initialPage).requests
    ensures allJobs == Delivered(Walk(Microsoft(upstream), lastJob, initialPage))
  {
    ghost var src := Microsoft(upstream);
    ghost var whole := FetchLoop(src, lastJob, initialPage, [], [], true);
    FetchLoopFromStart(src, lastJob, initialPage);
    allJobs := [];
    requested := [];
    var page := initialPage;
    var newJobsFound := true;
    while newJobsFound && page <= MaxPages
      invariant whole == FetchLoop(src, lastJob, page, requested, allJobs, newJobsFound)
      decreases MaxPages + 1 - page
    {
      var response := upstream(page);
      requested := requested + [page];
      if response.Failed? {
        // the request throws; the catch discards what was collected
        return [], requested;
      }
      if response.NoJobsField? {
        break;
      }
      var pageJobs := MapJobs(response.raw, response.receivedAt);
      if |pageJobs| == 0 {
        break;
      }
      if lastJob.Some? && page > 1 {
        var allNewJobs := FilterNewer(pageJobs, PostedDate, lastJob.value);
        if |allNewJobs| == 0 {
          newJobsFound := false;
        }
      }
      allJobs := allJobs + pageJobs;
      page := page + 1;
    }
  }

  /** The columns `processAndSaveMicrosoftJobs` writes for a job: the company is always "Microsoft". */
  function RowData(j: MicrosoftJob): JobData
  {
    JobData(j.title, Company, j.location, j.description, j.postedDate, j.url)
  }


  /**
   * `processAndSaveMicrosoftJobs`: insert each job under company "Microsoft"
   * unless its URL is stored; a job in `failing` throws and is skipped.
   */
  method ProcessAndSaveMicrosoftJobs(store: JobStore, jobs: seq<MicrosoftJob>, failing: set<nat>)
    requires store.Valid()
    modifies store
    ensures store.Valid()
    ensures store.State() == Saved(old(store.State()), Records(jobs, RowData), failing)
  {
    SaveRecords(store, Records(jobs, RowData), failing);
  }

  // ---------------------------------------------------------------------
  // Properties of the mapping

  /** No text field of a mapped job is empty, and its URL is the listing prefix followed by the raw id. */
  lemma MapJobNeverEmpty(raw: RawJob, receivedAt: int)
    ensures var j := MapJob(raw, receivedAt);
      && j.jobId != "" && j.title != "" && j.location != "" && j.description != ""
      && JobUrlPrefix <= j.url && j.url[|JobUrlPrefix|..] == IdText(raw.jobId)
  {
    var j := MapJob(raw, receivedAt);
    assert j.url == JobUrlPrefix + IdText(raw.jobId);
  }

  /**
   * A mapped field reads "N/A" exactly when the API left it out (absent or
   * empty) or itself sent "N/A"; a field the API supplied is kept as sent.
   */
  lemma MapJobSentinels(raw: RawJob, receivedAt: int)
    ensures var j := MapJob(raw, receivedAt);
      && (j.jobId == NotAvailable <==> !Truthy(raw.jobId) || raw.jobId.value == NotAvailable)
      && (j.title == NotAvailable <==> !Truthy(raw.title) || raw.title.value == NotAvailable)
      && (j.description == NotAvailable <==> !Truthy(raw.description) || raw.description.value == NotAvailable)
      && (Truthy(raw.jobId) ==> j.jobId == raw.jobId.value)
      && (Truthy(raw.title) ==> j.title == raw.title.value)
      && (Truthy(raw.description) ==> j.description == raw.description.value)
  {
  }

  /**
   * The location falls back from the primary location to the first listed
   * location to "N/A", skipping empty strings.
   */
  lemma MapJobLocation(raw: RawJob, receivedAt: int)
    ensures var j := MapJob(raw, receivedAt);
      && (Truthy(raw.primaryLocation) ==> j.location == raw.primaryLocation.value)
      && (!Truthy(raw.primaryLocation) && |raw.locations| > 0 && raw.locations[0] != ""
          ==> j.location == raw.locations[0])
      && (!Truthy(raw.primaryLocation) && (|raw.locations| == 0 || raw.locations[0] == "")
          ==> j.location == NotAvailable)
  {
  }

  /** The clock is read for the posted date only when the API sent no posting date. */
  lemma MapJobPostedDate(raw: RawJob, receivedAt: int)
    ensures raw.postingDate.Some? ==> MapJob(raw, receivedAt).postedDate == raw.postingDate.value
    ensures raw.postingDate.None? ==> MapJob(raw, receivedAt).postedDate == receivedAt
  {
  }

  /**
   * Two jobs the API sent without a `jobId` get the same URL (".../undefined"),
   * although each is shown with the id "N/A"; the writer then stores only the
   * first of them.
   */
  lemma MissingIdsShareUrl(a: RawJob, b: RawJob, t1: int, t2: int)
    requires a.jobId.None? && b.jobId.None?
    ensures MapJob(a, t1).url == MapJob(b, t2).url == JobUrlPrefix + "undefined"
    ensures MapJob(a, t1).jobId == MapJob(b, t2).jobId == NotAvailable
  {
  }

  /**
   * Two jobs share a URL exactly when their raw ids print the same: the URL
   * is built from the raw id, so an id sent as "" and one sent as "N/A" get
   * different URLs although both are shown as "N/A".
   */
  lemma UrlIdentifiesRawId(a: RawJob, b: RawJob, t1: int, t2: int)
    ensures MapJob(a, t1).url == MapJob(b, t2).url <==> IdText(a.jobId) == IdText(b.jobId)
  {
    var ua, ub := MapJob(a, t1).url, MapJob(b, t2).url;
    if ua == ub {
      assert ua[|JobUrlPrefix|..] == ub[|JobUrlPrefix|..];
    }
  }

  // ---------------------------------------------------------------------
  // Properties of the walk over the search API

  /**
   * Pages are requested as `initialPage`, `initialPage + 1`, …, none above
   * `MaxPages`; from page 1 or later that is at most `MaxPages` requests.
   */
  lemma PagesRequestedInOrder(upstream: int -> Response, last: Option<int>, initialPage: int)
    ensures var reqs := Walk(Microsoft(upstream), last, initialPage).requests;
      && (forall i :: 0 <= i < |reqs| ==> reqs[i] == initialPage + i <= MaxPages)
      && (initialPage >= 1 ==> |reqs| <= MaxPages)
  {
    WalkRequestsConsecutive(Microsoft(upstream), last, initialPage);
  }

  /**
   * A response without `operationResult.result.jobs`, or with an empty list,
   * ends the walk at that page and adds nothing to the result.
   */
  lemma MalformedOrEmptyPageEndsWalk(upstream: int -> Response, last: Option<int>, page: int)
    requires page <= MaxPages
    requires upstream(page).NoJobsField? || (upstream(page).Jobs? && |upstream(page).raw| == 0)
    ensures Walk(Microsoft(upstream), last, page) == WalkResult([page], Collected([]))
  {
  }

  /**
   * The stop-at-old-jobs rule never fires on page 1: a walk from page 1 whose
   * first page is a non-empty list goes on to request page 2, however old the
   * page's jobs are.
   */
  lemma FirstPageNeverStops(upstream: int -> Response, last: Option<int>)
    requires upstream(1).Jobs? && |upstream(1).raw| > 0
    ensures |Walk(Microsoft(upstream), last, 1).requests| >= 2
    ensures Walk(Microsoft(upstream), last, 1).requests[1] == 2
  {
    FirstRequestNeverStops(Microsoft(upstream), last, 1);
  }

  /**
   * Cap enforcement: with no stored Microsoft job and pages that are all
   * non-empty lists, the walk from page 1 requests exactly pages 1, 2 and 3
   * and returns all three pages in order.
   */
  lemma NoCheckpointFetchesEveryPage(upstream: int -> Response)
    requires forall p :: 1 <= p <= MaxPages ==> upstream(p).Jobs? && |upstream(p).raw| > 0
    ensures Walk(Microsoft(upstream), None, 1).requests == [1, 2, 3]
    ensures Delivered(Walk(Microsoft(upstream), None, 1))
         == JobsOf(ToPage(upstream(1))) + JobsOf(ToPage(upstream(2))) + JobsOf(ToPage(upstream(3)))
  {
    var src := Microsoft(upstream);
    var p1, p2, p3 := JobsOf(ToPage(upstream(1))), JobsOf(ToPage(upstream(2))), JobsOf(ToPage(upstream(3)));
    assert Walk(src, None, 3) == WalkResult([3], Collected(p3)) by {
      assert Walk(src, None, 4) == WalkResult([], Collected([]));
      assert p3 + [] == p3;
    }
    assert (p1 + p2) + p3 == p1 + (p2 + p3);
  }

  /**
   * The boundary scenario: page 2 holds only jobs no newer than the
   * checkpoint. Pages 1 and 2 are both fetched and returned; page 3 is never
   * requested.
   */
  lemma StopsAfterStaleSecondPage(upstream: int -> Response, checkpoint: int)
    requires upstream(1).Jobs? && |upstream(1).raw| > 0
    requires upstream(2).Jobs? && |upstream(2).raw| > 0
    requires forall j :: j in JobsOf(ToPage(upstream(2))) ==> j.postedDate <= checkpoint
    ensures Walk(Microsoft(upstream), Some(checkpoint), 1).requests == [1, 2]
    ensures Delivered(Walk(Microsoft(upstream), Some(checkpoint), 1))
         == JobsOf(ToPage(upstream(1))) + JobsOf(ToPage(upstream(2)))
  {
    var src := Microsoft(upstream);
    var p2 := JobsOf(ToPage(upstream(2)));
    AnyNewerIff(p2, PostedDate, checkpoint);
    assert !AnyNewer(p2, PostedDate, checkpoint) by {
      forall i | 0 <= i < |p2| ensures PostedDate(p2[i]) <= checkpoint {
        assert p2[i] in p2;
      }
    }
    assert !Continues(src, Some(checkpoint), 2);
  }

  // ---------------------------------------------------------------------
  // The writer and a whole run

  /**
   * A row the writer adds carries company "Microsoft" and the columns of the
   * first job of the batch with that URL whose processing did not throw.
   */
  lemma SavedMicrosoftRow(t: Table, jobs: seq<MicrosoftJob>, failing: set<nat>, u: string)
    requires u !in t.rows && u in Saved(t, Records(jobs, RowData), failing).rows
    ensures var row := Saved(t, Records(jobs, RowData), failing).rows[u].job;
      && row.company == Company
      && exists i :: && 0 <= i < |jobs| && i !in failing && jobs[i].url == u
                     && row == JobData(jobs[i].title, Company, jobs[i].location, jobs[i].description, jobs[i].postedDate, u)
  {
    SavedNewRow(t, Records(jobs, RowData), failing, u);
  }

  /**
   * One scheduled run for this source: read the checkpoint, walk from page 1,
   * then write what the walk delivered. `failing` holds the indices of the
   * jobs whose processing throws.
   */
  ghost function Scrape(t: Table, upstream: int -> Response, failing: set<nat>): Table
  {
    Saved(t, Records(Delivered(Walk(Microsoft(upstream), LatestPosted(t, Company), 1)), RowData), failing)
  }

  /**
   * Against an unchanged search API, a second run after a run without write
   * failures adds nothing and changes nothing, whatever fails the second time.
   */
  lemma ScrapeAgainChangesNothing(t: Table, upstream: int -> Response, failing: set<nat>)
    ensures Scrape(Scrape(t, upstream, {}), upstream, failing) == Scrape(t, upstream, {})
  {
    var src := Microsoft(upstream);
    var w0 := Walk(src, LatestPosted(t, Company), 1);
    var recs0 := Records(Delivered(w0), RowData);
    var t1 := Scrape(t, upstream, {});
    if w0.outcome.Threw? {
      assert t1 == t;
    } else {
      SavedCheckpointAdvances(t, recs0, {}, Company);
      LaterCheckpointStopsSooner(src, LatestPosted(t, Company), LatestPosted(t1, Company), 1);
      var recs1 := Records(Delivered(Walk(src, LatestPosted(t1, Company), 1)), RowData);
      SavedKeys(t, recs0, {});
      forall i | 0 <= i < |recs1|
        ensures recs1[i].jobUrl in t1.rows
      {
        assert recs1[i] == recs0[i];
        assert recs0[i].jobUrl in AttemptedUrls(recs0, {});
      }
      SavedNothingNew(t1, recs1, failing);
    }
  }
}

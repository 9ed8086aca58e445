# Job scraper core in Dafny

This project models the core of a small job-listing service. Two scrapers
read job listings from public career sites and store them in one `jobs`
table. The Microsoft scraper walks the pages of a search API. The Amazon
scraper walks fixed-size offset batches. An HTTP API lists the stored jobs
(filtered, newest first, paginated) and returns a single job by identifier.

The model has six modules:

- `PageWalk` (`walk.dfy`) is the page walk both fetchers run, stated once
  over an abstract job type. A page can throw, lack a job list, or list jobs.
  Requests stop at:
  - a request cap;
  - a malformed or empty page;
  - a page (after the first) on which no job is newer than the newest stored
    job of that company.

  That page is still appended. `Walk` is the specification. `FetchLoop` is
  the same walk written the way the loop runs, and it is used to prove each
  fetch method against `Walk`.
- `JobTable` (`jobtable.dfy`) is the `jobs` table, keyed by job URL. Each row
  gets an identifier from a counter on insert. The module holds the
  dedup-insert loop both writers run (`SaveRecords`, proved against the
  batch function `Saved`). It also defines the checkpoint `LatestPosted`,
  the date of the newest stored row of a company.
- `MicrosoftService` (`microsoft.dfy`) covers how raw search results become
  jobs: `"N/A"` fallbacks, the location fallback chain, the posting date and
  the URL. It also holds the page-number walk, `FetchMicrosoftJobs` (a loop),
  the writer, and one whole run `Scrape`.
- `AmazonService` (`amazon.dfy`) covers URL enrichment, the offset walk,
  `FetchAmazonJobs` (a loop), the writer, the checkpoint and one whole run.
- `JobController` (`controller.dfy`) covers `GetJobs` and `GetJobById`.
  Each handler returns the list of replies it attempts, in order.
- `Wrappers` (`wrappers.dfy`) defines `Option` and `Truthy`, JavaScript truthiness of an optional string.

The search APIs are parameters of type `int -> Response`, mapping the page
number or offset to what that request yields. The checkpoint is the
parameter `lastJob` of the fetch methods. `Scrape` binds it to
`LatestPosted` of the table. A write that throws is given as the set
`failing` of record indices. Dates are integers, ordered like the source's
`Date` values.

## Model

| member | source | states |
|---|---|---|
| PageWalk.Walk | src/services/microsoft.service.ts:33-88 | defines the walk both fetch loops run, request by request: stop past the cap; go on after a non-empty list page that does not trigger the stop rule; otherwise end at this request, throwing if it failed and appending its list if it had one. Its properties are the `Walk…` lemmas. |
| PageWalk.FetchLoop | src/services/amazon.service.ts:31-68 | defines the same walk the way the `while` loops run it, with the requests made, the jobs collected and the continue flag as state. |
| PageWalk.FilterNewer | src/services/microsoft.service.ts:75-77 | the filtered page is no longer than the page. It is empty exactly when no job on the page is dated after the checkpoint. |
| PageWalk.FilterNewerKeepsExactlyNewer | src/services/amazon.service.ts:52-55 | a job is kept by the filter if and only if it is on the page and dated strictly after the checkpoint. |
| PageWalk.AnyNewerIff | src/services/microsoft.service.ts:75-78 | the recursive "some job is newer" test holds exactly when some position of the page holds a job newer than the checkpoint. |
| PageWalk.NoNewerJobsMonotone | src/services/microsoft.service.ts:74-81 | if the stop rule fires for a checkpoint, it fires for any later checkpoint. |
| PageWalk.FetchLoopIsWalk | src/services/microsoft.service.ts:33-88 | the loop-shaped reading of the walk, started with requests and jobs already accumulated, equals those accumulations followed by the structural walk. |
| PageWalk.FetchLoopFromStart | src/services/microsoft.service.ts:28-33 | the loop started with nothing fetched computes exactly `Walk`. |
| PageWalk.WalkRequestsConsecutive | src/services/microsoft.service.ts:29-33 | request `i` of a walk from `n` is sent as request number `n+i` and never passes the cap. Past the cap nothing is requested. Otherwise between 1 and `cap+1-n` requests are made. |
| PageWalk.WalkCollectsRequestedPages | src/services/microsoft.service.ts:84 | a walk that does not throw returns the concatenated job lists of exactly the pages it requested, in order. It throws exactly when its last request failed. |
| PageWalk.WalkContinuesOnlyPastFreshPages | src/services/microsoft.service.ts:72-82 | every request except the last was a non-empty list page that did not trigger the stop rule. |
| PageWalk.WalkEndsWhereItStops | src/services/microsoft.service.ts:33 | a walk that ends before the cap ends at a page where it could not continue. |
| PageWalk.ContinuesUnlessStopCause | src/services/microsoft.service.ts:54-82 | the walk goes on after a page if and only if none of the stop causes holds: no job list, an empty list, or (with a checkpoint and past the first request) every job dated no later than the checkpoint. |
| PageWalk.WalkStopsOnlyForCause | src/services/microsoft.service.ts:54-82 | a walk that ends before the cap ended for one of those causes. Without a checkpoint, only a missing or empty list ends it early. |
| PageWalk.FirstRequestNeverStops | src/services/microsoft.service.ts:74 | the stop rule is not applied to the first page: a non-empty first page is always followed by a second request. |
| PageWalk.LaterCheckpointStopsSooner | src/services/microsoft.service.ts:74-82 | with a later checkpoint, the requests are a prefix of those made with an earlier one. If the earlier walk succeeds, so does the later one, and its jobs are a prefix of the earlier walk's jobs. |
| JobTable.SavedKeepsExisting | src/services/microsoft.service.ts:104-111 | a row stored before a batch is still stored, unchanged, after it. |
| JobTable.SavedKeys | src/services/microsoft.service.ts:102-129 | after a batch, the stored URLs are the old ones plus the URLs of the records whose processing did not throw. |
| JobTable.SavedNewRow | src/services/microsoft.service.ts:110-125 | a row the batch added holds the columns of the first non-throwing record with that URL. Later duplicates are skipped. |
| JobTable.SavedCountsInserts | src/services/microsoft.service.ts:113-122 | each inserted row consumes exactly one identifier. |
| JobTable.SavedWellFormed | src/services/microsoft.service.ts:102-129 | a batch keeps the table well formed: each row is under its own URL, and identifiers are distinct and below the counter. |
| JobTable.SavedNothingNew | src/services/microsoft.service.ts:110-111 | a batch whose URLs are all stored already changes nothing, whichever records throw. |
| JobTable.SavedIdempotent | src/services/amazon.service.ts:87-94 | re-running the writer on a batch that went through without failures changes nothing, whatever fails the second time. |
| JobTable.FailureIsolated | src/services/microsoft.service.ts:126-128 | with three distinct URLs on an empty table, a throwing second record leaves the first and the third stored, under identifiers 0 and 1. |
| JobTable.LatestPosted | src/services/microsoft.service.ts:23-26 | the checkpoint is absent exactly when no row has that company. Otherwise it is the posted date of some such row, and no such row is newer. |
| JobTable.SavedCheckpointAdvances | src/services/microsoft.service.ts:23-26 | writing a batch never moves a company's checkpoint backwards. |
| JobTable.JobStore.FindUnique | src/services/microsoft.service.ts:104-108 | the lookup finds a row if and only if the URL is stored, and returns that row. |
| JobTable.JobStore.Create | src/services/microsoft.service.ts:113-122 | inserting a new URL adds one row under the next identifier. The table stays well formed. |
| JobTable.Records | src/services/microsoft.service.ts:102-122 | the writer hands the insert loop one record per job, in order. |
| JobTable.Step | src/services/microsoft.service.ts:103-128 | defines one iteration of the writer loop: a record that throws, or whose URL is stored, leaves the table as it was; otherwise a row is added under the next identifier. |
| JobTable.Saved | src/services/microsoft.service.ts:102-129 | defines the writer loop over a batch: `Step` applied to each record in order. Its properties are the `Saved…` lemmas. |
| JobTable.SaveRecords | src/services/amazon.service.ts:81-112 | the loop leaves the table equal to `Saved` of the old table, the records and the failing set, and keeps it well formed. |
| MicrosoftService.MapJobs | src/services/microsoft.service.ts:59-70 | mapping keeps one job per raw result. |
| MicrosoftService.MapJobsAt | src/services/microsoft.service.ts:60 | the `i`-th mapped job is the mapping of the `i`-th raw result. |
| MicrosoftService.FetchMicrosoftJobs | src/services/microsoft.service.ts:17-95 | the loop requests exactly the page numbers of `Walk` on the Microsoft source. It returns what that walk delivers: the collected jobs, or none if a request threw. |
| MicrosoftService.MapJobNeverEmpty | src/services/microsoft.service.ts:61-69 | every text field of a mapped job is non-empty. The URL is the job-page prefix followed by the raw identifier's text. |
| MicrosoftService.MapJobSentinels | src/services/microsoft.service.ts:61-67 | a field reads "N/A" exactly when its raw value is missing or empty, or is itself "N/A". A present, non-empty value is kept. |
| MicrosoftService.MapJobLocation | src/services/microsoft.service.ts:63-66 | the location is the primary location if present and non-empty, else the first listed location if non-empty, else "N/A". |
| MicrosoftService.MapJobPostedDate | src/services/microsoft.service.ts:68 | the posted date is the raw posting date, or the time the page was received when it is missing. |
| MicrosoftService.MissingIdsShareUrl | src/services/microsoft.service.ts:61-69 | two results without an identifier get the same URL (ending in "undefined") and the identifier "N/A". |
| MicrosoftService.UrlIdentifiesRawId | src/services/microsoft.service.ts:69 | two results get the same URL if and only if their identifiers have the same text. |
| MicrosoftService.PagesRequestedInOrder | src/services/microsoft.service.ts:29-40 | request `i` asks for page `initialPage+i`, never past page 3. From page 1 or later, at most three requests are made. |
| MicrosoftService.MalformedOrEmptyPageEndsWalk | src/services/microsoft.service.ts:54-72 | a page without a job list, or with an empty one, is the last request and adds no jobs. |
| MicrosoftService.FirstPageNeverStops | src/services/microsoft.service.ts:74 | a non-empty page 1 is always followed by a request for page 2. |
| MicrosoftService.NoCheckpointFetchesEveryPage | src/services/microsoft.service.ts:31-33 | with no stored Microsoft job and three non-empty pages, pages 1, 2 and 3 are requested and all their jobs returned in order. |
| MicrosoftService.StopsAfterStaleSecondPage | src/services/microsoft.service.ts:74-85 | if page 2 holds nothing newer than the checkpoint, pages 1 and 2 are returned and page 3 is never requested. |
| MicrosoftService.ProcessAndSaveMicrosoftJobs | src/services/microsoft.service.ts:97-130 | the writer leaves the table equal to `Saved` of the old table and the batch's rows. |
| MicrosoftService.RowData | src/services/microsoft.service.ts:114-121 | defines the columns the writer stores for a job: its title, company "Microsoft", location, description, posted date and URL. |
| MicrosoftService.MapJob | src/services/microsoft.service.ts:60-70 | defines the `map` callback: `"N/A"` fallbacks, the location fallback chain, the posting date or the page's receive time, and the URL from the raw identifier. Its properties are the `MapJob…` lemmas. |
| MicrosoftService.Scrape | src/services/microsoft.service.ts:132-152 | defines one run: read the Microsoft checkpoint, walk from page 1, write what the walk delivered. |
| MicrosoftService.SavedMicrosoftRow | src/services/microsoft.service.ts:113-122 | a row the writer adds has company "Microsoft" and the columns of a non-throwing job of the batch with that URL. |
| MicrosoftService.ScrapeAgainChangesNothing | src/services/microsoft.service.ts:23-26 | against an unchanged API that also gives the same clock readings, a second run after a run without write failures changes nothing. The later checkpoint can only shorten the walk, and everything the shorter walk returns is already stored. |
| AmazonService.WithUrls | src/services/amazon.service.ts:46-49 | enrichment keeps one job per listing. |
| AmazonService.WithUrlsKeepsListings | src/services/amazon.service.ts:46-49 | the `i`-th enriched job keeps every field of the `i`-th listing, and its URL is the site prefix followed by the listing's job path. |
| AmazonService.UrlIdentifiesJobPath | src/services/amazon.service.ts:48 | two listings get the same URL if and only if they have the same job path. |
| AmazonService.FetchAmazonJobs | src/services/amazon.service.ts:17-76 | the loop requests exactly the offsets of `Walk` on the Amazon source. It returns what that walk delivers. |
| AmazonService.OffsetsStepByLimit | src/services/amazon.service.ts:25-65 | request `k` is sent with offset `100*k`, and between one and three requests are made. |
| AmazonService.MissingOrEmptyBatchEndsWalk | src/services/amazon.service.ts:37-44 | a batch with no data, no job list or an empty list is the last request and adds no jobs. |
| AmazonService.FirstBatchNeverStops | src/services/amazon.service.ts:51 | a non-empty first batch is always followed by a request at offset 100. |
| AmazonService.StopsAfterStaleSecondBatch | src/services/amazon.service.ts:51-63 | if the second batch holds nothing newer than the checkpoint, both batches are returned and no third request is made. |
| AmazonService.ProcessAndSaveAmazonJobs | src/services/amazon.service.ts:78-113 | the writer leaves the table equal to `Saved` of the old table and the batch's rows. |
| AmazonService.RowData | src/services/amazon.service.ts:97-104 | defines the columns the writer stores for a job: the listing's title, `company_name`, `normalized_location`, description and posted date, and the job's URL. |
| AmazonService.WithUrl | src/services/amazon.service.ts:46-49 | defines the `map` callback: the listing with `url` set to the site prefix followed by its job path. |
| AmazonService.Scrape | src/services/amazon.service.ts:115-134 | defines one run: read the "Amazon" checkpoint, walk from offset 0, write what the walk delivered. |
| AmazonService.SavedAmazonRow | src/services/amazon.service.ts:96-105 | a row the writer adds has the listing's company name, normalized location, description and date, under the job's URL. |
| AmazonService.CheckpointBlindToCompanyNames | src/services/amazon.service.ts:19-22 | the checkpoint query matches company "Amazon" exactly, but rows carry the listing's company name. If no stored row and no job has that exact name, the checkpoint stays absent after writing. |
| AmazonService.ScrapeAgainChangesNothing | src/services/amazon.service.ts:19-22 | against an unchanged API, a second run after a run without write failures changes nothing. |
| JobController.Skip | src/controllers/job.controller.ts:9 | for positive page and limit, the number of matches skipped is not negative. |
| JobController.TotalPagesIsCeiling | src/controllers/job.controller.ts:38 | the page count is `ceil(total/limit)`: that many pages hold all matches, one fewer would not, and it is 0 only when nothing matches. |
| JobController.PastLastPageIffSkipPastMatches | src/controllers/job.controller.ts:38-41 | a page number greater than the page count (with matches present) is exactly a page that starts at or past the end of the matches (skip ≥ total). |
| JobController.PageOfPosition | src/controllers/job.controller.ts:9-38 | the match at position `i` falls on page `i/limit+1`, a valid page, at offset `i%limit` within it. |
| JobController.Contains | src/controllers/job.controller.ts:16 | the substring test holds exactly when the value occurs at some position of the column. |
| JobController.Filter | src/controllers/job.controller.ts:12-34 | filtering never adds rows. |
| JobController.FilterCounts | src/controllers/job.controller.ts:12-36 | the selection keeps each matching stored row exactly as many times as it is stored, and drops every other row. |
| JobController.FilterSelectsMatches | src/controllers/job.controller.ts:12-34 | a row is selected if and only if it is stored and satisfies every given filter: company, location, and search over title, company or description. |
| JobController.NoFilterSelectsAll | src/controllers/job.controller.ts:14-34 | with no given (non-empty) filter, every stored row is selected. |
| JobController.ContainsInsensitive | src/controllers/job.controller.ts:15-18 | defines `contains` with `mode: "insensitive"`: the lower-cased value occurs in the lower-cased column. |
| JobController.Matches | src/controllers/job.controller.ts:12-34 | defines the `where` object: every given (non-empty) filter holds, `company` and `location` on their own column, `search` on title, company or description. |
| JobController.TotalPages | src/controllers/job.controller.ts:38 | defines `Math.ceil(total / limit)` on integers. `TotalPagesIsCeiling` states it. |
| JobController.PageOf | src/controllers/job.controller.ts:50-57 | defines the `skip`/`take` window of one page: skip `(page-1)*limit` rows, take `limit`. |
| JobController.FilterIgnoresCase | src/controllers/job.controller.ts:14-34 | two filter values that differ only in letter case match the same columns, and two columns that differ only in letter case are matched by the same values. |
| JobController.FilterDependsOnFilters | src/controllers/job.controller.ts:12-34 | page and limit play no part in which rows match. |
| JobController.SortedDescPairwise | src/controllers/job.controller.ts:54-56 | in a newest-first sequence, every earlier row is at least as recent as every later one. |
| JobController.Insert | src/controllers/job.controller.ts:54-56 | inserting into a newest-first sequence keeps it newest first and adds one row, drawn from the row or the sequence. |
| JobController.InsertAdds | src/controllers/job.controller.ts:54-56 | insertion adds exactly the row: the multiset grows by it. |
| JobController.SortByDateDesc | src/controllers/job.controller.ts:54-56 | the ordering is newest first, has the same length, and holds only input rows. |
| JobController.SortPermutes | src/controllers/job.controller.ts:54-56 | the ordering is a permutation of its input. |
| JobController.Window | src/controllers/job.controller.ts:52-53 | the window holds at most `take` rows, the consecutive rows from position `skip`. It is empty exactly when `skip` is at or past the end. |
| JobController.WindowOfSorted | src/controllers/job.controller.ts:50-57 | a window of a newest-first sequence is newest first and drawn from it. |
| JobController.GetJobs | src/controllers/job.controller.ts:41-65 | one or two replies are attempted. The last is the jobs page. There are two exactly when the first is the invalid-page error. |
| JobController.GetJobsCounts | src/controllers/job.controller.ts:37-65 | the jobs page reports the number of matching rows, the page and limit in effect, and the page count of the matches. `total` is the length of the filtered rows, which hold each matching stored row exactly as often as it is stored and no other row. |
| JobController.GetJobsPage | src/controllers/job.controller.ts:50-57 | the jobs page holds at most `limit` rows, each among the matches, newest first. |
| JobController.GetJobsSendsOnlyMatches | src/controllers/job.controller.ts:12-57 | every job sent is a stored row that satisfies every given filter. |
| JobController.GetJobsInvalidPage | src/controllers/job.controller.ts:41-47 | the invalid-page error is sent exactly when there are matches and the requested page starts at or past the end of the matches (skip ≥ total). It reports the total and the page count. The jobs page is then empty. Otherwise it is empty only when nothing matches. |
| JobController.EveryRowOnItsPage | src/controllers/job.controller.ts:9-53 | the row at position `i` of the ordered matches is on page `i/limit+1`, which is valid, at position `i%limit`. Paging through the valid pages lists every match. |
| JobController.FindById | src/controllers/job.controller.ts:76-78 | the lookup finds nothing exactly when no row has the identifier. Otherwise it returns a stored row with that identifier. |
| JobController.GetJobById | src/controllers/job.controller.ts:72-89 | an unknown identifier gets a 404, after which `res.json(null)` is attempted as well. A known one gets that row. |
| JobController.InvalidPageAnswersTwice | src/controllers/job.controller.ts:41-65 | with one stored row, a request for page 2 makes two reply attempts: the 400 error, then an empty jobs page on the already answered request. |
| JobController.GetJobsReturning | src/controllers/job.controller.ts:41-47 | the corrected handler sends exactly one reply. |
| JobController.GetJobsReturningSendsOnePage | src/controllers/job.controller.ts:41-65 | the corrected handler sends what a client of the original receives first. A jobs page it sends is empty only when nothing matches. |
| JobController.UnknownIdAnswersTwice | src/controllers/job.controller.ts:80-84 | for an unknown identifier the handler attempts the 404 and then `null`. |
| JobController.GetJobByIdReturning | src/controllers/job.controller.ts:80-84 | the corrected handler sends one reply: the original's first. It is the 404 exactly when the identifier is unknown. |

## Findings

| source | as written | input that shows it | evidently intended | confidence | as-written member | corrected member |
|---|---|---|---|---|---|---|
| src/controllers/job.controller.ts:41-47 | after the 400 invalid-page reply the handler does not return, and it goes on to attempt a second reply on the already answered request | one stored row and `?page=2` | return after the 400 reply | high (not executed) | JobController.InvalidPageAnswersTwice | JobController.GetJobsReturningSendsOnePage |
| src/controllers/job.controller.ts:80-84 | after the 404 reply the handler does not return, and it goes on to attempt `res.json(null)` | any identifier with no stored row | return after the 404 reply | high (not executed) | JobController.UnknownIdAnswersTwice | JobController.GetJobByIdReturning |

The other members model the handlers as written, including the second reply.

## Left out

- HTTP transport is out of the model: request URLs, query strings, headers, random user agents and the one-second pause between requests. A request is an entry of the `upstream` function.
- `pageSize` and `orderBy` parameters of the Microsoft fetcher: they only shape the request and do not affect the loop.
- Logging, the printing in the `main` functions and the scheduling job that runs the scrapers are not modelled. `Scrape` is the fetch-then-write of one `main`. It writes even an empty batch, which is the same as the source's skip because an empty batch changes nothing.
- The checkpoint query is the parameter `lastJob`. If that query throws, the fetcher returns no jobs; this is not modelled separately.
- MicrosoftService.RawJob: a field sent as JSON `null` is treated like an absent one. That is exact for the text fields, which fall back to "N/A" either way. It is not exact for the URL: a `null` `jobId` gives `.../job/null` in the source, while the model can only give `.../job/undefined`.
- Date parsing: dates are integers. `parseISO` and `new Date` on malformed text (an invalid date, which compares false against anything) are not modelled.
- MicrosoftService.ScrapeAgainChangesNothing: both runs read the same clock. A job without a posting date gets the same `receivedAt` in both runs. A real rerun reads a later clock. A job without a date is then dated later, so it can count as newer than a stored date it fell below the first time. The rerun can then walk past the page where the first run stopped and insert its jobs. This can only happen when a stored "Microsoft" date is at or above a clock reading of the first run.
- MicrosoftService.MapJob: the time used for a missing posting date is one value per page (`receivedAt`), not one clock reading per job.
- AmazonService: a listing field that is absent in the response is not modelled. Every listing has all six fields.
- Concurrency: two scraper runs interleaving their lookup and insert, and the resulting unique-constraint race, are not modelled. A lookup and its insert are taken together.
- The database schema and its identifier type are out of the model. Identifiers are naturals drawn from a counter. `GetJobById` takes an identifier, not the route's text.
- JobController.PositiveParams: `parseInt` of non-numeric, zero or negative `page` or `limit` is not modelled. The model requires positive integers where given.
- JobController.ContainsInsensitive: case folding is ASCII only. The database's Unicode folding and `LIKE` escaping are not modelled.
- JobController.SortByDateDesc: the database leaves the order of rows with equal dates open. The model keeps them in scan order.
- JobController.TotalPages: `Math.ceil` of a floating-point quotient is modelled as exact integer ceiling.
- The handlers return the replies their `try` block attempts, in order. Only the first reaches the client. What Express does with the second attempt is not modelled. It refuses it and throws, so the `catch` block runs. The `catch` block's 500 reply is then refused too, and the handler's promise rejects. The `catch` path on a database error, where the 500 reply is delivered, is not modelled either.

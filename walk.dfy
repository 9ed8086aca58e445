/**
 * What the two page walkers share. Both `fetchMicrosoftJobs` and
 * `fetchAmazonJobs` count requests with a number `n` (the page number, the
 * fetch count), request pages until a cap, a malformed or empty page, or a
 * page with nothing newer than the checkpoint, and collect the mapped jobs of
 * every page they append. This module states that walk once, over an
 * abstract job type, and proves its properties; each service instantiates it.
 */
module PageWalk {
  import opened Wrappers

  /** A page as the walker sees it once mapped: the request threw, the body had no job list, or a list arrived. */
  datatype Page<T> = Failed | NoList | Listed(jobs: seq<T>)

  /** The jobs a page contributes when it is appended: its list, or none. */
  function JobsOf<T>(p: Page<T>): seq<T>
  {
    match p
    case Listed(jobs) => jobs
    case _ => []
  }

  /**
   * One walker: `pages(n)` is what request number `n` yields, `dateOf` the
   * posted date of a job, `sentAs(n)` what request `n` is sent with (a page
   * number, an offset). The stop-at-old-jobs rule applies only to requests
   * with `n > after`; `cap` is the last request number the loop may reach.
   */
  datatype Source<!T> = Source(
    pages: int -> Page<T>,
    dateOf: T -> int,
    sentAs: int -> int,
    after: int,
    cap: int)

  /** How a walk ends: an error escaped the loop, or the loop finished with jobs. */
  datatype Fetched<T> = Threw | Collected(jobs: seq<T>)

  /** The values the requests of a walk were sent with, in order, and how it ended. */
  datatype WalkResult<T> = WalkResult(requests: seq<int>, outcome: Fetched<T>)

  /** What a fetch function hands its caller: a thrown error is caught and becomes the empty list. */
  function Delivered<T>(w: WalkResult<T>): seq<T>
  {
    match w.outcome
    case Threw => []
    case Collected(jobs) => jobs
  }

  /**
   * Requests `reqs` have already been made and `acc` already collected; the
   * rest of the walk is `rest`.
   */
  function Prefixed<T>(reqs: seq<int>, acc: seq<T>, rest: WalkResult<T>): WalkResult<T>
  {
    WalkResult(reqs + rest.requests,
               match rest.outcome
               case Threw => Threw
               case Collected(jobs) => Collected(acc + jobs))
  }

  lemma PrefixedTwice<T>(reqs: seq<int>, acc: seq<T>, req: int, page: seq<T>, rest: WalkResult<T>)
    ensures Prefixed(reqs, acc, Prefixed([req], page, rest)) == Prefixed(reqs + [req], acc + page, rest)
  {
    assert reqs + ([req] + rest.requests) == (reqs + [req]) + rest.requests;
    if rest.outcome.Collected? {
      assert acc + (page + rest.outcome.jobs) == (acc + page) + rest.outcome.jobs;
    }
  }

  lemma PrefixedNothing<T>(w: WalkResult<T>)
    ensures Prefixed([], [], w) == w
  {
    assert [] + w.requests == w.requests;
    if w.outcome.Collected? {
      assert [] + w.outcome.jobs == w.outcome.jobs;
    }
  }

  /** Some job of `xs` is dated strictly later than `last`. */
  predicate AnyNewer<T>(xs: seq<T>, dateOf: T -> int, last: int)
    decreases |xs|
  {
    xs != [] && (dateOf(xs[0]) > last || AnyNewer(xs[1..], dateOf, last))
  }

  lemma {:induction false} AnyNewerIff<T>(xs: seq<T>, dateOf: T -> int, last: int)
    ensures AnyNewer(xs, dateOf, last) <==> exists i :: 0 <= i < |xs| && dateOf(xs[i]) > last
    decreases |xs|
  {
    if xs != [] {
      AnyNewerIff(xs[1..], dateOf, last);
      if exists i :: 0 <= i < |xs| && dateOf(xs[i]) > last {
        var i :| 0 <= i < |xs| && dateOf(xs[i]) > last;
        if i > 0 {
          assert dateOf(xs[1..][i - 1]) > last;
        }
      }
    }
  }

  /**
   * The jobs of `xs` whose date is strictly later than `last`, in their
   * original order (the `filter` callback of both walkers).
   */
  function FilterNewer<T>(xs: seq<T>, dateOf: T -> int, last: int): (r: seq<T>)
    ensures |r| <= |xs|
    ensures |r| == 0 <==> !AnyNewer(xs, dateOf, last)
    decreases |xs|
  {
    if xs == [] then []
    else
      var rest := FilterNewer(xs[1..], dateOf, last);
      if dateOf(xs[0]) > last then [xs[0]] + rest else rest
  }

  /**
   * The filter keeps exactly the jobs dated after `last`: everything it returns
   * comes from `xs` and is newer, and every newer job of `xs` is returned.
   */
  lemma {:induction false} FilterNewerKeepsExactlyNewer<T>(xs: seq<T>, dateOf: T -> int, last: int, x: T)
    ensures x in FilterNewer(xs, dateOf, last) <==> x in xs && dateOf(x) > last
    decreases |xs|
  {
    if xs != [] {
      FilterNewerKeepsExactlyNewer(xs[1..], dateOf, last, x);
      assert xs == [xs[0]] + xs[1..];
    }
  }

  /**
   * The stop-at-old-jobs rule: it applies only when a stored job exists and the
   * rule is armed for this request; it fires when no job on the page is
   * strictly newer than the newest stored one (the walkers test this as "the
   * `FilterNewer` of the page is empty").
   */
  predicate NoNewerJobs<T>(last: Option<int>, armed: bool, page: seq<T>, dateOf: T -> int)
  {
    last.Some? && armed && !AnyNewer(page, dateOf, last.value)
  }

  /** `newer` is at least as recent a checkpoint as `older` ("no checkpoint" is the oldest). */
  predicate AtLeast(newer: Option<int>, older: Option<int>)
  {
    older.None? || (newer.Some? && newer.value >= older.value)
  }

  /**
   * A later checkpoint can only make the stop-at-old-jobs rule fire more often:
   * a page with nothing newer than the older checkpoint has nothing newer than
   * the later one either.
   */
  lemma NoNewerJobsMonotone<T>(older: Option<int>, newer: Option<int>, armed: bool, page: seq<T>, dateOf: T -> int)
    requires AtLeast(newer, older)
    requires NoNewerJobs(older, armed, page, dateOf)
    ensures NoNewerJobs(newer, armed, page, dateOf)
  {
    AnyNewerIff(page, dateOf, older.value);
    AnyNewerIff(page, dateOf, newer.value);
  }

  /**
   * The loop goes on past request `n` only when the page was a non-empty list
   * of jobs that did not trip the stop-at-old-jobs rule. `last` is the date of
   * the newest stored job of the source, if there is one.
   */
  predicate Continues<T>(src: Source<T>, last: Option<int>, n: int)
  {
    && src.pages(n).Listed?
    && |src.pages(n).jobs| > 0
    && !NoNewerJobs(last, n > src.after, src.pages(n).jobs, src.dateOf)
  }

  /**
   * The walk from request `n` on: the requests made and how the loop ends.
   * The page that ends the walk contributes its jobs (none when it is
   * malformed or empty); an error ends it with nothing.
   */
  function Walk<T>(src: Source<T>, last: Option<int>, n: int): WalkResult<T>
    decreases src.cap + 1 - n
  {
    if n > src.cap then WalkResult([], Collected([]))
    else if Continues(src, last, n) then
      Prefixed([src.sentAs(n)], src.pages(n).jobs, Walk(src, last, n + 1))
    else if src.pages(n).Failed? then WalkResult([src.sentAs(n)], Threw)
    else WalkResult([src.sentAs(n)], Collected(JobsOf(src.pages(n))))
  }

  /**
   * The walker's loop run from a given state, test by test as the services
   * write it: `requested` and `acc` so far, `going` the "new jobs found" flag.
   */
  ghost function FetchLoop<T>(src: Source<T>, last: Option<int>, n: int,
                              requested: seq<int>, acc: seq<T>, going: bool): WalkResult<T>
    decreases src.cap + 1 - n
  {
    if !going || n > src.cap then WalkResult(requested, Collected(acc))
    else match src.pages(n)
      case Failed => WalkResult(requested + [src.sentAs(n)], Threw)
      case NoList => WalkResult(requested + [src.sentAs(n)], Collected(acc))
      case Listed(jobs) =>
        if |jobs| == 0 then WalkResult(requested + [src.sentAs(n)], Collected(acc))
        else FetchLoop(src, last, n + 1, requested + [src.sentAs(n)], acc + jobs,
                       !(last.Some? && n > src.after && |FilterNewer(jobs, src.dateOf, last.value)| == 0))
  }

  /** The loop, from any state with the flag up, finishes the walk. */
  lemma {:induction false} FetchLoopIsWalk<T>(src: Source<T>, last: Option<int>, n: int,
                                              requested: seq<int>, acc: seq<T>)
    ensures FetchLoop(src, last, n, requested, acc, true) == Prefixed(requested, acc, Walk(src, last, n))
    decreases src.cap + 1 - n
  {
    if n > src.cap {
      assert requested + [] == requested && acc + [] == acc;
    } else if Continues(src, last, n) {
      FetchLoopIsWalk(src, last, n + 1, requested + [src.sentAs(n)], acc + src.pages(n).jobs);
      PrefixedTwice(requested, acc, src.sentAs(n), src.pages(n).jobs, Walk(src, last, n + 1));
    } else if src.pages(n).Listed? && |src.pages(n).jobs| > 0 {
      assert FetchLoop(src, last, n + 1, requested + [src.sentAs(n)], acc + src.pages(n).jobs, false)
          == WalkResult(requested + [src.sentAs(n)], Collected(acc + src.pages(n).jobs));
    } else {
      assert acc + [] == acc;
    }
  }

  /** The loop started with nothing collected performs exactly the walk. */
  lemma FetchLoopFromStart<T>(src: Source<T>, last: Option<int>, n: int)
    ensures FetchLoop(src, last, n, [], [], true) == Walk(src, last, n)
  {
    FetchLoopIsWalk(src, last, n, [], []);
    PrefixedNothing(Walk(src, last, n));
  }

  // ---------------------------------------------------------------------
  // Properties of the walk

  /**
   * Requests are numbered consecutively from `n`, none beyond the cap; a walk
   * that starts within the cap makes at least one and at most
   * `cap + 1 - n` requests.
   */
  lemma {:induction false} WalkRequestsConsecutive<T>(src: Source<T>, last: Option<int>, n: int)
    ensures var reqs := Walk(src, last, n).requests;
      && (forall i :: 0 <= i < |reqs| ==> reqs[i] == src.sentAs(n + i) && n + i <= src.cap)
      && (n > src.cap ==> reqs == [])
      && (n <= src.cap ==> 1 <= |reqs| <= src.cap + 1 - n)
    decreases src.cap + 1 - n
  {
    if n <= src.cap && Continues(src, last, n) {
      WalkRequestsConsecutive(src, last, n + 1);
      var reqs := Walk(src, last, n).requests;
      var more := Walk(src, last, n + 1).requests;
      assert reqs == [src.sentAs(n)] + more;
      assert forall i :: 1 <= i < |reqs| ==> reqs[i] == more[i - 1];
    }
  }

  /** The jobs of `count` consecutive pages from request `n` on, concatenated in order. */
  function PagesFrom<T>(src: Source<T>, n: int, count: nat): seq<T>
    decreases count
  {
    if count == 0 then [] else JobsOf(src.pages(n)) + PagesFrom(src, n + 1, count - 1)
  }

  /**
   * A walk that ends without an error returns exactly the concatenation of
   * the pages it requested, in order and including the page that stopped it;
   * it ends in an error exactly when its last request threw.
   */
  lemma {:induction false} WalkCollectsRequestedPages<T>(src: Source<T>, last: Option<int>, n: int)
    ensures var w := Walk(src, last, n);
      && (w.outcome.Collected? ==> w.outcome.jobs == PagesFrom(src, n, |w.requests|))
      && (w.outcome.Threw? <==> |w.requests| > 0 && src.pages(n + |w.requests| - 1).Failed?)
    decreases src.cap + 1 - n
  {
    var w := Walk(src, last, n);
    if n <= src.cap {
      if Continues(src, last, n) {
        WalkCollectsRequestedPages(src, last, n + 1);
      } else {
        assert PagesFrom(src, n, 1) == JobsOf(src.pages(n)) + [];
      }
    }
  }

  /**
   * The walk moves past a request only when its page was a non-empty list of
   * jobs that did not trip the stop-at-old-jobs rule.
   */
  lemma {:induction false} WalkContinuesOnlyPastFreshPages<T>(src: Source<T>, last: Option<int>, n: int, i: nat)
    requires i + 1 < |Walk(src, last, n).requests|
    ensures Continues(src, last, n + i)
    decreases src.cap + 1 - n
  {
    assert n <= src.cap && Continues(src, last, n);
    if i > 0 {
      WalkContinuesOnlyPastFreshPages(src, last, n + 1, i - 1);
    }
  }

  /** The last request of a walk is one it did not go past, unless it reached the cap. */
  lemma {:induction false} WalkEndsWhereItStops<T>(src: Source<T>, last: Option<int>, n: int)
    requires n <= src.cap
    ensures var k := n + |Walk(src, last, n).requests| - 1;
      k < src.cap ==> !Continues(src, last, k)
    decreases src.cap + 1 - n
  {
    if Continues(src, last, n) && n < src.cap {
      WalkEndsWhereItStops(src, last, n + 1);
    }
  }

  /**
   * What ends the walk at request `n`: an error, a response without a job
   * list, an empty list, or, where the rule is armed and a checkpoint exists,
   * a page none of whose jobs is dated after the checkpoint.
   */
  predicate StopCause<T>(src: Source<T>, last: Option<int>, n: int)
  {
    || !src.pages(n).Listed?
    || |src.pages(n).jobs| == 0
    || (&& last.Some? && n > src.after
        && forall i :: 0 <= i < |src.pages(n).jobs| ==> src.dateOf(src.pages(n).jobs[i]) <= last.value)
  }

  /** The walk goes past a request exactly when there is no stop cause there. */
  lemma ContinuesUnlessStopCause<T>(src: Source<T>, last: Option<int>, n: int)
    ensures Continues(src, last, n) <==> !StopCause(src, last, n)
  {
    if src.pages(n).Listed? && last.Some? {
      AnyNewerIff(src.pages(n).jobs, src.dateOf, last.value);
    }
  }

  /**
   * The walk ends before the cap only for a stop cause; without a checkpoint
   * the stop-at-old-jobs rule never fires, so only an error, a missing list
   * or an empty list ends it early.
   */
  lemma WalkStopsOnlyForCause<T>(src: Source<T>, last: Option<int>, n: int)
    requires n <= src.cap
    ensures var k := n + |Walk(src, last, n).requests| - 1;
      k < src.cap ==> StopCause(src, last, k) && (last.None? ==> !src.pages(k).Listed? || |src.pages(k).jobs| == 0)
  {
    WalkEndsWhereItStops(src, last, n);
    ContinuesUnlessStopCause(src, last, n + |Walk(src, last, n).requests| - 1);
  }

  /**
   * The stop-at-old-jobs rule is not armed on the first request: a walk whose
   * first page is a non-empty list goes on to the next request, however old
   * the page's jobs are.
   */
  lemma FirstRequestNeverStops<T>(src: Source<T>, last: Option<int>, n: int)
    requires n <= src.after && n < src.cap
    requires src.pages(n).Listed? && |src.pages(n).jobs| > 0
    ensures |Walk(src, last, n).requests| >= 2
    ensures Walk(src, last, n).requests[1] == src.sentAs(n + 1)
  {
    WalkRequestsConsecutive(src, last, n);
    WalkRequestsConsecutive(src, last, n + 1);
  }

  /**
   * A later checkpoint can only end the walk sooner: its requests are a
   * prefix of those made under an older checkpoint, and when the older walk
   * ends without an error the newer one does too, with a prefix of its jobs.
   */
  lemma {:induction false} LaterCheckpointStopsSooner<T>(src: Source<T>, older: Option<int>, newer: Option<int>, n: int)
    requires AtLeast(newer, older)
    ensures Walk(src, newer, n).requests <= Walk(src, older, n).requests
    ensures Walk(src, older, n).outcome.Collected? ==>
              && Walk(src, newer, n).outcome.Collected?
              && Walk(src, newer, n).outcome.jobs <= Walk(src, older, n).outcome.jobs
    decreases src.cap + 1 - n
  {
    if n <= src.cap {
      var js := JobsOf(src.pages(n));
      if Continues(src, newer, n) {
        if NoNewerJobs(older, n > src.after, js, src.dateOf) {
          NoNewerJobsMonotone(older, newer, n > src.after, js, src.dateOf);
        }
        LaterCheckpointStopsSooner(src, older, newer, n + 1);
        var rn, ro := Walk(src, newer, n + 1), Walk(src, older, n + 1);
        assert [src.sentAs(n)] + rn.requests <= [src.sentAs(n)] + ro.requests;
        if ro.outcome.Collected? {
          assert js + rn.outcome.jobs <= js + ro.outcome.jobs;
        }
      } else if Continues(src, older, n) {
        var ro := Walk(src, older, n + 1);
        assert [src.sentAs(n)] <= [src.sentAs(n)] + ro.requests;
        if ro.outcome.Collected? {
          assert js <= js + ro.outcome.jobs;
        }
      }
    }
  }
}

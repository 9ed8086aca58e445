/**
 * The read endpoints over the `jobs` table: `GetJobs` (filter, order by
 * posted date, paginate) and `GetJobById`.
 *
 * The table is read as `rows`, its rows in the order the database scans
 * them. A handler's result is the list of replies it attempts, in order:
 * neither handler returns after its error reply, so an invalid page or an
 * unknown id is followed by an attempt at a second reply. Only the first
 * attempted reply reaches the client; see `GetJobsReturning` and
 * `GetJobByIdReturning` for the handlers that stop after it.
 */
module JobController {
  import opened Wrappers
  import opened JobTable

  const DefaultPage := 1
  const DefaultLimit := 10

  /** The query string of `GET /`: absent parameters are None. */
  datatype Query = Query(
    page: Option<int>,
    limit: Option<int>,
    company: Option<string>,
    location: Option<string>,
    search: Option<string>)

  /** A reply the handler attempts to send. */
  datatype Reply =
    | InvalidPage(total: nat, totalPages: nat)          // status 400
    | JobsPage(total: nat, page: int, limit: int, totalPages: nat, jobs: seq<Row>)
    | NotFound                                          // status 404
    | JobJson(job: Option<Row>)                         // `res.json(job)`; None is `null`

  /** Page and limit, where given, are positive integers. */
  predicate PositiveParams(q: Query)
  {
    (q.page.None? || q.page.value >= 1) && (q.limit.None? || q.limit.value >= 1)
  }

  function PageNum(q: Query): int
  {
    if q.page.Some? then q.page.value else DefaultPage
  }

  function LimitNum(q: Query): int
  {
    if q.limit.Some? then q.limit.value else DefaultLimit
  }

  /** The number of matches on the pages before `page`. */
  function Skip(page: int, limit: int): (skip: int)
    requires page >= 1 && limit >= 1
    ensures skip >= 0
  {
    MulMonotone(0, page - 1, limit);
    (page - 1) * limit
  }

  /** `Math.ceil(total / limit)`: the fewest pages of `limit` rows that hold `total` rows. */
  function TotalPages(total: nat, limit: int): nat
    requires limit >= 1
  {
    (total + limit - 1) / limit
  }

  /** `TotalPages` is the ceiling of `total / limit`: enough pages, and no page too many. */
  lemma TotalPagesIsCeiling(total: nat, limit: int)
    requires limit >= 1
    ensures TotalPages(total, limit) * limit >= total
    ensures total > 0 ==> (TotalPages(total, limit) - 1) * limit < total
    ensures TotalPages(total, limit) == 0 <==> total == 0
  {
    var pages, r := TotalPages(total, limit), (total + limit - 1) % limit;
    assert total + limit - 1 == pages * limit + r;
  }

  // ---------------------------------------------------------------------
  // Case-insensitive substring tests

  /** ASCII lower-casing of one character. */
  function LowerChar(c: char): char
  {
    if 'A' <= c <= 'Z' then (c as int + 32) as char else c
  }

  function Lower(s: string): string
  {
    seq(|s|, i requires 0 <= i < |s| => LowerChar(s[i]))
  }

  /** `sub` occurs in `s` starting at position `i`. */
  predicate OccursAt(s: string, sub: string, i: int)
  {
    0 <= i && i + |sub| <= |s| && s[i..i + |sub|] == sub
  }

  /** Substring search, as the database's `contains` does it. */
  function Contains(s: string, sub: string): (found: bool)
    ensures found <==> exists i :: OccursAt(s, sub, i)
    decreases |s|
  {
    if |sub| > |s| then
      assert forall i :: !OccursAt(s, sub, i);
      false
    else if s[..|sub|] == sub then
      assert OccursAt(s, sub, 0);
      true
    else
      var rest := Contains(s[1..], sub);
      assert forall i :: OccursAt(s[1..], sub, i) <==> OccursAt(s, sub, i + 1) by {
        forall i ensures OccursAt(s[1..], sub, i) <==> OccursAt(s, sub, i + 1) {
          if 0 <= i && i + |sub| <= |s| - 1 {
            assert s[1..][i..i + |sub|] == s[i + 1..i + 1 + |sub|];
          }
        }
      }
      assert rest <==> exists i :: OccursAt(s, sub, i) by {
        if exists i :: OccursAt(s, sub, i) {
          var i :| OccursAt(s, sub, i);
          assert i != 0;
          assert OccursAt(s[1..], sub, i - 1);
        }
      }
      rest
  }

  /** `contains` with `mode: "insensitive"`. */
  predicate ContainsInsensitive(s: string, sub: string)
  {
    Contains(Lower(s), Lower(sub))
  }

  /**
   * The `where` object: every given filter must hold; `company` and
   * `location` test their own column, `search` any of title, company and
   * description.
   */
  predicate Matches(q: Query, j: JobData)
  {
    && (Truthy(q.company) ==> ContainsInsensitive(j.company, q.company.value))
    && (Truthy(q.location) ==> ContainsInsensitive(j.location, q.location.value))
    && (Truthy(q.search) ==>
          || ContainsInsensitive(j.title, q.search.value)
          || ContainsInsensitive(j.company, q.search.value)
          || ContainsInsensitive(j.description, q.search.value))
  }

  /** The rows the `where` object selects, in scan order. */
  function Filter(q: Query, rows: seq<Row>): (r: seq<Row>)
    ensures |r| <= |rows|
    decreases |rows|
  {
    if rows == [] then []
    else if Matches(q, rows[0].job) then [rows[0]] + Filter(q, rows[1..])
    else Filter(q, rows[1..])
  }

  /** `Filter` keeps exactly the stored rows that satisfy every given filter. */
  lemma {:induction false} FilterSelectsMatches(q: Query, rows: seq<Row>)
    ensures forall x :: x in Filter(q, rows) <==> x in rows && Matches(q, x.job)
    decreases |rows|
  {
    if rows != [] {
      FilterSelectsMatches(q, rows[1..]);
      assert forall x :: x in rows <==> x == rows[0] || x in rows[1..];
    }
  }

  /**
   * `Filter` keeps every matching row as often as it is stored and no other
   * row, so its length is the number of matches.
   */
  lemma {:induction false} FilterCounts(q: Query, rows: seq<Row>, x: Row)
    ensures multiset(Filter(q, rows))[x] == if Matches(q, x.job) then multiset(rows)[x] else 0
    decreases |rows|
  {
    if rows != [] {
      FilterCounts(q, rows[1..], x);
      assert rows == [rows[0]] + rows[1..];
    }
  }

  // ---------------------------------------------------------------------
  // Ordering and the page window

  /** Newest first: no row is newer than the one before it. */
  predicate SortedDesc(rs: seq<Row>)
  {
    forall i :: 0 < i < |rs| ==> rs[i - 1].job.postedDate >= rs[i].job.postedDate
  }

  /** Newest first, stated for every pair of positions. */
  lemma {:induction false} SortedDescPairwise(rs: seq<Row>)
    requires SortedDesc(rs)
    ensures forall i, j :: 0 <= i < j < |rs| ==> rs[i].job.postedDate >= rs[j].job.postedDate
    decreases |rs|
  {
    if rs != [] {
      var tail := rs[1..];
      SortedDescPairwise(tail);
      forall i, j | 0 <= i < j < |rs|
        ensures rs[i].job.postedDate >= rs[j].job.postedDate
      {
        assert rs[j] == tail[j - 1];
        if i == 0 {
          if j > 1 {
            assert rs[1] == tail[0];
          }
        } else {
          assert rs[i] == tail[i - 1];
        }
      }
    }
  }

  /** Put `x` before the first row that is not newer than it. */
  function Insert(x: Row, rs: seq<Row>): (r: seq<Row>)
    requires SortedDesc(rs)
    ensures |r| == |rs| + 1
    ensures r[0] == x || (rs != [] && r[0] == rs[0])
    ensures forall k :: 0 <= k < |r| ==> r[k] == x || r[k] in rs
    ensures SortedDesc(r)
    decreases |rs|
  {
    if rs == [] || x.job.postedDate >= rs[0].job.postedDate then [x] + rs
    else
      var rest := Insert(x, rs[1..]);
      assert rs == [rs[0]] + rs[1..];
      [rs[0]] + rest
  }

  /**
   * `orderBy: { posted_date: "desc" }`: the same rows, newest first. The
   * database leaves the order of rows with equal dates open; here the row
   * that comes first in scan order stays first.
   */
  function SortByDateDesc(rs: seq<Row>): (r: seq<Row>)
    ensures |r| == |rs|
    ensures forall k :: 0 <= k < |r| ==> r[k] in rs
    ensures SortedDesc(r)
    decreases |rs|
  {
    if rs == [] then []
    else
      var rest := SortByDateDesc(rs[1..]);
      var r := Insert(rs[0], rest);
      assert forall k :: 0 <= k < |r| ==> r[k] in rs by {
        forall k | 0 <= k < |r|
          ensures r[k] in rs
        {
          if r[k] != rs[0] {
            var m :| 0 <= m < |rest| && rest[m] == r[k];
            assert rest[m] in rs[1..];
          }
        }
      }
      r
  }

  /** `Insert` adds exactly `x`. */
  lemma {:induction false} InsertAdds(x: Row, rs: seq<Row>)
    requires SortedDesc(rs)
    ensures multiset(Insert(x, rs)) == multiset(rs) + multiset{x}
    decreases |rs|
  {
    if rs != [] && x.job.postedDate < rs[0].job.postedDate {
      InsertAdds(x, rs[1..]);
      assert rs == [rs[0]] + rs[1..];
    }
  }

  /** Sorting neither drops nor duplicates a row. */
  lemma {:induction false} SortPermutes(rs: seq<Row>)
    ensures multiset(SortByDateDesc(rs)) == multiset(rs)
    decreases |rs|
  {
    if rs != [] {
      var rest := SortByDateDesc(rs[1..]);
      SortPermutes(rs[1..]);
      InsertAdds(rs[0], rest);
      assert SortByDateDesc(rs) == Insert(rs[0], rest);
      assert rs == [rs[0]] + rs[1..];
      assert multiset(rs) == multiset{rs[0]} + multiset(rs[1..]);
    }
  }

  /** `skip` then `take`: the rows at positions `skip` to `skip + take - 1` that exist. */
  function Window(xs: seq<Row>, skip: int, take: int): (r: seq<Row>)
    requires skip >= 0 && take >= 1
    ensures |r| <= take
    ensures skip >= |xs| <==> r == []
    ensures forall i :: 0 <= i < |r| ==> skip + i < |xs| && r[i] == xs[skip + i]
  {
    if skip >= |xs| then []
    else if skip + take >= |xs| then xs[skip..]
    else xs[skip..skip + take]
  }

  // ---------------------------------------------------------------------
  // The handlers

  /**
   * `GetJobs`: count the matches, report an invalid page when the requested
   * page lies past the last one (and there are matches), then, in any case,
   * reply with the page window of the matches, newest first.
   */
  function GetJobs(q: Query, rows: seq<Row>): (replies: seq<Reply>)
    requires PositiveParams(q)
    ensures 1 <= |replies| <= 2
    ensures replies[|replies| - 1].JobsPage?
    ensures |replies| == 2 <==> replies[0].InvalidPage?
  {
    var page := PageNum(q);
    var limit := LimitNum(q);
    var total := |Filter(q, rows)|;
    var totalPages := TotalPages(total, limit);
    var reply := JobsPage(total, page, limit, totalPages, PageOf(SortByDateDesc(Filter(q, rows)), page, limit));
    if page > totalPages && total > 0 then [InvalidPage(total, totalPages), reply] else [reply]
  }

  /** Page `page` of `limit` rows of `xs`: skip the earlier pages, take `limit`. */
  function PageOf(xs: seq<Row>, page: int, limit: int): seq<Row>
    requires page >= 1 && limit >= 1
  {
    Window(xs, Skip(page, limit), limit)
  }

  /** `findUnique` on `id`: the first row with that identifier, if any. */
  function FindById(rows: seq<Row>, id: nat): (found: Option<Row>)
    ensures found.None? <==> forall i :: 0 <= i < |rows| ==> rows[i].id != id
    ensures found.Some? ==> found.value in rows && found.value.id == id
    decreases |rows|
  {
    if rows == [] then None
    else if rows[0].id == id then Some(rows[0])
    else FindById(rows[1..], id)
  }

  /**
   * `GetJobById`: a missing row gets a 404 and then, since the handler does
   * not return, `res.json(null)` is attempted; a found row is sent as JSON.
   */
  function GetJobById(rows: seq<Row>, id: nat): (replies: seq<Reply>)
    ensures (forall i :: 0 <= i < |rows| ==> rows[i].id != id) <==> replies == [NotFound, JobJson(None)]
    ensures (exists i :: 0 <= i < |rows| && rows[i].id == id) ==>
              |replies| == 1 && replies[0].JobJson? && replies[0].job.Some?
              && replies[0].job.value in rows && replies[0].job.value.id == id
  {
    var job := FindById(rows, id);
    if job.None? then [NotFound, JobJson(None)] else [JobJson(job)]
  }

  // ---------------------------------------------------------------------
  // Properties of GetJobs

  lemma MulMonotone(a: int, b: int, c: int)
    requires a <= b && c >= 0
    ensures a * c <= b * c
  {
  }

  /**
   * The requested page lies past the last one exactly when it starts at or
   * past the end of the matches: `page > ceil(total / limit)` is `skip >= total`.
   */
  lemma PastLastPageIffSkipPastMatches(page: int, limit: int, total: nat)
    requires page >= 1 && limit >= 1 && total > 0
    ensures page > TotalPages(total, limit) <==> Skip(page, limit) >= total
  {
    var tp := TotalPages(total, limit);
    TotalPagesIsCeiling(total, limit);
    if page > tp {
      MulMonotone(tp, page - 1, limit);
    } else {
      MulMonotone(page - 1, tp - 1, limit);
    }
  }

  /** The `skip` newest matches precede the page; the page itself follows them in order. */
  lemma PageOfPosition(i: int, limit: int, total: nat)
    requires limit >= 1 && 0 <= i < total
    ensures var p := i / limit + 1;
      && 1 <= p <= TotalPages(total, limit)
      && Skip(p, limit) + i % limit == i
      && i % limit < limit
  {
    var p := i / limit + 1;
    assert Skip(p, limit) == (i / limit) * limit;
    PastLastPageIffSkipPastMatches(p, limit, total);
  }

  /**
   * What `GetJobs` sends last reports the number of matching rows, the page
   * and limit in effect, and the number of pages.
   */
  lemma GetJobsCounts(q: Query, rows: seq<Row>)
    requires PositiveParams(q)
    ensures var replies := GetJobs(q, rows);
      var reply := replies[|replies| - 1];
      && reply.total == |Filter(q, rows)|
      && (forall x :: multiset(Filter(q, rows))[x] == if Matches(q, x.job) then multiset(rows)[x] else 0)
      && reply.page == PageNum(q) && reply.limit == LimitNum(q)
      && reply.totalPages == TotalPages(reply.total, LimitNum(q))
  {
    forall x {
      FilterCounts(q, rows, x);
    }
  }

  /**
   * The jobs `GetJobs` sends last: at most `limit` of the matching rows,
   * newest first.
   */
  lemma GetJobsPage(q: Query, rows: seq<Row>)
    requires PositiveParams(q)
    ensures var replies := GetJobs(q, rows);
      var jobs := replies[|replies| - 1].jobs;
      && |jobs| <= LimitNum(q)
      && (forall k :: 0 <= k < |jobs| ==> jobs[k] in Filter(q, rows))
      && SortedDesc(jobs)
  {
    var sorted := SortByDateDesc(Filter(q, rows));
    assert GetJobs(q, rows)[|GetJobs(q, rows)| - 1].jobs == PageOf(sorted, PageNum(q), LimitNum(q));
    WindowOfSorted(sorted, Skip(PageNum(q), LimitNum(q)), LimitNum(q));
  }

  /** Every job `GetJobs` sends is a stored row that satisfies every given filter. */
  lemma GetJobsSendsOnlyMatches(q: Query, rows: seq<Row>)
    requires PositiveParams(q)
    ensures var replies := GetJobs(q, rows);
      var jobs := replies[|replies| - 1].jobs;
      forall k :: 0 <= k < |jobs| ==> jobs[k] in rows && Matches(q, jobs[k].job)
  {
    GetJobsPage(q, rows);
    FilterSelectsMatches(q, rows);
  }

  /** A window of a newest-first sequence is newest first and drawn from it. */
  lemma WindowOfSorted(xs: seq<Row>, skip: int, take: int)
    requires skip >= 0 && take >= 1 && SortedDesc(xs)
    ensures SortedDesc(Window(xs, skip, take))
    ensures forall k :: 0 <= k < |Window(xs, skip, take)| ==> Window(xs, skip, take)[k] in xs
  {
    var w := Window(xs, skip, take);
    forall k | 0 < k < |w|
      ensures w[k - 1].job.postedDate >= w[k].job.postedDate
    {
      assert w[k - 1] == xs[skip + k - 1] && w[k] == xs[skip + k];
    }
  }

  /**
   * The invalid-page reply is sent exactly when there are matches and the
   * requested page starts at or past the end of the matches (`skip >= total`);
   * it reports the total and the last valid page. The jobs sent after it are then necessarily empty,
   * and they are empty otherwise only when nothing matches.
   */
  lemma GetJobsInvalidPage(q: Query, rows: seq<Row>)
    requires PositiveParams(q)
    ensures var replies := GetJobs(q, rows);
      var total := |Filter(q, rows)|;
      && (replies[0].InvalidPage? <==> total > 0 && Skip(PageNum(q), LimitNum(q)) >= total)
      && (replies[0].InvalidPage? ==> replies[0] == InvalidPage(total, TotalPages(total, LimitNum(q))))
      && (replies[|replies| - 1].jobs == [] <==> total == 0 || replies[0].InvalidPage?)
  {
    var total := |Filter(q, rows)|;
    if total > 0 {
      PastLastPageIffSkipPastMatches(PageNum(q), LimitNum(q), total);
    }
  }

  /**
   * Pagination covers every row: the row at position `i` of `xs` (in
   * `GetJobs`, the newest-first matches) is on page `i / limit + 1`, which is
   * a valid page, at position `i % limit`.
   */
  lemma EveryRowOnItsPage(xs: seq<Row>, limit: int, i: int)
    requires limit >= 1 && 0 <= i < |xs|
    ensures var p := i / limit + 1;
      && 1 <= p <= TotalPages(|xs|, limit)
      && i % limit < |PageOf(xs, p, limit)|
      && PageOf(xs, p, limit)[i % limit] == xs[i]
  {
    PageOfPosition(i, limit, |xs|);
    WindowAt(xs, Skip(i / limit + 1, limit), limit, i % limit);
  }

  /** Page and limit play no part in which rows match. */
  lemma {:induction false} FilterDependsOnFilters(q: Query, q': Query, rows: seq<Row>)
    requires q.company == q'.company && q.location == q'.location && q.search == q'.search
    ensures Filter(q, rows) == Filter(q', rows)
    decreases |rows|
  {
    if rows != [] {
      FilterDependsOnFilters(q, q', rows[1..]);
    }
  }

  /** A position inside the window that exists in `xs` is on the page. */
  lemma WindowAt(xs: seq<Row>, skip: int, take: int, k: int)
    requires skip >= 0 && take >= 1 && 0 <= k < take && skip + k < |xs|
    ensures k < |Window(xs, skip, take)| && Window(xs, skip, take)[k] == xs[skip + k]
  {
  }

  /** Without a given filter, every stored row is listed. */
  lemma {:induction false} NoFilterSelectsAll(q: Query, rows: seq<Row>)
    requires !Truthy(q.company) && !Truthy(q.location) && !Truthy(q.search)
    ensures Filter(q, rows) == rows
    decreases |rows|
  {
    if rows != [] {
      NoFilterSelectsAll(q, rows[1..]);
    }
  }

  /**
   * The filters ignore ASCII case: two filter values that differ only in
   * letter case match the same column values, and two column values that
   * differ only in letter case are matched by the same filter values.
   */
  lemma FilterIgnoresCase(s: string, a: string, b: string)
    requires Lower(a) == Lower(b)
    ensures ContainsInsensitive(s, a) == ContainsInsensitive(s, b)
    ensures ContainsInsensitive(a, s) == ContainsInsensitive(b, s)
  {
  }

  // ---------------------------------------------------------------------
  // The handlers with a `return` after their error reply

  /**
   * Neither handler returns after its error reply, so it goes on to attempt a
   * second reply on a request that has already been answered. The smallest
   * case for `GetJobs`: one stored row and a request for page 2.
   */
  lemma InvalidPageAnswersTwice(r: Row)
    ensures GetJobs(Query(Some(2), None, None, None, None), [r])
         == [InvalidPage(1, 1), JobsPage(1, 2, 10, 1, [])]
  {
    var q := Query(Some(2), None, None, None, None);
    NoFilterSelectsAll(q, [r]);
    assert TotalPages(1, 10) == 1;
  }

  /**
   * `GetJobs` with a `return` after the invalid-page reply: one reply per
   * request.
   */
  function GetJobsReturning(q: Query, rows: seq<Row>): (replies: seq<Reply>)
    requires PositiveParams(q)
    ensures |replies| == 1
  {
    var page := PageNum(q);
    var limit := LimitNum(q);
    var total := |Filter(q, rows)|;
    var totalPages := TotalPages(total, limit);
    if page > totalPages && total > 0 then [InvalidPage(total, totalPages)]
    else [JobsPage(total, page, limit, totalPages, PageOf(SortByDateDesc(Filter(q, rows)), page, limit))]
  }

  /**
   * The corrected `GetJobs` sends exactly the reply the client of the
   * original receives (the first), and a page it sends is empty only when
   * nothing matches.
   */
  lemma GetJobsReturningSendsOnePage(q: Query, rows: seq<Row>)
    requires PositiveParams(q)
    ensures GetJobsReturning(q, rows)[0] == GetJobs(q, rows)[0]
    ensures GetJobsReturning(q, rows)[0].JobsPage? ==>
              (GetJobsReturning(q, rows)[0].jobs == [] <==> Filter(q, rows) == [])
  {
    GetJobsInvalidPage(q, rows);
  }

  /**
   * The same for `GetJobById`: an unknown identifier is answered with a 404,
   * and `res.json(null)` is then attempted as well.
   */
  lemma UnknownIdAnswersTwice(id: nat)
    ensures GetJobById([], id) == [NotFound, JobJson(None)]
  {
  }

  /** `GetJobById` with a `return` after the 404: one reply per request. */
  function GetJobByIdReturning(rows: seq<Row>, id: nat): (replies: seq<Reply>)
    ensures |replies| == 1
    ensures replies[0] == GetJobById(rows, id)[0]
    ensures replies[0] == NotFound <==> forall i :: 0 <= i < |rows| ==> rows[i].id != id
  {
    var job := FindById(rows, id);
    if job.None? then [NotFound] else [JobJson(job)]
  }
}

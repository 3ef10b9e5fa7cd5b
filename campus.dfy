/**
 * api/campus.py: the campus directory, read page by page.
 *
 * Page `p` is asked for by the `p`-th call, so call number `p - 1` of the
 * recorded replies answers it. The loop stops on an empty page, a short
 * page, any status other than 200, or after page 20; an exception throws
 * away everything collected so far.
 */
module CampusApi {
  import opened Seqs
  import opened Records
  import Settings

  /**
   * What the page loop ends with from page `page` on: the campus rows
   * collected, the number of requests issued, and whether an exception ended it.
   */
  datatype PageRun = PageRun(campus: seq<Campus>, requests: nat, failed: bool)

  /** The page loop from page `page` on, as a value. */
  function CampusRun(replies: seq<Reply<seq<Campus>>>, page: nat): PageRun
    requires page >= 1
    decreases Settings.CampusMaxPages + 1 - page
  {
    if page > Settings.CampusMaxPages then PageRun([], 0, false)
    else
      match ReplyAt(replies, page - 1)
      case Ok(data) =>
        if data == [] then PageRun([], 1, false)
        else if |data| < Settings.PageSize then PageRun(data, 1, false)
        else
          var rest := CampusRun(replies, page + 1);
          PageRun(data + rest.campus, rest.requests + 1, rest.failed)
      case Failed => PageRun([], 1, true)
      case _ => PageRun([], 1, false)
  }

  /** `get_campus`: the collected rows, or nothing when an exception ended the loop. */
  function GetCampus(replies: seq<Reply<seq<Campus>>>): seq<Campus>
  {
    var run := CampusRun(replies, 1);
    if run.failed then [] else run.campus
  }

  /** The rows of the successful replies among the first `n` calls, in call order. */
  function OkBodies(replies: seq<Reply<seq<Campus>>>, n: nat): seq<Campus>
  {
    if n == 0 then []
    else OkBodies(replies, n - 1) + (if ReplyAt(replies, n - 1).Ok? then ReplyAt(replies, n - 1).body else [])
  }

  /** A call answered by a full page of rows. */
  predicate FullPage(reply: Reply<seq<Campus>>)
  {
    reply.Ok? && |reply.body| >= Settings.PageSize
  }

  /**
   * The page loop itself. Returns the result of `get_campus` and the page
   * numbers it asked for.
   */
  method FetchCampus(replies: seq<Reply<seq<Campus>>>) returns (campus: seq<Campus>, pages: seq<nat>)
    ensures campus == GetCampus(replies)
    ensures |pages| == CampusRun(replies, 1).requests
    ensures forall k :: 0 <= k < |pages| ==> pages[k] == k + 1
  {
    var all: seq<Campus> := [];
    var page := 1;
    var failed := false;
    pages := [];
    while page <= Settings.CampusMaxPages
      invariant 1 <= page <= Settings.CampusMaxPages + 1
      invariant PagesSoFar(replies, page, all, pages)
      decreases Settings.CampusMaxPages + 1 - page
    {
      var reply := ReplyAt(replies, page - 1);
      if !FullPage(reply) {
        PageStop(replies, page, all, pages);
      } else {
        PageNext(replies, page, all, pages);
      }
      pages := pages + [page];
      if reply.Failed? {
        failed := true;
        break;
      }
      if !reply.Ok? {
        break;
      }
      var data := reply.body;
      if data == [] {
        break;
      }
      all := all + data;
      if |data| < Settings.PageSize {
        break;
      }
      page := page + 1;
    }
    if page > Settings.CampusMaxPages {
      assert CampusRun(replies, page) == PageRun([], 0, false);
    }
    campus := if failed then [] else all;
  }

  /** The loop of `get_campus` before asking for page `page`: `all` and `pages` so far, the run of the rest still to come. */
  ghost predicate PagesSoFar(replies: seq<Reply<seq<Campus>>>, page: nat, all: seq<Campus>, pages: seq<nat>)
    requires page >= 1
  {
    && |pages| == page - 1
    && (forall k :: 0 <= k < |pages| ==> pages[k] == k + 1)
    && CampusRun(replies, 1).campus == all + CampusRun(replies, page).campus
    && CampusRun(replies, 1).requests == |pages| + CampusRun(replies, page).requests
    && CampusRun(replies, 1).failed == CampusRun(replies, page).failed
  }

  /** A full page lets the loop go on to the next page. */
  lemma PageNext(replies: seq<Reply<seq<Campus>>>, page: nat, all: seq<Campus>, pages: seq<nat>)
    requires 1 <= page <= Settings.CampusMaxPages
    requires PagesSoFar(replies, page, all, pages)
    requires FullPage(ReplyAt(replies, page - 1))
    ensures PagesSoFar(replies, page + 1, all + ReplyAt(replies, page - 1).body, pages + [page])
  {
    var data := ReplyAt(replies, page - 1).body;
    var rest := CampusRun(replies, page + 1);
    assert CampusRun(replies, page) == PageRun(data + rest.campus, rest.requests + 1, rest.failed);
    assert all + (data + rest.campus) == (all + data) + rest.campus;
  }

  /** Any other reply ends the loop with this page as the last request. */
  lemma PageStop(replies: seq<Reply<seq<Campus>>>, page: nat, all: seq<Campus>, pages: seq<nat>)
    requires 1 <= page <= Settings.CampusMaxPages
    requires PagesSoFar(replies, page, all, pages)
    requires !FullPage(ReplyAt(replies, page - 1))
    ensures var reply := ReplyAt(replies, page - 1);
      && CampusRun(replies, 1).campus == all + (if reply.Ok? then reply.body else [])
      && CampusRun(replies, 1).requests == |pages| + 1
      && CampusRun(replies, 1).failed == reply.Failed?
  {
    var reply := ReplyAt(replies, page - 1);
    assert CampusRun(replies, page) == PageRun(if reply.Ok? then reply.body else [], 1, reply.Failed?);
  }

  /** At most 20 requests, and at least one. */
  lemma {:induction false} CampusRunRequests(replies: seq<Reply<seq<Campus>>>, page: nat)
    requires 1 <= page <= Settings.CampusMaxPages + 1
    ensures CampusRun(replies, page).requests == 0 <==> page > Settings.CampusMaxPages
    ensures CampusRun(replies, page).requests <= Settings.CampusMaxPages + 1 - page
    decreases Settings.CampusMaxPages + 1 - page
  {
    if page <= Settings.CampusMaxPages {
      var reply := ReplyAt(replies, page - 1);
      if reply.Ok? && reply.body != [] && |reply.body| >= Settings.PageSize {
        CampusRunRequests(replies, page + 1);
      }
    }
  }

  /** The collected rows are the rows of the successful replies, concatenated in page order. */
  lemma {:induction false} CampusRunBodies(replies: seq<Reply<seq<Campus>>>, page: nat)
    requires 1 <= page <= Settings.CampusMaxPages + 1
    ensures OkBodies(replies, page - 1) + CampusRun(replies, page).campus
         == OkBodies(replies, page - 1 + CampusRun(replies, page).requests)
    decreases Settings.CampusMaxPages + 1 - page
  {
    if page <= Settings.CampusMaxPages {
      var reply := ReplyAt(replies, page - 1);
      if reply.Ok? && reply.body != [] && |reply.body| >= Settings.PageSize {
        CampusRunBodies(replies, page + 1);
        assert OkBodies(replies, page) == OkBodies(replies, page - 1) + reply.body;
      } else {
        assert OkBodies(replies, page) == OkBodies(replies, page - 1) + (if reply.Ok? then reply.body else []);
      }
    }
  }

  /**
   * Every request before the last one was answered by a full page, and an
   * exception can only have answered the last one.
   */
  lemma {:induction false} CampusRunStops(replies: seq<Reply<seq<Campus>>>, page: nat)
    requires 1 <= page <= Settings.CampusMaxPages + 1
    ensures var run := CampusRun(replies, page);
      && (forall i :: page - 1 <= i < page - 1 + run.requests - 1 ==> FullPage(ReplyAt(replies, i)))
      && (run.failed <==> run.requests > 0 && ReplyAt(replies, page - 1 + run.requests - 1).Failed?)
    decreases Settings.CampusMaxPages + 1 - page
  {
    if page <= Settings.CampusMaxPages {
      var reply := ReplyAt(replies, page - 1);
      if reply.Ok? && reply.body != [] && |reply.body| >= Settings.PageSize {
        CampusRunStops(replies, page + 1);
        CampusRunRequests(replies, page + 1);
      }
    }
  }

  /** The loop ends on a reply that is not a full page, or after the full page 20. */
  lemma {:induction false} CampusRunLast(replies: seq<Reply<seq<Campus>>>, page: nat)
    requires 1 <= page <= Settings.CampusMaxPages + 1
    ensures var run := CampusRun(replies, page);
      run.requests > 0 ==>
        page - 1 + run.requests == Settings.CampusMaxPages || !FullPage(ReplyAt(replies, page - 1 + run.requests - 1))
    decreases Settings.CampusMaxPages + 1 - page
  {
    if page <= Settings.CampusMaxPages {
      var reply := ReplyAt(replies, page - 1);
      if reply.Ok? && reply.body != [] && |reply.body| >= Settings.PageSize {
        CampusRunLast(replies, page + 1);
        CampusRunRequests(replies, page + 1);
      }
    }
  }

  /**
   * The properties of `get_campus` together: at most 20 requests; without an
   * exception the result is the concatenation of the successful pages (a
   * non-200 status keeps what was collected); an exception gives nothing;
   * every page before the last was full, and the last was not, unless it
   * was page 20.
   */
  lemma GetCampusSpec(replies: seq<Reply<seq<Campus>>>)
    ensures var run := CampusRun(replies, 1);
      && 1 <= run.requests <= Settings.CampusMaxPages
      && (forall i :: 0 <= i < run.requests - 1 ==> FullPage(ReplyAt(replies, i)))
      && (run.requests == Settings.CampusMaxPages || !FullPage(ReplyAt(replies, run.requests - 1)))
      && (run.failed <==> ReplyAt(replies, run.requests - 1).Failed?)
      && (!run.failed ==> GetCampus(replies) == OkBodies(replies, run.requests))
      && (run.failed ==> GetCampus(replies) == [])
  {
    CampusRunRequests(replies, 1);
    CampusRunBodies(replies, 1);
    CampusRunStops(replies, 1);
    CampusRunLast(replies, 1);
  }

  /** A full page and then a page of 40 give 140 campuses from two requests. */
  lemma TwoPages(a: seq<Campus>, b: seq<Campus>, rest: seq<Reply<seq<Campus>>>)
    requires |a| == 100 && |b| == 40
    ensures GetCampus([Ok(a), Ok(b)] + rest) == a + b
    ensures |GetCampus([Ok(a), Ok(b)] + rest)| == 140
    ensures CampusRun([Ok(a), Ok(b)] + rest, 1).requests == 2
  {
    var replies := [Ok(a), Ok(b)] + rest;
    assert ReplyAt(replies, 0) == Ok(a) && ReplyAt(replies, 1) == Ok(b);
    assert CampusRun(replies, 2) == PageRun(b, 1, false);
  }
}

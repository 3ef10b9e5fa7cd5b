/**
 * api/users.py: collecting the active users of a campus.
 *
 * The activity fetcher tries five endpoint variants in a fixed order, pages
 * through each, re-checks every row against the time window and the campus,
 * and merges the rows into a list deduplicated by `id`. The location fetcher
 * keeps the users whose `location` is set, and the enrichment pass replaces
 * the first 50 of them by their detailed record.
 *
 * Every HTTP call is answered by the next element of a recorded sequence of
 * replies; `now`, `past_date` and the campus id are parameters.
 */
module Users {
  import opened Seqs
  import opened Records
  import Settings

  // ---------------------------------------------------------------- rate limit

  /**
   * The wait of `handle_rate_limit` after a 429: `int(Retry-After)` seconds,
   * or the default 2 without the header. `None` when `int` rejects the
   * header or `time.sleep` rejects a negative wait: both raise.
   */
  function RetryDelay(h: RetryAfter): (d: Option<nat>)
    ensures h.NoHeader? ==> d == Some(Settings.DefaultRetryAfter)
    ensures h.Seconds? && h.n >= 0 ==> d == Some(h.n)
    ensures d.None? <==> h.NotAnInteger? || (h.Seconds? && h.n < 0)
  {
    match h
    case NoHeader => Some(Settings.DefaultRetryAfter)
    case Seconds(n) => if n >= 0 then Some(n) else None
    case NotAnInteger => None
  }

  /**
   * `handle_rate_limit` returns True: a 429 whose wait could be taken. A 429
   * whose header cannot be used raises instead, and the page loop's
   * `except` ends the endpoint like any other exception.
   */
  predicate HandleRateLimit<B>(reply: Reply<B>)
  {
    reply.TooMany? && RetryDelay(reply.retryAfter).Some?
  }

  /** A reply after which the page loop asks again: a handled 429, or a full page. */
  predicate Continues(reply: Reply<seq<User>>)
  {
    HandleRateLimit(reply) || (reply.Ok? && |reply.body| >= Settings.PageSize)
  }

  /** The reply to call number `i` lets the page loop go on. */
  predicate ContinuesAt(replies: seq<Reply<seq<User>>>, i: nat)
  {
    Continues(ReplyAt(replies, i))
  }

  // ------------------------------------------------------ per-row activity check

  /** The first of `updated_at`, `created_at` that is present and parses. */
  function ActivityDate(u: User): Option<int>
  {
    if u.updated.Some? then u.updated else u.created
  }

  /**
   * The ids of the non-null elements of a `campus` list, in list order.
   * (An empty object is falsy too; its id reads `None` and matches no
   * campus either way.)
   */
  function ListedIds(entries: seq<Option<CampusRef>>): (ids: seq<Option<int>>)
    ensures |ids| <= |entries|
  {
    if entries == [] then []
    else (if entries[0].Some? then [entries[0].value.id] else []) + ListedIds(entries[1..])
  }

  /** An id is listed exactly when some non-null element of the list carries it. */
  lemma {:induction false} ListedIdsMembers(entries: seq<Option<CampusRef>>, x: Option<int>)
    ensures x in ListedIds(entries) <==> exists i :: 0 <= i < |entries| && entries[i].Some? && entries[i].value.id == x
  {
    if entries != [] {
      ListedIdsMembers(entries[1..], x);
      if exists i :: 0 <= i < |entries| && entries[i].Some? && entries[i].value.id == x {
        var i :| 0 <= i < |entries| && entries[i].Some? && entries[i].value.id == x;
        if i > 0 { assert entries[1..][i - 1] == entries[i]; }
      }
      if exists i :: 0 <= i < |entries[1..]| && entries[1..][i].Some? && entries[1..][i].value.id == x {
        var i :| 0 <= i < |entries[1..]| && entries[1..][i].Some? && entries[1..][i].value.id == x;
        assert entries[i + 1] == entries[1..][i];
      }
    }
  }

  /** The campus re-check: a listed campus, or the campus object, carries the campus id. */
  predicate CampusMatch(c: CampusField, campusId: int)
  {
    match c
    case CampusList(entries) => Some(campusId) in ListedIds(entries)
    case CampusDict(ref) => ref.id == Some(campusId)
    case CampusOther => false
  }

  /** A raw row the activity fetcher keeps. */
  predicate Recent(u: User, campusId: int, pastDate: int)
  {
    ActivityDate(u).Some? && ActivityDate(u).value >= pastDate && CampusMatch(u.campus, campusId)
  }

  /** The keys the activity fetcher writes into a kept row. */
  function TagRecent(u: User): User
  {
    u.(locationActive := Some(false), activityDate := ActivityDate(u))
  }

  /** The four checks every user returned by the activity fetcher passes. */
  predicate PassesActivityFilter(u: User, campusId: int, pastDate: int)
  {
    && ActivityDate(u).Some? && ActivityDate(u).value >= pastDate
    && CampusMatch(u.campus, campusId)
    && u.locationActive == Some(false)
    && u.activityDate == ActivityDate(u)
  }

  /** The rows of one page that survive the re-check, tagged, in page order. */
  function KeepRecent(data: seq<User>, campusId: int, pastDate: int): seq<User>
  {
    KeepFrom(data, 0, campusId, pastDate)
  }

  /** The kept rows of `data[i..]`, walked by index. */
  function KeepFrom(data: seq<User>, i: nat, campusId: int, pastDate: int): seq<User>
    decreases |data| - i, 1
  {
    if i >= |data| then [] else KeepAt(data, i, campusId, pastDate)
  }

  /** Row `i` of the page, tagged if it is kept, followed by the kept rows after it. */
  function KeepAt(data: seq<User>, i: nat, campusId: int, pastDate: int): seq<User>
    requires i < |data|
    decreases |data| - i, 0
  {
    (if Recent(data[i], campusId, pastDate) then [TagRecent(data[i])] else [])
      + KeepFrom(data, i + 1, campusId, pastDate)
  }

  /** Kept rows pass the four checks, and every matching row of the page is kept. */
  lemma KeepRecentSpec(data: seq<User>, campusId: int, pastDate: int)
    ensures var kept := KeepRecent(data, campusId, pastDate);
      && |kept| <= |data|
      && (forall k :: 0 <= k < |kept| ==> PassesActivityFilter(kept[k], campusId, pastDate))
      && (forall i :: 0 <= i < |data| && Recent(data[i], campusId, pastDate) ==> TagRecent(data[i]) in kept)
  {
    KeepFromSpec(data, 0, campusId, pastDate);
  }

  lemma {:induction false} KeepFromSpec(data: seq<User>, i: nat, campusId: int, pastDate: int)
    requires i <= |data|
    ensures var kept := KeepFrom(data, i, campusId, pastDate);
      && |kept| <= |data| - i
      && (forall k :: 0 <= k < |kept| ==> PassesActivityFilter(kept[k], campusId, pastDate))
      && (forall j :: i <= j < |data| && Recent(data[j], campusId, pastDate) ==> TagRecent(data[j]) in kept)
    decreases |data| - i
  {
    if i < |data| {
      KeepFromSpec(data, i + 1, campusId, pastDate);
      var head := if Recent(data[i], campusId, pastDate) then [TagRecent(data[i])] else [];
      var rest := KeepFrom(data, i + 1, campusId, pastDate);
      assert KeepFrom(data, i, campusId, pastDate) == head + rest;
      forall k | 0 <= k < |head + rest| ensures PassesActivityFilter((head + rest)[k], campusId, pastDate) {
        if k >= |head| { assert (head + rest)[k] == rest[k - |head|]; }
      }
    }
  }

  /** The page filter loop (the `for user in data` of the page loop). */
  method FilterPage(data: seq<User>, campusId: int, pastDate: int) returns (kept: seq<User>)
    ensures kept == KeepRecent(data, campusId, pastDate)
  {
    kept := [];
    for i := 0 to |data|
      invariant kept + KeepFrom(data, i, campusId, pastDate) == KeepRecent(data, campusId, pastDate)
    {
      var piece := if Recent(data[i], campusId, pastDate) then [TagRecent(data[i])] else [];
      assert KeepFrom(data, i, campusId, pastDate) == piece + KeepFrom(data, i + 1, campusId, pastDate);
      assert kept + (piece + KeepFrom(data, i + 1, campusId, pastDate))
          == (kept + piece) + KeepFrom(data, i + 1, campusId, pastDate);
      kept := kept + piece;
    }
    assert kept + KeepFrom(data, |data|, campusId, pastDate) == kept;
  }

  // ------------------------------------------------------------- harvest of calls

  /** What one reply contributes to `method_users`. */
  function Gain(reply: Reply<seq<User>>, campusId: int, pastDate: int): seq<User>
  {
    if reply.Ok? then KeepRecent(reply.body, campusId, pastDate) else []
  }

  /** The kept rows of the calls numbered `lo` up to (excluding) `hi`, in call order. */
  function HarvestRange(replies: seq<Reply<seq<User>>>, lo: nat, hi: nat, campusId: int, pastDate: int): seq<User>
    requires lo <= hi
    decreases hi - lo
  {
    if hi == lo then []
    else HarvestRange(replies, lo, hi - 1, campusId, pastDate) + Gain(ReplyAt(replies, hi - 1), campusId, pastDate)
  }

  lemma {:induction false} HarvestSplit(replies: seq<Reply<seq<User>>>, lo: nat, mid: nat, hi: nat, campusId: int, pastDate: int)
    requires lo <= mid <= hi
    ensures HarvestRange(replies, lo, hi, campusId, pastDate)
         == HarvestRange(replies, lo, mid, campusId, pastDate) + HarvestRange(replies, mid, hi, campusId, pastDate)
    decreases hi - mid
  {
    if hi > mid {
      HarvestSplit(replies, lo, mid, hi - 1, campusId, pastDate);
    }
  }

  lemma {:induction false} HarvestPasses(replies: seq<Reply<seq<User>>>, lo: nat, hi: nat, campusId: int, pastDate: int)
    requires lo <= hi
    ensures forall k :: 0 <= k < |HarvestRange(replies, lo, hi, campusId, pastDate)|
              ==> PassesActivityFilter(HarvestRange(replies, lo, hi, campusId, pastDate)[k], campusId, pastDate)
    decreases hi - lo
  {
    if hi > lo {
      HarvestPasses(replies, lo, hi - 1, campusId, pastDate);
      var reply := ReplyAt(replies, hi - 1);
      if reply.Ok? { KeepRecentSpec(reply.body, campusId, pastDate); }
      var a := HarvestRange(replies, lo, hi - 1, campusId, pastDate);
      var b := Gain(reply, campusId, pastDate);
      forall k | 0 <= k < |a + b| ensures PassesActivityFilter((a + b)[k], campusId, pastDate) {
        if k >= |a| { assert (a + b)[k] == b[k - |a|]; }
      }
    }
  }

  // ------------------------------------------------------------- the page loop

  /** One call of the page loop: which endpoint variant, which page number. */
  datatype Request = Request(endpoint: nat, page: nat)

  /** Pages tried per endpoint: `min(10, max_users // 100 + 1)`. */
  function MaxPagesFor(maxUsers: int): (r: int)
    ensures r <= Settings.ActivityPageCap
    ensures maxUsers >= 0 ==> 1 <= r
    ensures maxUsers >= 900 ==> r == Settings.ActivityPageCap
  {
    Min(Settings.ActivityPageCap, maxUsers / 100 + 1)
  }

  /** Every recorded reply from call number `start` on is a 429 that `handle_rate_limit` accepts. */
  predicate AllTooMany(replies: seq<Reply<seq<User>>>, start: nat)
  {
    start <= |replies| && forall i :: start <= i < |replies| ==> HandleRateLimit(replies[i])
  }

  /** Page numbers along a log: start at 1, stay put after a 429, advance otherwise. */
  ghost predicate PagesFollow(replies: seq<Reply<seq<User>>>, start: nat, log: seq<Request>)
  {
    && (|log| > 0 ==> log[0].page == 1)
    && forall k :: 0 < k < |log| ==> PageAfter(replies, start, log, k)
  }

  /** Call `k` of a log that starts at call number `start` asks for the page that follows call `k - 1`. */
  ghost predicate PageAfter(replies: seq<Reply<seq<User>>>, start: nat, log: seq<Request>, k: nat)
    requires 0 < k < |log|
  {
    log[k].page == NextPage(replies, start + k - 1, log[k - 1].page)
  }

  /**
   * What the page loop of one endpoint promises, for the run that started at
   * call number `start` and returns `found`, `next` and `log`.
   */
  ghost predicate Fetched(replies: seq<Reply<seq<User>>>, start: nat, endpoint: nat, campusId: int, pastDate: int,
                          maxUsers: int, maxPages: int, found: seq<User>, next: nat, log: seq<Request>)
  {
    // one call per recorded request; the kept rows are those of these calls, in call order
    && next == start + |log|
    && found == HarvestRange(replies, start, next, campusId, pastDate)
    && (forall k :: 0 <= k < |log| ==> log[k].endpoint == endpoint && 1 <= log[k].page <= maxPages)
    && PagesFollow(replies, start, log)
    // the loop goes on only after a 429 or a full page ...
    && (forall i :: start <= i < next - 1 ==> ContinuesAt(replies, i))
    // ... never ends on a 429, and after a full last page stopped only at the page cap or the user cap
    && (|log| > 0 ==> !HandleRateLimit(ReplyAt(replies, next - 1)))
    && (|log| > 0 && ContinuesAt(replies, next - 1) ==> log[|log| - 1].page == maxPages || |found| >= maxUsers)
    && (|log| == 0 <==> maxPages < 1 || maxUsers <= 0)
    // a 429 never advances the page: a run of 429s is bounded only by the supply of replies
    && (AllTooMany(replies, start) && 1 <= maxPages && 0 < maxUsers
        ==> next == |replies| + 1 && found == [] && forall k :: 0 <= k < |log| ==> log[k].page == 1)
    // every call is made while fewer than max_users rows were gathered
    && (forall i :: start <= i < next ==> GatheredUnder(replies, start, i, campusId, pastDate, maxUsers))
    // the calls are exactly those the stop rule of the page loop prescribes
    && log == EndpointLog(replies, endpoint, start, 1, 0, campusId, pastDate, maxUsers, maxPages)
  }

  /**
   * The `while page <= max_pages` loop of one endpoint, starting at call number
   * `start`. Returns the rows it kept, the number of the next call and the log
   * of its own calls.
   */
  method FetchEndpoint(replies: seq<Reply<seq<User>>>, start: nat, endpoint: nat,
                       campusId: int, pastDate: int, maxUsers: int, maxPages: int)
    returns (found: seq<User>, next: nat, log: seq<Request>)
    ensures Fetched(replies, start, endpoint, campusId, pastDate, maxUsers, maxPages, found, next, log)
  {
    found, next, log := [], start, [];
    var page := 1;
    while page <= maxPages && |found| < maxUsers
      invariant Paging(replies, start, endpoint, campusId, pastDate, maxUsers, maxPages, found, next, log, page)
      decreases |replies| - next
    {
      var reply := ReplyAt(replies, next);
      PageCall(replies, start, endpoint, campusId, pastDate, maxUsers, maxPages, found, next, log, page);
      log := log + [Request(endpoint, page)];
      next := next + 1;
      if HandleRateLimit(reply) {
        continue;
      }
      if !reply.Ok? {
        break;
      }
      var data := reply.body;
      if data == [] {
        break;
      }
      var kept := FilterPage(data, campusId, pastDate);
      found := found + kept;
      if |data| < Settings.PageSize {
        break;
      }
      page := page + 1;
    }
    FetchDone(replies, start, endpoint, campusId, pastDate, maxUsers, maxPages, found, next, log, page);
  }

  /**
   * The state of the page loop of one endpoint before a call: its record so
   * far, and the page it asks for next as the stop rule left it.
   */
  ghost predicate Paging(replies: seq<Reply<seq<User>>>, start: nat, endpoint: nat, campusId: int, pastDate: int,
                         maxUsers: int, maxPages: int, found: seq<User>, next: nat, log: seq<Request>, page: nat)
  {
    && Logged(replies, start, endpoint, campusId, pastDate, maxUsers, maxPages, found, next, log)
    && 1 <= page
    && (|log| == 0 ==> page == 1)
    && (|log| > 0 ==> 1 <= maxPages && 0 < maxUsers && ContinuesAt(replies, next - 1))
    && (|log| > 0 ==> page == NextPage(replies, next - 1, log[|log| - 1].page))
    && (|log| > 0 && HandleRateLimit(ReplyAt(replies, next - 1)) ==> page <= maxPages && |found| < maxUsers)
  }

  /**
   * One call of the page loop: after a handled 429 it asks for the same page
   * again, after a full page for the next one; any other reply ends the loop
   * with the call recorded.
   */
  lemma PageCall(replies: seq<Reply<seq<User>>>, start: nat, endpoint: nat, campusId: int, pastDate: int,
                 maxUsers: int, maxPages: int, found: seq<User>, next: nat, log: seq<Request>, page: nat)
    requires Paging(replies, start, endpoint, campusId, pastDate, maxUsers, maxPages, found, next, log, page)
    requires page <= maxPages && |found| < maxUsers
    ensures 1 <= maxPages && 0 < maxUsers
    ensures var reply := ReplyAt(replies, next);
      var log' := log + [Request(endpoint, page)];
      && (HandleRateLimit(reply) ==>
            Paging(replies, start, endpoint, campusId, pastDate, maxUsers, maxPages, found, next + 1, log', page))
      && (!HandleRateLimit(reply) && (!reply.Ok? || reply.body == []) ==>
            Logged(replies, start, endpoint, campusId, pastDate, maxUsers, maxPages, found, next + 1, log')
            && !ContinuesAt(replies, next))
    ensures var reply := ReplyAt(replies, next);
      var log' := log + [Request(endpoint, page)];
      reply.Ok? && reply.body != [] ==>
        var found' := found + KeepRecent(reply.body, campusId, pastDate);
        && (|reply.body| < Settings.PageSize ==>
              Logged(replies, start, endpoint, campusId, pastDate, maxUsers, maxPages, found', next + 1, log')
              && !ContinuesAt(replies, next))
        && (|reply.body| >= Settings.PageSize ==>
              Paging(replies, start, endpoint, campusId, pastDate, maxUsers, maxPages, found', next + 1, log', page + 1))
  {
    LogCall(replies, start, endpoint, campusId, pastDate, maxUsers, maxPages, found, next, log, page);
    var reply := ReplyAt(replies, next);
    var log' := log + [Request(endpoint, page)];
    assert ReplyAt(replies, next + 1 - 1) == reply && log'[|log'| - 1].page == page;
    if !reply.Ok? {
      assert found + Gain(reply, campusId, pastDate) == found;
    }
  }

  /** Where the page loop stops, by its guard or after a reply that ends it, it has kept its promises. */
  lemma FetchDone(replies: seq<Reply<seq<User>>>, start: nat, endpoint: nat, campusId: int, pastDate: int,
                  maxUsers: int, maxPages: int, found: seq<User>, next: nat, log: seq<Request>, page: nat)
    // stopped by the guard, or after a reply that ends the loop
    requires || (Paging(replies, start, endpoint, campusId, pastDate, maxUsers, maxPages, found, next, log, page)
                 && (page > maxPages || |found| >= maxUsers))
             || (Logged(replies, start, endpoint, campusId, pastDate, maxUsers, maxPages, found, next, log)
                 && |log| > 0 && 1 <= maxPages && 0 < maxUsers && !ContinuesAt(replies, next - 1))
    ensures Fetched(replies, start, endpoint, campusId, pastDate, maxUsers, maxPages, found, next, log)
  {
    if AllTooMany(replies, start) && 1 <= maxPages && 0 < maxUsers {
      TooManyRun(replies, start, next, log, campusId, pastDate);
    }
    if next > start {
      GatheredBefore(replies, start, next - 1, campusId, pastDate, maxUsers);
    }
    EndpointLogOf(replies, start, endpoint, campusId, pastDate, maxUsers, maxPages, found, next, log);
  }

  /** The page asked for after a call on page `page` answered by call number `i`. */
  function NextPage(replies: seq<Reply<seq<User>>>, i: nat, page: nat): nat
  {
    if HandleRateLimit(ReplyAt(replies, i)) then page else page + 1
  }

  /**
   * The calls the page loop of `endpoint` makes from call number `next` on,
   * asking for page `page` with `count` rows gathered so far: it calls while
   * `page <= max_pages` and `count < max_users`, asks again after a handled
   * 429 (same page) or a full page (next page), and stops after anything else.
   */
  function EndpointLog(replies: seq<Reply<seq<User>>>, endpoint: nat, next: nat, page: nat, count: nat,
                       campusId: int, pastDate: int, maxUsers: int, maxPages: int): seq<Request>
    decreases |replies| - next
  {
    if page > maxPages || count >= maxUsers then []
    else if !ContinuesAt(replies, next) then [Request(endpoint, page)]
    else
      [Request(endpoint, page)]
      + EndpointLog(replies, endpoint, next + 1, NextPage(replies, next, page),
                    count + |Gain(ReplyAt(replies, next), campusId, pastDate)|, campusId, pastDate, maxUsers, maxPages)
  }

  /** Before call number `i`, the endpoint starting at call `start` had gathered fewer than `maxUsers` rows. */
  ghost predicate GatheredUnder(replies: seq<Reply<seq<User>>>, start: nat, i: nat, campusId: int, pastDate: int, maxUsers: int)
    requires start <= i
  {
    |HarvestRange(replies, start, i, campusId, pastDate)| < maxUsers
  }

  /** Fewer than `maxUsers` rows before call `last` means fewer before every earlier call too. */
  lemma GatheredBefore(replies: seq<Reply<seq<User>>>, start: nat, last: nat, campusId: int, pastDate: int, maxUsers: int)
    requires start <= last && GatheredUnder(replies, start, last, campusId, pastDate, maxUsers)
    ensures forall i :: start <= i <= last ==> GatheredUnder(replies, start, i, campusId, pastDate, maxUsers)
  {
    forall i | start <= i <= last ensures GatheredUnder(replies, start, i, campusId, pastDate, maxUsers) {
      HarvestSplit(replies, start, i, last, campusId, pastDate);
    }
  }

  /**
   * A run of the page loop that ends the way `FetchEndpoint` promises is the
   * one `EndpointLog` prescribes: the stop rule leaves no other choice.
   */
  lemma EndpointLogOf(replies: seq<Reply<seq<User>>>, start: nat, endpoint: nat, campusId: int, pastDate: int,
                      maxUsers: int, maxPages: int, found: seq<User>, next: nat, log: seq<Request>)
    requires Logged(replies, start, endpoint, campusId, pastDate, maxUsers, maxPages, found, next, log)
    requires |log| == 0 ==> maxPages < 1 || maxUsers <= 0
    requires |log| > 0 ==> !HandleRateLimit(ReplyAt(replies, next - 1))
    requires |log| > 0 && ContinuesAt(replies, next - 1) ==> log[|log| - 1].page == maxPages || |found| >= maxUsers
    ensures log == EndpointLog(replies, endpoint, start, 1, 0, campusId, pastDate, maxUsers, maxPages)
  {
    if |log| > 0 {
      GatheredBefore(replies, start, next - 1, campusId, pastDate, maxUsers);
      EndpointLogTail(replies, start, endpoint, campusId, pastDate, maxUsers, maxPages, found, next, log, 0);
      assert log[0..] == log;
    }
  }

  /** The calls from the `k`-th on are those `EndpointLog` prescribes from the state before it. */
  lemma {:induction false} EndpointLogTail(replies: seq<Reply<seq<User>>>, start: nat, endpoint: nat, campusId: int,
                                           pastDate: int, maxUsers: int, maxPages: int, found: seq<User>, next: nat,
                                           log: seq<Request>, k: nat)
    requires k < |log|
    requires Logged(replies, start, endpoint, campusId, pastDate, maxUsers, maxPages, found, next, log)
    requires forall i :: start <= i < next ==> GatheredUnder(replies, start, i, campusId, pastDate, maxUsers)
    requires !HandleRateLimit(ReplyAt(replies, next - 1))
    requires ContinuesAt(replies, next - 1) ==> log[|log| - 1].page == maxPages || |found| >= maxUsers
    ensures log[k..] == EndpointLog(replies, endpoint, start + k, log[k].page,
                                    |HarvestRange(replies, start, start + k, campusId, pastDate)|,
                                    campusId, pastDate, maxUsers, maxPages)
    decreases |log| - k, 1
  {
    if k + 1 < |log| {
      EndpointLogMore(replies, start, endpoint, campusId, pastDate, maxUsers, maxPages, found, next, log, k);
    } else {
      assert GatheredUnder(replies, start, start + k, campusId, pastDate, maxUsers);
      EndpointLogEnd(replies, endpoint, start + k, log, k, |HarvestRange(replies, start, start + k, campusId, pastDate)|,
                     |HarvestRange(replies, start, start + k + 1, campusId, pastDate)|, campusId, pastDate, maxUsers, maxPages);
    }
  }

  /** A call that is not the last: it is followed by what `EndpointLog` prescribes after it. */
  lemma {:induction false} EndpointLogMore(replies: seq<Reply<seq<User>>>, start: nat, endpoint: nat, campusId: int,
                                           pastDate: int, maxUsers: int, maxPages: int, found: seq<User>, next: nat,
                                           log: seq<Request>, k: nat)
    requires k + 1 < |log|
    requires Logged(replies, start, endpoint, campusId, pastDate, maxUsers, maxPages, found, next, log)
    requires forall i :: start <= i < next ==> GatheredUnder(replies, start, i, campusId, pastDate, maxUsers)
    requires !HandleRateLimit(ReplyAt(replies, next - 1))
    requires ContinuesAt(replies, next - 1) ==> log[|log| - 1].page == maxPages || |found| >= maxUsers
    ensures log[k..] == EndpointLog(replies, endpoint, start + k, log[k].page,
                                    |HarvestRange(replies, start, start + k, campusId, pastDate)|,
                                    campusId, pastDate, maxUsers, maxPages)
    decreases |log| - k, 0
  {
    var before := HarvestRange(replies, start, start + k, campusId, pastDate);
    var after := HarvestRange(replies, start, start + k + 1, campusId, pastDate);
    assert GatheredUnder(replies, start, start + k, campusId, pastDate, maxUsers);
    EndpointLogTail(replies, start, endpoint, campusId, pastDate, maxUsers, maxPages, found, next, log, k + 1);
    assert PageAfter(replies, start, log, k + 1);
    EndpointCons(replies, endpoint, start + k, log, k, |before|, |after|, campusId, pastDate, maxUsers, maxPages);
  }

  /** The last call: the stop rule ends the loop right after it. */
  lemma EndpointLogEnd(replies: seq<Reply<seq<User>>>, endpoint: nat, next: nat, log: seq<Request>, k: nat,
                       count: nat, count': nat, campusId: int, pastDate: int, maxUsers: int, maxPages: int)
    requires k + 1 == |log| && log[k].endpoint == endpoint && log[k].page <= maxPages
    requires count < maxUsers && !HandleRateLimit(ReplyAt(replies, next))
    requires count' == count + |Gain(ReplyAt(replies, next), campusId, pastDate)|
    requires ContinuesAt(replies, next) ==> log[k].page == maxPages || count' >= maxUsers
    ensures log[k..] == EndpointLog(replies, endpoint, next, log[k].page, count, campusId, pastDate, maxUsers, maxPages)
  {
    assert log[k..] == [log[k]];
    EndpointLast(replies, endpoint, next, log[k].page, count, count', campusId, pastDate, maxUsers, maxPages);
  }

  /** A call followed by the calls `EndpointLog` prescribes after it is what `EndpointLog` prescribes. */
  lemma EndpointCons(replies: seq<Reply<seq<User>>>, endpoint: nat, next: nat, log: seq<Request>, k: nat,
                     count: nat, count': nat, campusId: int, pastDate: int, maxUsers: int, maxPages: int)
    requires k + 1 < |log| && log[k].endpoint == endpoint
    requires log[k].page <= maxPages && count < maxUsers && ContinuesAt(replies, next)
    requires log[k + 1].page == NextPage(replies, next, log[k].page)
    requires count' == count + |Gain(ReplyAt(replies, next), campusId, pastDate)|
    requires log[k + 1..] == EndpointLog(replies, endpoint, next + 1, log[k + 1].page, count', campusId, pastDate, maxUsers, maxPages)
    ensures log[k..] == EndpointLog(replies, endpoint, next, log[k].page, count, campusId, pastDate, maxUsers, maxPages)
  {
    EndpointGoesOn(replies, endpoint, next, log[k].page, count, log[k + 1].page, count', campusId, pastDate, maxUsers, maxPages);
    assert log[k..] == [log[k]] + log[k + 1..];
  }

  /** A call answered by a handled 429 or a full page is followed by the request `NextPage` names. */
  lemma EndpointGoesOn(replies: seq<Reply<seq<User>>>, endpoint: nat, next: nat, page: nat, count: nat,
                       page': nat, count': nat, campusId: int, pastDate: int, maxUsers: int, maxPages: int)
    requires page <= maxPages && count < maxUsers && ContinuesAt(replies, next)
    requires page' == NextPage(replies, next, page)
    requires count' == count + |Gain(ReplyAt(replies, next), campusId, pastDate)|
    ensures EndpointLog(replies, endpoint, next, page, count, campusId, pastDate, maxUsers, maxPages)
         == [Request(endpoint, page)] + EndpointLog(replies, endpoint, next + 1, page', count', campusId, pastDate, maxUsers, maxPages)
  {
  }

  /**
   * The last call of the page loop: any reply but a handled 429 or a full page
   * ends it, and so does a full page that used up the last page or the room left.
   */
  lemma EndpointLast(replies: seq<Reply<seq<User>>>, endpoint: nat, next: nat, page: nat, count: nat, count': nat,
                     campusId: int, pastDate: int, maxUsers: int, maxPages: int)
    requires page <= maxPages && count < maxUsers && !HandleRateLimit(ReplyAt(replies, next))
    requires count' == count + |Gain(ReplyAt(replies, next), campusId, pastDate)|
    requires ContinuesAt(replies, next) ==> page == maxPages || count' >= maxUsers
    ensures EndpointLog(replies, endpoint, next, page, count, campusId, pastDate, maxUsers, maxPages)
         == [Request(endpoint, page)]
  {
    if ContinuesAt(replies, next) {
      assert EndpointLog(replies, endpoint, next + 1, page + 1, count', campusId, pastDate, maxUsers, maxPages) == [];
    }
  }

  /**
   * A 429 before the caps: when its Retry-After gives a wait, the page loop
   * asks for the same page again with nothing gathered; when it does not,
   * the raise ends the endpoint after this call.
   */
  lemma RateLimitRule(replies: seq<Reply<seq<User>>>, endpoint: nat, next: nat, page: nat, count: nat,
                      campusId: int, pastDate: int, maxUsers: int, maxPages: int)
    requires page <= maxPages && count < maxUsers && ReplyAt(replies, next).TooMany?
    ensures RetryDelay(ReplyAt(replies, next).retryAfter).Some? ==>
      EndpointLog(replies, endpoint, next, page, count, campusId, pastDate, maxUsers, maxPages)
      == [Request(endpoint, page)] + EndpointLog(replies, endpoint, next + 1, page, count, campusId, pastDate, maxUsers, maxPages)
    ensures RetryDelay(ReplyAt(replies, next).retryAfter).None? ==>
      EndpointLog(replies, endpoint, next, page, count, campusId, pastDate, maxUsers, maxPages) == [Request(endpoint, page)]
  {
  }

  /** What the page loop of one endpoint has recorded after its calls up to `next`. */
  ghost predicate Logged(replies: seq<Reply<seq<User>>>, start: nat, endpoint: nat, campusId: int, pastDate: int,
                         maxUsers: int, maxPages: int, found: seq<User>, next: nat, log: seq<Request>)
  {
    && next == start + |log|
    && found == HarvestRange(replies, start, next, campusId, pastDate)
    && (forall k :: 0 <= k < |log| ==> log[k].endpoint == endpoint && 1 <= log[k].page <= maxPages)
    && PagesFollow(replies, start, log)
    && (forall i :: start <= i < next - 1 ==> ContinuesAt(replies, i))
    && (next > start ==> GatheredUnder(replies, start, next - 1, campusId, pastDate, maxUsers))
  }

  /** One more call of the page loop keeps its record consistent. */
  lemma LogCall(replies: seq<Reply<seq<User>>>, start: nat, endpoint: nat, campusId: int, pastDate: int,
                maxUsers: int, maxPages: int, found: seq<User>, next: nat, log: seq<Request>, page: nat)
    requires Logged(replies, start, endpoint, campusId, pastDate, maxUsers, maxPages, found, next, log)
    requires 1 <= page <= maxPages
    requires |log| == 0 ==> page == 1
    requires |log| > 0 ==> ContinuesAt(replies, next - 1) && page == NextPage(replies, next - 1, log[|log| - 1].page)
    requires |found| < maxUsers
    ensures Logged(replies, start, endpoint, campusId, pastDate, maxUsers, maxPages,
                   found + Gain(ReplyAt(replies, next), campusId, pastDate), next + 1, log + [Request(endpoint, page)])
  {
    var log' := log + [Request(endpoint, page)];
    forall k | 0 < k < |log'| ensures PageAfter(replies, start, log', k) {
      if k < |log| {
        assert PageAfter(replies, start, log, k);
        assert log'[k] == log[k] && log'[k - 1] == log[k - 1];
      }
    }
  }

  /**
   * A page loop that met nothing but 429s made one call per recorded reply
   * plus the failing call past the end, kept nothing, and never left page 1.
   */
  lemma TooManyRun(replies: seq<Reply<seq<User>>>, start: nat, next: nat, log: seq<Request>,
                   campusId: int, pastDate: int)
    requires AllTooMany(replies, start)
    requires next == start + |log| && |log| > 0
    requires PagesFollow(replies, start, log)
    requires forall i :: start <= i < next - 1 ==> ContinuesAt(replies, i)
    requires !HandleRateLimit(ReplyAt(replies, next - 1))
    ensures next == |replies| + 1
    ensures HarvestRange(replies, start, next, campusId, pastDate) == []
    ensures forall k :: 0 <= k < |log| ==> log[k].page == 1
  {
    assert !ContinuesAt(replies, |replies|);
    TooManyHarvest(replies, start, next, campusId, pastDate);
    forall k | 0 <= k < |log| ensures log[k].page == 1 {
      TooManyPage(replies, start, log, k);
    }
  }

  lemma {:induction false} TooManyHarvest(replies: seq<Reply<seq<User>>>, start: nat, hi: nat, campusId: int, pastDate: int)
    requires AllTooMany(replies, start) && start <= hi <= |replies| + 1
    ensures HarvestRange(replies, start, hi, campusId, pastDate) == []
    decreases hi - start
  {
    if hi > start {
      TooManyHarvest(replies, start, hi - 1, campusId, pastDate);
    }
  }

  lemma {:induction false} TooManyPage(replies: seq<Reply<seq<User>>>, start: nat, log: seq<Request>, k: nat)
    requires AllTooMany(replies, start) && start + |log| <= |replies| + 1
    requires PagesFollow(replies, start, log)
    requires k < |log|
    ensures log[k].page == 1
  {
    if k > 0 {
      TooManyPage(replies, start, log, k - 1);
      assert PageAfter(replies, start, log, k);
      assert HandleRateLimit(ReplyAt(replies, start + k - 1));
    }
  }

  // -------------------------------------------------------------- dedup merge

  /** Some entry of `users` carries `id`: the duplicate test of the merge loop. */
  predicate HasId(users: seq<User>, id: Option<int>)
  {
    users != [] && (users[0].id == id || HasId(users[1..], id))
  }

  /** `any` finds the id exactly when some entry carries it. */
  lemma {:induction false} HasIdAt(users: seq<User>, id: Option<int>)
    ensures HasId(users, id) <==> exists j :: 0 <= j < |users| && users[j].id == id
  {
    if users != [] {
      HasIdAt(users[1..], id);
      if exists j :: 0 <= j < |users| && users[j].id == id {
        var j :| 0 <= j < |users| && users[j].id == id;
        if j > 0 { assert users[1..][j - 1].id == id; }
      }
      if exists j :: 0 <= j < |users[1..]| && users[1..][j].id == id {
        var j :| 0 <= j < |users[1..]| && users[1..][j].id == id;
        assert users[j + 1].id == id;
      }
    }
  }

  /** Appending one user adds its id and no other. */
  lemma {:induction false} HasIdSnoc(users: seq<User>, u: User, id: Option<int>)
    ensures HasId(users + [u], id) <==> HasId(users, id) || u.id == id
  {
    if users != [] {
      assert (users + [u])[1..] == users[1..] + [u];
      HasIdSnoc(users[1..], u, id);
    }
  }

  /** No two entries share an id. */
  ghost predicate UniqueIds(users: seq<User>)
  {
    forall i, j :: 0 <= i < j < |users| ==> users[i].id != users[j].id
  }

  /** Every entry has a truthy id. */
  ghost predicate AllTruthy(users: seq<User>)
  {
    forall i :: 0 <= i < |users| ==> TruthyId(users[i].id)
  }

  /** One step of the merge: append `u` if its id is truthy and not yet present. */
  function AddUnique(users: seq<User>, u: User): seq<User>
  {
    if TruthyId(u.id) && !HasId(users, u.id) then users + [u] else users
  }

  /** `users` after the merge loop has seen every element of `incoming`. */
  function Merged(users: seq<User>, incoming: seq<User>): seq<User>
  {
    MergeFrom(users, incoming, 0)
  }

  /** `users` after the merge loop has seen `incoming[i..]`, one element at a time. */
  function MergeFrom(users: seq<User>, incoming: seq<User>, i: nat): seq<User>
    decreases |incoming| - i
  {
    if i >= |incoming| then users
    else MergeFrom(AddUnique(users, incoming[i]), incoming, i + 1)
  }

  /** The merge only appends; unique, truthy ids stay unique and truthy. */
  lemma MergedKeeps(users: seq<User>, incoming: seq<User>)
    ensures users <= Merged(users, incoming)
    ensures UniqueIds(users) && AllTruthy(users) ==> UniqueIds(Merged(users, incoming)) && AllTruthy(Merged(users, incoming))
    ensures forall i :: 0 <= i < |Merged(users, incoming)| ==>
      Merged(users, incoming)[i] in users || Merged(users, incoming)[i] in incoming
  {
    MergeFromKeeps(users, incoming, 0);
  }

  lemma {:induction false} MergeFromKeeps(users: seq<User>, incoming: seq<User>, i: nat)
    requires i <= |incoming|
    ensures users <= MergeFrom(users, incoming, i)
    ensures UniqueIds(users) && AllTruthy(users) ==> UniqueIds(MergeFrom(users, incoming, i)) && AllTruthy(MergeFrom(users, incoming, i))
    ensures forall k :: 0 <= k < |MergeFrom(users, incoming, i)| ==>
      MergeFrom(users, incoming, i)[k] in users || MergeFrom(users, incoming, i)[k] in incoming
    decreases |incoming| - i
  {
    if i < |incoming| {
      var u := incoming[i];
      var users' := AddUnique(users, u);
      HasIdAt(users, u.id);
      MergeFromKeeps(users', incoming, i + 1);
      if UniqueIds(users) && AllTruthy(users) && users' != users {
        forall p, q | 0 <= p < q < |users'| ensures users'[p].id != users'[q].id {
          if q == |users| { assert users'[p] == users[p]; }
        }
      }
      forall x | x in users' ensures x in users || x in incoming {
        if x !in users { assert x == u; }
      }
    }
  }

  /** Every previous id and every truthy id that came in is present afterwards. */
  lemma MergedCovers(users: seq<User>, incoming: seq<User>)
    ensures forall i :: 0 <= i < |users| ==> HasId(Merged(users, incoming), users[i].id)
    ensures forall i :: 0 <= i < |incoming| && TruthyId(incoming[i].id) ==> HasId(Merged(users, incoming), incoming[i].id)
  {
    MergeFromCovers(users, incoming, 0);
  }

  lemma {:induction false} MergeFromCovers(users: seq<User>, incoming: seq<User>, i: nat)
    requires i <= |incoming|
    ensures forall j :: 0 <= j < |users| ==> HasId(MergeFrom(users, incoming, i), users[j].id)
    ensures forall k :: i <= k < |incoming| && TruthyId(incoming[k].id) ==> HasId(MergeFrom(users, incoming, i), incoming[k].id)
    decreases |incoming| - i
  {
    var m := MergeFrom(users, incoming, i);
    if i == |incoming| {
      forall j | 0 <= j < |users| ensures HasId(m, users[j].id) {
        HasIdAt(users, users[j].id);
      }
    } else {
      var u := incoming[i];
      var users' := AddUnique(users, u);
      MergeFromCovers(users', incoming, i + 1);
      forall j | 0 <= j < |users| ensures HasId(m, users[j].id) {
        assert users'[j] == users[j];
      }
      if TruthyId(u.id) {
        HasIdAt(users, u.id);
        if HasId(users, u.id) {
          var j :| 0 <= j < |users| && users[j].id == u.id;
          assert users'[j] == users[j];
        } else {
          assert users'[|users|] == u;
        }
      }
    }
  }

  /**
   * First-seen wins: an incoming user whose truthy id is neither among the
   * existing users nor carried by an earlier incoming user is itself in the result.
   */
  lemma MergedFirstWins(users: seq<User>, incoming: seq<User>, j: nat)
    requires j < |incoming| && TruthyId(incoming[j].id) && !HasId(users, incoming[j].id)
    requires forall i :: 0 <= i < j ==> incoming[i].id != incoming[j].id
    ensures incoming[j] in Merged(users, incoming)
  {
    MergeFromFirstWins(users, incoming, 0, j);
  }

  lemma {:induction false} MergeFromFirstWins(users: seq<User>, incoming: seq<User>, i: nat, j: nat)
    requires i <= j < |incoming| && TruthyId(incoming[j].id) && !HasId(users, incoming[j].id)
    requires forall k :: i <= k < j ==> incoming[k].id != incoming[j].id
    ensures incoming[j] in MergeFrom(users, incoming, i)
    decreases j - i
  {
    if i == j {
      MergeFromAdds(users, incoming, i);
    } else {
      HasIdSnoc(users, incoming[i], incoming[j].id);
      MergeFromFirstWins(AddUnique(users, incoming[i]), incoming, i + 1, j);
    }
  }

  /** A user with a truthy id not yet present is appended, and stays. */
  lemma MergeFromAdds(users: seq<User>, incoming: seq<User>, i: nat)
    requires i < |incoming| && TruthyId(incoming[i].id) && !HasId(users, incoming[i].id)
    ensures incoming[i] in MergeFrom(users, incoming, i)
  {
    var users' := users + [incoming[i]];
    assert MergeFrom(users, incoming, i) == MergeFrom(users', incoming, i + 1);
    MergeFromKeeps(users', incoming, i + 1);
    assert MergeFrom(users', incoming, i + 1)[|users|] == incoming[i];
  }

  /** The users the merge appends keep the order in which they came in. */
  lemma MergedOrder(users: seq<User>, incoming: seq<User>)
    ensures |users| <= |Merged(users, incoming)|
    ensures SubseqOf(Merged(users, incoming)[|users|..], incoming)
  {
    MergeFromOrder(users, incoming, 0);
    assert incoming[0..] == incoming;
  }

  lemma {:induction false} MergeFromOrder(users: seq<User>, incoming: seq<User>, i: nat)
    requires i <= |incoming|
    ensures |users| <= |MergeFrom(users, incoming, i)|
    ensures SubseqOf(MergeFrom(users, incoming, i)[|users|..], incoming[i..])
    decreases |incoming| - i
  {
    var m := MergeFrom(users, incoming, i);
    if i == |incoming| {
      assert m[|users|..] == [];
    } else {
      var users' := AddUnique(users, incoming[i]);
      MergeFromOrder(users', incoming, i + 1);
      MergeFromKeeps(users', incoming, i + 1);
      var added := m[|users|..];
      var rest := incoming[i..];
      assert rest[1..] == incoming[i + 1..];
      if users' != users {
        assert added[0] == incoming[i] && added[1..] == m[|users'|..];
      } else if added != [] {
        assert SubseqOf(added, rest[1..]);
      }
    }
  }

  /** Merging two batches one after the other is merging their concatenation. */
  lemma MergedAppend(users: seq<User>, a: seq<User>, b: seq<User>)
    ensures Merged(Merged(users, a), b) == Merged(users, a + b)
  {
    MergeFromAppend(users, a, b, 0);
  }

  lemma {:induction false} MergeFromAppend(users: seq<User>, a: seq<User>, b: seq<User>, i: nat)
    requires i <= |a|
    ensures MergeFrom(users, a + b, i) == MergeFrom(MergeFrom(users, a, i), b, 0)
    decreases |a| - i
  {
    if i == |a| {
      MergeFromShift(users, a, b, 0);
    } else {
      assert (a + b)[i] == a[i];
      MergeFromAppend(AddUnique(users, a[i]), a, b, i + 1);
    }
  }

  lemma {:induction false} MergeFromShift(users: seq<User>, a: seq<User>, b: seq<User>, k: nat)
    requires k <= |b|
    ensures MergeFrom(users, a + b, |a| + k) == MergeFrom(users, b, k)
    decreases |b| - k
  {
    if k < |b| {
      assert (a + b)[|a| + k] == b[k];
      MergeFromShift(AddUnique(users, b[k]), a, b, k + 1);
    }
  }

  /** The merge loop of one endpoint (`for user in method_users`). */
  method MergeUnique(users: seq<User>, incoming: seq<User>) returns (merged: seq<User>)
    ensures merged == Merged(users, incoming)
  {
    merged := users;
    for i := 0 to |incoming|
      invariant MergeFrom(merged, incoming, i) == Merged(users, incoming)
    {
      var u := incoming[i];
      var seen := false;
      for j := 0 to |merged|
        invariant seen <==> exists k :: 0 <= k < j && merged[k].id == u.id
      {
        if merged[j].id == u.id {
          seen := true;
        }
      }
      HasIdAt(merged, u.id);
      if TruthyId(u.id) && !seen {
        merged := merged + [u];
      }
    }
  }

  // -------------------------------------------------------- activity fetcher

  /** The number of endpoint variants tried, in this fixed order. */
  const EndpointCount: nat := 5

  /** How many users the merge holds after the first `calls` calls. */
  function MergedCount(replies: seq<Reply<seq<User>>>, calls: nat, campusId: int, pastDate: int): nat
  {
    |Merged([], HarvestRange(replies, 0, calls, campusId, pastDate))|
  }

  /** A call is the first one made to its endpoint. */
  ghost predicate FirstOfEndpoint(log: seq<Request>, k: nat)
    requires k < |log|
  {
    k == 0 || log[k - 1].endpoint != log[k].endpoint
  }

  /** Every call names an endpoint below `bound` and a page from 1 to `maxPages`. */
  ghost predicate InBounds(log: seq<Request>, bound: nat, maxPages: int)
  {
    forall k :: 0 <= k < |log| ==> log[k].endpoint < bound && 1 <= log[k].page <= maxPages
  }

  /** The endpoints are tried in their fixed order, never going back. */
  ghost predicate EndpointsInOrder(log: seq<Request>)
  {
    forall k :: 0 < k < |log| ==> InOrderAt(log, k)
  }

  ghost predicate InOrderAt(log: seq<Request>, k: nat)
    requires 0 < k < |log|
  {
    log[k - 1].endpoint <= log[k].endpoint
  }

  /** Each endpoint is first asked for page 1. */
  ghost predicate FreshStartsAtOne(log: seq<Request>)
  {
    forall k :: 0 <= k < |log| ==> FreshAt(log, k)
  }

  ghost predicate FreshAt(log: seq<Request>, k: nat)
    requires k < |log|
  {
    FirstOfEndpoint(log, k) ==> log[k].page == 1
  }

  /** The call after a 429 repeats the same request. */
  ghost predicate RetriesRepeat(replies: seq<Reply<seq<User>>>, log: seq<Request>)
  {
    forall k :: 0 < k < |log| ==> RepeatAt(replies, log, k)
  }

  ghost predicate RepeatAt(replies: seq<Reply<seq<User>>>, log: seq<Request>, k: nat)
    requires 0 < k < |log|
  {
    HandleRateLimit(ReplyAt(replies, k - 1)) ==> log[k] == log[k - 1]
  }

  /** A further endpoint is tried only while fewer than `maxUsers` users were merged. */
  ghost predicate StartsUnderCap(replies: seq<Reply<seq<User>>>, log: seq<Request>, campusId: int, pastDate: int, maxUsers: int)
  {
    forall k :: 0 <= k < |log| ==> UnderCapAt(replies, log, k, campusId, pastDate, maxUsers)
  }

  ghost predicate UnderCapAt(replies: seq<Reply<seq<User>>>, log: seq<Request>, k: nat, campusId: int, pastDate: int, maxUsers: int)
    requires k < |log|
  {
    FirstOfEndpoint(log, k) ==> MergedCount(replies, k, campusId, pastDate) < maxUsers
  }

  /**
   * What the log of the activity fetcher satisfies once the endpoints below
   * `bound` have been tried; its last call was not a 429.
   */
  ghost predicate CallsSoFar(replies: seq<Reply<seq<User>>>, log: seq<Request>, bound: nat,
                             campusId: int, pastDate: int, maxUsers: int, maxPages: int)
  {
    && InBounds(log, bound, maxPages)
    && EndpointsInOrder(log)
    && FreshStartsAtOne(log)
    && RetriesRepeat(replies, log)
    && StartsUnderCap(replies, log, campusId, pastDate, maxUsers)
    && (|log| > 0 ==> !HandleRateLimit(ReplyAt(replies, |log| - 1)))
  }

  /**
   * The calls `get_users_by_activity` makes from endpoint `endpoint` on, the
   * next call being number `next`: an endpoint is tried only while fewer than
   * `max_users` users were merged, and its page loop makes the calls
   * `EndpointLog` prescribes.
   */
  ghost function ActivityLog(replies: seq<Reply<seq<User>>>, endpoint: nat, next: nat, merged: seq<User>,
                             campusId: int, pastDate: int, maxUsers: int): seq<Request>
    decreases EndpointCount - endpoint, 2
  {
    if endpoint >= EndpointCount || |merged| >= maxUsers then []
    else ActivityTry(replies, endpoint, next, merged, campusId, pastDate, maxUsers)
  }

  /** Endpoint `endpoint` is tried: its page loop makes the calls `EndpointLog` prescribes. */
  ghost function ActivityTry(replies: seq<Reply<seq<User>>>, endpoint: nat, next: nat, merged: seq<User>,
                             campusId: int, pastDate: int, maxUsers: int): seq<Request>
    requires endpoint < EndpointCount
    decreases EndpointCount - endpoint, 1
  {
    var calls := EndpointLog(replies, endpoint, next, 1, 0, campusId, pastDate, maxUsers, MaxPagesFor(maxUsers));
    ActivityAfter(replies, endpoint, next, merged, calls, campusId, pastDate, maxUsers)
  }

  /** Endpoint `endpoint` made `calls`: merge what they kept and go on with the next endpoint. */
  ghost function ActivityAfter(replies: seq<Reply<seq<User>>>, endpoint: nat, next: nat, merged: seq<User>,
                               calls: seq<Request>, campusId: int, pastDate: int, maxUsers: int): seq<Request>
    requires endpoint < EndpointCount
    decreases EndpointCount - endpoint, 0
  {
    var merged' := Merged(merged, HarvestRange(replies, next, next + |calls|, campusId, pastDate));
    calls + ActivityLog(replies, endpoint + 1, next + |calls|, merged', campusId, pastDate, maxUsers)
  }

  /** The state of the endpoint loop of `get_users_by_activity` before endpoint `endpoint`. */
  ghost predicate Gathering(replies: seq<Reply<seq<User>>>, log: seq<Request>, endpoint: nat, merged: seq<User>,
                            campusId: int, pastDate: int, maxUsers: int)
  {
    && endpoint <= EndpointCount
    && merged == Merged([], HarvestRange(replies, 0, |log|, campusId, pastDate))
    && CallsSoFar(replies, log, endpoint, campusId, pastDate, maxUsers, MaxPagesFor(maxUsers))
    && (maxUsers <= 0 ==> log == [])
    && ActivityLog(replies, 0, 0, [], campusId, pastDate, maxUsers)
       == log + ActivityLog(replies, endpoint, |log|, merged, campusId, pastDate, maxUsers)
  }

  /** Trying one more endpoint and merging what its page loop kept keeps the loop on plan. */
  lemma EndpointTried(replies: seq<Reply<seq<User>>>, log: seq<Request>, endpoint: nat, merged: seq<User>,
                      campusId: int, pastDate: int, maxUsers: int, maxPages: int, found: seq<User>, next: nat, calls: seq<Request>)
    requires maxPages == MaxPagesFor(maxUsers)
    requires endpoint < EndpointCount && |merged| < maxUsers
    // what the loop has kept so far
    requires merged == Merged([], HarvestRange(replies, 0, |log|, campusId, pastDate))
    requires CallsSoFar(replies, log, endpoint, campusId, pastDate, maxUsers, maxPages)
    requires ActivityLog(replies, 0, 0, [], campusId, pastDate, maxUsers)
          == log + ActivityLog(replies, endpoint, |log|, merged, campusId, pastDate, maxUsers)
    // what the page loop of `endpoint` did
    requires |log + calls| == next && found == HarvestRange(replies, |log|, next, campusId, pastDate)
    requires forall k :: 0 <= k < |calls| ==> calls[k].endpoint == endpoint && 1 <= calls[k].page <= maxPages
    requires PagesFollow(replies, |log|, calls)
    requires |calls| > 0 ==> !HandleRateLimit(ReplyAt(replies, next - 1))
    requires calls == EndpointLog(replies, endpoint, |log|, 1, 0, campusId, pastDate, maxUsers, maxPages)
    ensures Gathering(replies, log + calls, endpoint + 1, Merged(merged, found), campusId, pastDate, maxUsers)
  {
    MergeStep(replies, |log|, next, campusId, pastDate);
    LogSteps(replies, log, calls, next, endpoint, campusId, pastDate, maxUsers, maxPages);
    PlanStep(replies, log, endpoint, merged, calls, Merged(merged, found), campusId, pastDate, maxUsers);
  }

  /** The log extended by one endpoint's calls is still a prefix of the activity plan. */
  lemma PlanStep(replies: seq<Reply<seq<User>>>, log: seq<Request>, endpoint: nat, merged: seq<User>,
                 calls: seq<Request>, merged': seq<User>, campusId: int, pastDate: int, maxUsers: int)
    requires endpoint < EndpointCount && |merged| < maxUsers
    requires calls == EndpointLog(replies, endpoint, |log|, 1, 0, campusId, pastDate, maxUsers, MaxPagesFor(maxUsers))
    requires merged' == Merged(merged, HarvestRange(replies, |log|, |log + calls|, campusId, pastDate))
    requires ActivityLog(replies, 0, 0, [], campusId, pastDate, maxUsers)
          == log + ActivityLog(replies, endpoint, |log|, merged, campusId, pastDate, maxUsers)
    ensures ActivityLog(replies, 0, 0, [], campusId, pastDate, maxUsers)
         == (log + calls) + ActivityLog(replies, endpoint + 1, |log + calls|, merged', campusId, pastDate, maxUsers)
  {
    ActivityStep(replies, endpoint, |log|, merged, calls, |log + calls|, merged', campusId, pastDate, maxUsers);
    AppendShift(ActivityLog(replies, 0, 0, [], campusId, pastDate, maxUsers), log,
                ActivityLog(replies, endpoint, |log|, merged, campusId, pastDate, maxUsers), calls,
                ActivityLog(replies, endpoint + 1, |log + calls|, merged', campusId, pastDate, maxUsers));
  }

  /** Moving the head of a tail over to the prefix: stated on plain sequences so heavy terms stay out of it. */
  lemma AppendShift<T>(whole: seq<T>, log: seq<T>, tail: seq<T>, calls: seq<T>, rest: seq<T>)
    requires whole == log + tail && tail == calls + rest
    ensures whole == (log + calls) + rest
  {
  }

  /** One endpoint tried: its calls come next in the activity plan. */
  lemma ActivityStep(replies: seq<Reply<seq<User>>>, endpoint: nat, next: nat, merged: seq<User>,
                     calls: seq<Request>, next': nat, merged': seq<User>, campusId: int, pastDate: int, maxUsers: int)
    requires endpoint < EndpointCount && |merged| < maxUsers
    requires calls == EndpointLog(replies, endpoint, next, 1, 0, campusId, pastDate, maxUsers, MaxPagesFor(maxUsers))
    requires next' == next + |calls|
    requires merged' == Merged(merged, HarvestRange(replies, next, next', campusId, pastDate))
    ensures ActivityLog(replies, endpoint, next, merged, campusId, pastDate, maxUsers)
         == calls + ActivityLog(replies, endpoint + 1, next', merged', campusId, pastDate, maxUsers)
  {
    ActivityUnfold(replies, endpoint, next, merged, calls, campusId, pastDate, maxUsers);
    ActivityAfterUnfold(replies, endpoint, next, merged, calls, next', merged', campusId, pastDate, maxUsers);
  }

  /** An endpoint is tried while fewer than `max_users` users were merged. */
  lemma ActivityUnfold(replies: seq<Reply<seq<User>>>, endpoint: nat, next: nat, merged: seq<User>, calls: seq<Request>,
                       campusId: int, pastDate: int, maxUsers: int)
    requires endpoint < EndpointCount && |merged| < maxUsers
    requires calls == EndpointLog(replies, endpoint, next, 1, 0, campusId, pastDate, maxUsers, MaxPagesFor(maxUsers))
    ensures ActivityLog(replies, endpoint, next, merged, campusId, pastDate, maxUsers)
         == ActivityAfter(replies, endpoint, next, merged, calls, campusId, pastDate, maxUsers)
  {
    assert ActivityLog(replies, endpoint, next, merged, campusId, pastDate, maxUsers)
        == ActivityTry(replies, endpoint, next, merged, campusId, pastDate, maxUsers);
  }

  /** After an endpoint come its calls, then the endpoints after it, from the merge that includes its rows. */
  lemma ActivityAfterUnfold(replies: seq<Reply<seq<User>>>, endpoint: nat, next: nat, merged: seq<User>,
                            calls: seq<Request>, next': nat, merged': seq<User>, campusId: int, pastDate: int, maxUsers: int)
    requires endpoint < EndpointCount
    requires next' == next + |calls|
    requires merged' == Merged(merged, HarvestRange(replies, next, next', campusId, pastDate))
    ensures ActivityAfter(replies, endpoint, next, merged, calls, campusId, pastDate, maxUsers)
         == calls + ActivityLog(replies, endpoint + 1, next', merged', campusId, pastDate, maxUsers)
  {
  }

  /** Where the endpoint loop stops, every prescribed call was made and the result keeps its promises. */
  lemma ActivityDone(replies: seq<Reply<seq<User>>>, log: seq<Request>, endpoint: nat, merged: seq<User>,
                     campusId: int, pastDate: int, maxUsers: int)
    requires Gathering(replies, log, endpoint, merged, campusId, pastDate, maxUsers)
    requires endpoint == EndpointCount || |merged| >= maxUsers
    ensures log == ActivityLog(replies, 0, 0, [], campusId, pastDate, maxUsers)
    ensures InBounds(log, EndpointCount, MaxPagesFor(maxUsers))
    ensures maxUsers <= 0 ==> merged == []
  {
    assert ActivityLog(replies, endpoint, |log|, merged, campusId, pastDate, maxUsers) == [];
    assert log + [] == log;
    InBoundsWiden(log, endpoint, EndpointCount, MaxPagesFor(maxUsers));
  }

  /**
   * `get_users_by_activity`: the endpoints are tried in order, each page loop
   * keeps the rows that pass the re-check, the rows are merged by id, and the
   * result is cut at `max_users`. Also returns the log of its calls.
   */
  method UsersByActivity(replies: seq<Reply<seq<User>>>, campusId: int, pastDate: int, maxUsers: int)
    returns (users: seq<User>, log: seq<Request>)
    // the calls are those the endpoint order and the stop rules prescribe
    ensures log == ActivityLog(replies, 0, 0, [], campusId, pastDate, maxUsers)
    // the result is the first-seen deduplication of every kept row, cut at max_users
    ensures users == PySlice(Merged([], HarvestRange(replies, 0, |log|, campusId, pastDate)), maxUsers)
    ensures |users| <= if maxUsers < 0 then 0 else maxUsers
    ensures UniqueIds(users) && AllTruthy(users)
    ensures forall i :: 0 <= i < |users| ==> PassesActivityFilter(users[i], campusId, pastDate)
    // five endpoints in fixed order, each starting at page 1, pages capped
    ensures InBounds(log, EndpointCount, MaxPagesFor(maxUsers))
    ensures EndpointsInOrder(log) && FreshStartsAtOne(log)
    // 429 retries the same page of the same endpoint
    ensures RetriesRepeat(replies, log)
    // a further endpoint is tried only while fewer than max_users were merged
    ensures StartsUnderCap(replies, log, campusId, pastDate, maxUsers)
  {
    var merged: seq<User> := [];
    log := [];
    var endpoint := 0;
    // the check at the head of the loop and the one after the merge are the same test
    while endpoint < EndpointCount && |merged| < maxUsers
      invariant Gathering(replies, log, endpoint, merged, campusId, pastDate, maxUsers)
      decreases EndpointCount - endpoint
    {
      log, merged := TryEndpoint(replies, log, endpoint, merged, campusId, pastDate, maxUsers);
      endpoint := endpoint + 1;
    }
    users := PySlice(merged, maxUsers);
    ActivityOutcome(replies, log, endpoint, merged, users, campusId, pastDate, maxUsers);
  }

  /** Once the endpoint loop stops, its log and its cut merge are what UsersByActivity promises. */
  lemma ActivityOutcome(replies: seq<Reply<seq<User>>>, log: seq<Request>, endpoint: nat, merged: seq<User>,
                        users: seq<User>, campusId: int, pastDate: int, maxUsers: int)
    requires Gathering(replies, log, endpoint, merged, campusId, pastDate, maxUsers)
    requires endpoint == EndpointCount || |merged| >= maxUsers
    requires users == PySlice(merged, maxUsers)
    ensures log == ActivityLog(replies, 0, 0, [], campusId, pastDate, maxUsers)
    ensures users == PySlice(Merged([], HarvestRange(replies, 0, |log|, campusId, pastDate)), maxUsers)
    ensures |users| <= if maxUsers < 0 then 0 else maxUsers
    ensures UniqueIds(users) && AllTruthy(users)
    ensures forall i :: 0 <= i < |users| ==> PassesActivityFilter(users[i], campusId, pastDate)
    ensures InBounds(log, EndpointCount, MaxPagesFor(maxUsers))
    ensures EndpointsInOrder(log) && FreshStartsAtOne(log)
    ensures RetriesRepeat(replies, log)
    ensures StartsUnderCap(replies, log, campusId, pastDate, maxUsers)
  {
    ActivityDone(replies, log, endpoint, merged, campusId, pastDate, maxUsers);
    ActivityResult(replies, |log|, campusId, pastDate, maxUsers);
  }

  /** One round of the endpoint loop: the page loop of `endpoint`, then the merge of what it kept. */
  method TryEndpoint(replies: seq<Reply<seq<User>>>, log: seq<Request>, endpoint: nat, merged: seq<User>,
                     campusId: int, pastDate: int, maxUsers: int)
    returns (log': seq<Request>, merged': seq<User>)
    requires Gathering(replies, log, endpoint, merged, campusId, pastDate, maxUsers)
    requires endpoint < EndpointCount && |merged| < maxUsers
    ensures Gathering(replies, log', endpoint + 1, merged', campusId, pastDate, maxUsers)
  {
    var maxPages := MaxPagesFor(maxUsers);
    var found, next, calls := FetchEndpoint(replies, |log|, endpoint, campusId, pastDate, maxUsers, maxPages);
    EndpointTried(replies, log, endpoint, merged, campusId, pastDate, maxUsers, maxPages, found, next, calls);
    merged' := MergeUnique(merged, found);
    log' := log + calls;
  }

  /** Merging the rows of further calls into the merge so far is merging all the rows at once. */
  lemma MergeStep(replies: seq<Reply<seq<User>>>, start: nat, next: nat, campusId: int, pastDate: int)
    requires start <= next
    ensures Merged(Merged([], HarvestRange(replies, 0, start, campusId, pastDate)), HarvestRange(replies, start, next, campusId, pastDate))
         == Merged([], HarvestRange(replies, 0, next, campusId, pastDate))
  {
    HarvestSplit(replies, 0, start, next, campusId, pastDate);
    MergedAppend([], HarvestRange(replies, 0, start, campusId, pastDate), HarvestRange(replies, start, next, campusId, pastDate));
  }

  lemma InBoundsWiden(log: seq<Request>, bound: nat, bound': nat, maxPages: int)
    requires InBounds(log, bound, maxPages) && bound <= bound'
    ensures InBounds(log, bound', maxPages)
  {
  }

  /** The cut merge of kept rows has unique truthy ids, and each row passes the re-check. */
  lemma ActivityResult(replies: seq<Reply<seq<User>>>, calls: nat, campusId: int, pastDate: int, maxUsers: int)
    ensures var users := PySlice(Merged([], HarvestRange(replies, 0, calls, campusId, pastDate)), maxUsers);
      && (maxUsers >= 0 ==> |users| <= maxUsers)
      && UniqueIds(users) && AllTruthy(users)
      && forall i :: 0 <= i < |users| ==> PassesActivityFilter(users[i], campusId, pastDate)
  {
    var rows := HarvestRange(replies, 0, calls, campusId, pastDate);
    var merged := Merged([], rows);
    var users := PySlice(merged, maxUsers);
    MergedKeeps([], rows);
    HarvestPasses(replies, 0, calls, campusId, pastDate);
    forall i | 0 <= i < |users| ensures users[i] == merged[i] && merged[i] in rows { }
  }

  /** The calls of one more endpoint extend a log that satisfies CallsSoFar to a longer one that does. */
  lemma LogSteps(replies: seq<Reply<seq<User>>>, before: seq<Request>, calls: seq<Request>, next: nat, endpoint: nat,
                 campusId: int, pastDate: int, maxUsers: int, maxPages: int)
    requires CallsSoFar(replies, before, endpoint, campusId, pastDate, maxUsers, maxPages)
    requires forall k :: 0 <= k < |calls| ==> calls[k].endpoint == endpoint && 1 <= calls[k].page <= maxPages
    requires PagesFollow(replies, |before|, calls)
    requires |before + calls| == next && (|calls| > 0 ==> !HandleRateLimit(ReplyAt(replies, next - 1)))
    requires |calls| > 0 ==> MergedCount(replies, |before|, campusId, pastDate) < maxUsers
    ensures CallsSoFar(replies, before + calls, endpoint + 1, campusId, pastDate, maxUsers, maxPages)
  {
    StepInBounds(before, calls, endpoint, maxPages);
    StepInOrder(before, calls, endpoint, maxPages);
    StepFresh(replies, before, calls, endpoint);
    StepRetries(replies, before, calls, endpoint);
    StepUnderCap(replies, before, calls, endpoint, campusId, pastDate, maxUsers);
  }

  lemma StepInBounds(before: seq<Request>, calls: seq<Request>, endpoint: nat, maxPages: int)
    requires InBounds(before, endpoint, maxPages)
    requires forall k :: 0 <= k < |calls| ==> calls[k].endpoint == endpoint && 1 <= calls[k].page <= maxPages
    ensures InBounds(before + calls, endpoint + 1, maxPages)
  {
    var log := before + calls;
    forall k | 0 <= k < |log| ensures log[k].endpoint < endpoint + 1 && 1 <= log[k].page <= maxPages {
      if k >= |before| { assert log[k] == calls[k - |before|]; }
    }
  }

  lemma StepInOrder(before: seq<Request>, calls: seq<Request>, endpoint: nat, maxPages: int)
    requires InBounds(before, endpoint, maxPages) && EndpointsInOrder(before)
    requires forall k :: 0 <= k < |calls| ==> calls[k].endpoint == endpoint
    ensures EndpointsInOrder(before + calls)
  {
    var log := before + calls;
    forall k | 0 < k < |log| ensures InOrderAt(log, k) {
      if k < |before| {
        assert InOrderAt(before, k);
        assert log[k] == before[k] && log[k - 1] == before[k - 1];
      } else if k == |before| {
        assert log[k] == calls[0] && log[k - 1] == before[k - 1];
      } else {
        assert log[k] == calls[k - |before|] && log[k - 1] == calls[k - 1 - |before|];
      }
    }
  }

  lemma StepFresh(replies: seq<Reply<seq<User>>>, before: seq<Request>, calls: seq<Request>, endpoint: nat)
    requires FreshStartsAtOne(before)
    requires forall k :: 0 <= k < |calls| ==> calls[k].endpoint == endpoint
    requires PagesFollow(replies, |before|, calls)
    ensures FreshStartsAtOne(before + calls)
  {
    var log := before + calls;
    forall k | 0 <= k < |log| ensures FreshAt(log, k) {
      if k < |before| {
        assert FreshAt(before, k);
        assert log[k] == before[k] && (k > 0 ==> log[k - 1] == before[k - 1]);
      } else if k == |before| {
        assert log[k] == calls[0];
      } else {
        assert log[k] == calls[k - |before|] && log[k - 1] == calls[k - 1 - |before|];
      }
    }
  }

  lemma StepRetries(replies: seq<Reply<seq<User>>>, before: seq<Request>, calls: seq<Request>, endpoint: nat)
    requires RetriesRepeat(replies, before)
    requires |before| > 0 ==> !HandleRateLimit(ReplyAt(replies, |before| - 1))
    requires forall k :: 0 <= k < |calls| ==> calls[k].endpoint == endpoint
    requires PagesFollow(replies, |before|, calls)
    ensures RetriesRepeat(replies, before + calls)
  {
    var log := before + calls;
    forall k | 0 < k < |log| ensures RepeatAt(replies, log, k) {
      if k < |before| {
        assert RepeatAt(replies, before, k);
        assert log[k] == before[k] && log[k - 1] == before[k - 1];
      } else if k > |before| {
        assert PageAfter(replies, |before|, calls, k - |before|);
        assert log[k] == calls[k - |before|] && log[k - 1] == calls[k - 1 - |before|];
      }
    }
  }

  lemma StepUnderCap(replies: seq<Reply<seq<User>>>, before: seq<Request>, calls: seq<Request>, endpoint: nat,
                     campusId: int, pastDate: int, maxUsers: int)
    requires StartsUnderCap(replies, before, campusId, pastDate, maxUsers)
    requires forall k :: 0 <= k < |calls| ==> calls[k].endpoint == endpoint
    requires |calls| > 0 ==> MergedCount(replies, |before|, campusId, pastDate) < maxUsers
    ensures StartsUnderCap(replies, before + calls, campusId, pastDate, maxUsers)
  {
    var log := before + calls;
    forall k | 0 <= k < |log| ensures UnderCapAt(replies, log, k, campusId, pastDate, maxUsers) {
      if k < |before| {
        assert UnderCapAt(replies, before, k, campusId, pastDate, maxUsers);
        assert log[k] == before[k] && (k > 0 ==> log[k - 1] == before[k - 1]);
      } else if k > |before| {
        assert log[k] == calls[k - |before|] && log[k - 1] == calls[k - 1 - |before|];
      }
    }
  }

  // ---------------------------------------------------------- location fetcher

  /** The characters Python's `str.strip()` removes (`str.isspace`). */
  predicate IsSpace(c: char)
  {
    || '\U{9}' <= c <= '\U{D}' || '\U{1C}' <= c <= '\U{20}'
    || c == '\U{85}' || c == '\U{A0}' || c == '\U{1680}'
    || '\U{2000}' <= c <= '\U{200A}' || c == '\U{2028}' || c == '\U{2029}'
    || c == '\U{202F}' || c == '\U{205F}' || c == '\U{3000}'
  }

  /** `s.strip()` is empty. */
  predicate Blank(s: string)
  {
    forall i :: 0 <= i < |s| ==> IsSpace(s[i])
  }

  /** The user's location is set, is not "unavailable", and is not blank. */
  predicate OnSite(u: User)
  {
    u.location.Some? && u.location.value != "" && u.location.value != "unavailable" && !Blank(u.location.value)
  }

  /**
   * The keys the location fetcher writes into a kept user. The source stores
   * the raw `updated_at` text as `last_location`; the model stores it parsed,
   * as it does every timestamp, and nothing modelled reads it back.
   */
  function MarkPresent(u: User): User
  {
    u.(locationActive := Some(true), lastLocation := u.updated)
  }

  /** The users of one page that are on site, marked, in page order. */
  function PresentUsers(body: seq<User>): seq<User>
  {
    if body == [] then []
    else PresentUsers(body[..|body| - 1]) + (if OnSite(body[|body| - 1]) then [MarkPresent(body[|body| - 1])] else [])
  }

  /** Exactly the on-site users, in input order, each marked present. */
  lemma {:induction false} PresentUsersSpec(body: seq<User>)
    ensures var on := Filter(body, OnSite);
      && |PresentUsers(body)| == |on|
      && forall i :: 0 <= i < |on| ==> PresentUsers(body)[i] == MarkPresent(on[i])
  {
    if body != [] {
      var init := body[..|body| - 1];
      var last := body[|body| - 1];
      PresentUsersSpec(init);
      assert init + [last] == body;
      FilterAppend(init, [last], OnSite);
      assert Filter([last], OnSite) == if OnSite(last) then [last] else [];
      var on, before := Filter(body, OnSite), Filter(init, OnSite);
      forall i | 0 <= i < |before| ensures PresentUsers(body)[i] == MarkPresent(on[i]) {
        assert on[i] == before[i] && PresentUsers(body)[i] == PresentUsers(init)[i];
      }
    }
  }

  /** Marked users are on site, flagged present, and carry `updated_at` as their last location. */
  lemma PresentUsersMarked(body: seq<User>)
    ensures forall i :: 0 <= i < |PresentUsers(body)| ==>
      var u := PresentUsers(body)[i];
      OnSite(u) && u.locationActive == Some(true) && u.lastLocation == u.updated
  {
    PresentUsersSpec(body);
  }

  /**
   * `get_users_by_locations`: one request for the first page of the campus
   * users; any failure yields the empty list.
   */
  method UsersByLocation(reply: Reply<seq<User>>) returns (users: seq<User>)
    ensures reply.Ok? ==> users == PresentUsers(reply.body)
    ensures !reply.Ok? ==> users == []
  {
    users := [];
    if reply.Ok? {
      var body := reply.body;
      if body != [] {
        var active: seq<User> := [];
        for i := 0 to |body|
          invariant active == PresentUsers(body[..i])
        {
          assert body[..i + 1][..i] == body[..i];
          if OnSite(body[i]) {
            active := active + [MarkPresent(body[i])];
          }
        }
        assert body[..|body|] == body;
        users := active;
      }
    }
  }

  // ---------------------------------------------------------------- enrichment

  /**
   * `get_user_details` followed by `if detailed_user:`: the record of a 200
   * reply whose body is truthy. A detail body is `None` when the JSON is
   * falsy (null, an empty object).
   */
  function UserDetails(reply: Reply<Option<User>>): (d: Option<User>)
    ensures d.Some? <==> reply.Ok? && reply.body.Some?
    ensures d.Some? ==> d.value == reply.body.value
  {
    if reply.Ok? then reply.body else None
  }

  /** What becomes of the `i`-th selected user in the enrichment pass. */
  function Enhance(u: User, i: nat, details: seq<Reply<Option<User>>>): User
  {
    if i < Settings.DetailCap then
      match UserDetails(ReplyAt(details, i))
      case Some(d) => d.(locationActive := Some(true), lastLocation := u.lastLocation)
      case None => u
    else u.(locationActive := Some(true))
  }

  /**
   * `get_active_users`: the on-site users cut at `max_users`; the first 50
   * are replaced by their detailed record when its request succeeds. Returns
   * the enriched list and the number of detail requests made.
   */
  method ActiveUsers(locationReply: Reply<seq<User>>, details: seq<Reply<Option<User>>>, maxUsers: int)
    returns (users: seq<User>, detailCalls: nat)
    ensures var chosen := PySlice(if locationReply.Ok? then PresentUsers(locationReply.body) else [], maxUsers);
      && |users| == |chosen|
      && detailCalls == Min(Settings.DetailCap, |chosen|)
      && forall i :: 0 <= i < |users| ==> users[i] == Enhance(chosen[i], i, details)
  {
    var present := UsersByLocation(locationReply);
    var chosen := PySlice(present, maxUsers);
    var detailLimit := Min(Settings.DetailCap, |chosen|);
    users, detailCalls := [], 0;
    for i := 0 to |chosen|
      invariant |users| == i
      invariant detailCalls == Min(i, detailLimit)
      invariant forall k :: 0 <= k < i ==> users[k] == Enhance(chosen[k], k, details)
    {
      var user := chosen[i];
      if i < detailLimit {
        var detailed := UserDetails(ReplyAt(details, i));
        detailCalls := detailCalls + 1;
        if detailed.Some? {
          users := users + [detailed.value.(locationActive := Some(true), lastLocation := user.lastLocation)];
        } else {
          users := users + [user];
        }
      } else {
        users := users + [user.(locationActive := Some(true))];
      }
    }
  }

  /**
   * Every user of the enrichment pass ends flagged present, and from position
   * 50 on each is the summary record itself.
   */
  lemma {:induction false} ActiveUsersPresent(locationReply: Reply<seq<User>>, details: seq<Reply<Option<User>>>, maxUsers: int, i: nat)
    requires var chosen := PySlice(if locationReply.Ok? then PresentUsers(locationReply.body) else [], maxUsers);
      i < |chosen|
    ensures var chosen := PySlice(if locationReply.Ok? then PresentUsers(locationReply.body) else [], maxUsers);
      && Enhance(chosen[i], i, details).locationActive == Some(true)
      && (i >= Settings.DetailCap ==> Enhance(chosen[i], i, details) == chosen[i])
      && (UserDetails(ReplyAt(details, i)).None? ==> Enhance(chosen[i], i, details) == chosen[i])
      && (i < Settings.DetailCap && UserDetails(ReplyAt(details, i)).Some? ==>
            Enhance(chosen[i], i, details) == ReplyAt(details, i).body.value.(locationActive := Some(true), lastLocation := chosen[i].lastLocation))
  {
    var present := if locationReply.Ok? then PresentUsers(locationReply.body) else [];
    var chosen := PySlice(present, maxUsers);
    if locationReply.Ok? {
      PresentUsersMarked(locationReply.body);
    }
    assert chosen[i] == present[i];
  }
}

/** The page loops that fetch a user's events: `fetchUserEvents` of
    generate-data.mjs and gh-summary.mjs (one endpoint, at most 20 pages),
    `fetchPublicEvents` of app.js (at most 3 pages, a date window) and
    `fetchUserEvents` of gh-org-summary.mjs (a chain of endpoints, at most 30
    pages each, a shared cutoff flag). The network is replaced by the responses
    each endpoint would give: page n (counted from 1) of an endpoint is its
    (n-1)-th response, and a page past the end is an empty JSON array. */
module Paging {
  import opened Wrappers
  import opened Events
  import opened LinkHeader
  import opened Sorting

  /** One HTTP response: a 2xx whose body is a JSON array, a 2xx whose body is
      something else, or a non-2xx status. */
  datatype Response =
    | Page(items: seq<RawEvent>, rels: map<string, string>)
    | NotArray
    | Failure(status: int)

  /** A 2xx array response as received: its `Link` header is read by
      `parseLinkHeader` as it arrives. */
  function Received(items: seq<RawEvent>, link: string): Response {
    Page(items, ParseLinkHeader(link))
  }

  /** `!rel.next`, negated: the header links a next page. */
  predicate LinksNext(rels: map<string, string>) {
    "next" in rels && rels["next"] != ""
  }

  datatype FetchError = UserNotFound | ApiStatus(status: int)

  /** Which of the three loops: they differ in when a page lets paging go on. */
  datatype Rule = UserRule | AppRule | OrgRule

  const MaxUserPages: nat := 20
  const MaxAppPages: nat := 3
  const MaxOrgPages: nat := 30

  function Limit(rule: Rule): (r: nat)
    ensures r >= 1
  {
    match rule
    case UserRule => MaxUserPages
    case AppRule => MaxAppPages
    case OrgRule => MaxOrgPages
  }

  function ResponseAt(pages: seq<Response>, n: nat): Response {
    if 1 <= n <= |pages| then pages[n - 1] else Page([], map[])
  }

  /** What a page adds to the collected events (`out.push(...items)`). */
  function ItemsOf(r: Response): seq<RawEvent> {
    if r.Page? then r.items else []
  }

  /** `items.filter(e => new Date(e.created_at) >= since)`. */
  function SinceFilter(s: seq<RawEvent>, since: int): (r: seq<RawEvent>)
    ensures |r| <= |s| && AllSince(r, since)
  {
    if s == [] then []
    else (if s[0].createdAt >= since then [s[0]] else []) + SinceFilter(s[1..], since)
  }

  /** The filter keeps exactly the events not older than `since`. */
  lemma {:induction false} SinceFilterMembers(s: seq<RawEvent>, since: int)
    ensures forall e :: e in SinceFilter(s, since) <==> e in s && e.createdAt >= since
  {
    if s != [] {
      SinceFilterMembers(s[1..], since);
      assert s == [s[0]] + s[1..];
    }
  }

  lemma {:induction false} SinceFilterAppend(a: seq<RawEvent>, b: seq<RawEvent>, since: int)
    ensures SinceFilter(a + b, since) == SinceFilter(a, since) + SinceFilter(b, since)
  {
    if a == [] {
      assert a + b == b;
    } else {
      var ab := a + b;
      assert ab[0] == a[0] && ab[1..] == a[1..] + b;
      SinceFilterAppend(a[1..], b, since);
      var head := if a[0].createdAt >= since then [a[0]] else [];
      calc {
        SinceFilter(ab, since);
        head + SinceFilter(a[1..] + b, since);
        head + (SinceFilter(a[1..], since) + SinceFilter(b, since));
        (head + SinceFilter(a[1..], since)) + SinceFilter(b, since);
      }
    }
  }

  lemma {:induction false} SinceFilterKeepsAll(s: seq<RawEvent>, since: int)
    requires AllSince(s, since)
    ensures SinceFilter(s, since) == s
  {
    if s != [] {
      SinceFilterKeepsAll(s[1..], since);
    }
  }

  lemma {:induction false} SinceFilterDropsSome(s: seq<RawEvent>, since: int)
    requires !AllSince(s, since)
    ensures |SinceFilter(s, since)| < |s|
  {
    if s[0].createdAt >= since {
      SinceFilterDropsSome(s[1..], since);
    }
  }

  /** `allEvents.filter(e => startDate <= created_at && created_at <= endDate)`. */
  function WindowFilter(s: seq<RawEvent>, start: int, end: int): (r: seq<RawEvent>)
    ensures |r| <= |s|
    ensures forall i :: 0 <= i < |r| ==> start <= r[i].createdAt <= end
  {
    if s == [] then []
    else (if start <= s[0].createdAt <= end then [s[0]] else []) + WindowFilter(s[1..], start, end)
  }

  /** The filter keeps exactly the events between the two dates. */
  lemma {:induction false} WindowFilterMembers(s: seq<RawEvent>, start: int, end: int)
    ensures forall e :: e in WindowFilter(s, start, end) <==> e in s && start <= e.createdAt <= end
  {
    if s != [] {
      WindowFilterMembers(s[1..], start, end);
      assert s == [s[0]] + s[1..];
    }
  }

  /** The oldest item of a non-empty page (the API lists newest first) is before `since`. */
  predicate LastOlder(items: seq<RawEvent>, since: int) {
    |items| > 0 && items[|items| - 1].createdAt < since
  }

  /** A page lets the loop ask for the next one (the page ceiling aside). */
  predicate Continues(rule: Rule, r: Response, since: int) {
    match rule
    case UserRule =>
      r.Page? && |r.items| > 0 && !LastOlder(r.items, since) && LinksNext(r.rels)
    case AppRule =>
      r.Page? && |r.items| > 0 && !LastOlder(r.items, since)
    case OrgRule =>
      r.Page? && |r.items| > 0 && AllSince(r.items, since) && LinksNext(r.rels)
  }

  /** The number of pages the loop requests, counting from page `n`: the first page
      that does not let it go on, or the ceiling. */
  function FirstStop(pages: seq<Response>, rule: Rule, since: int, n: nat): (r: nat)
    requires 1 <= n <= Limit(rule)
    decreases Limit(rule) - n
    ensures n <= r <= Limit(rule)
  {
    if n == Limit(rule) || !Continues(rule, ResponseAt(pages, n), since) then n
    else FirstStop(pages, rule, since, n + 1)
  }

  /** Every page before the one the loop stops on let it go on, and the loop stops
      before the ceiling only on a page that does not. */
  lemma {:induction false} FirstStopIsFirst(pages: seq<Response>, rule: Rule, since: int, n: nat)
    requires 1 <= n <= Limit(rule)
    decreases Limit(rule) - n
    ensures forall k :: n <= k < FirstStop(pages, rule, since, n) ==> Continues(rule, ResponseAt(pages, k), since)
    ensures FirstStop(pages, rule, since, n) < Limit(rule) ==>
      !Continues(rule, ResponseAt(pages, FirstStop(pages, rule, since, n)), since)
  {
    if n < Limit(rule) && Continues(rule, ResponseAt(pages, n), since) {
      FirstStopIsFirst(pages, rule, since, n + 1);
    }
  }

  /** A page that does not let the loop go on, or the ceiling, is where it stops. */
  lemma StopsHere(pages: seq<Response>, rule: Rule, since: int, n: nat)
    requires 1 <= n <= Limit(rule)
    requires n == Limit(rule) || !Continues(rule, ResponseAt(pages, n), since)
    ensures FirstStop(pages, rule, since, n) == n
  {
  }

  /** A page that lets the loop go on, below the ceiling, passes the stop to the next. */
  lemma Advance(pages: seq<Response>, rule: Rule, since: int, n: nat)
    requires 1 <= n < Limit(rule) && Continues(rule, ResponseAt(pages, n), since)
    ensures FirstStop(pages, rule, since, n) == FirstStop(pages, rule, since, n + 1)
  {
  }

  /** Everything pushed by pages 1..n, in fetch order. */
  function Fetched(pages: seq<Response>, n: nat): seq<RawEvent> {
    if n == 0 then [] else Fetched(pages, n - 1) + ItemsOf(ResponseAt(pages, n))
  }

  // ---------------------------------------------------------------------------
  // generate-data.mjs and gh-summary.mjs

  /** What `fetchUserEvents` returns: the events of the pages it requested that
      are not older than `since`, or the error of the page that failed. */
  function UserFetch(pages: seq<Response>, since: int): Result<seq<RawEvent>, FetchError> {
    var n := FirstStop(pages, UserRule, since, 1);
    var last := ResponseAt(pages, n);
    if last.Failure? then Err(ApiStatus(last.status)) else Ok(SinceFilter(Fetched(pages, n), since))
  }

  method FetchUserEvents(pages: seq<Response>, since: int)
    returns (r: Result<seq<RawEvent>, FetchError>, requested: nat)
    ensures requested == FirstStop(pages, UserRule, since, 1)
    ensures r == UserFetch(pages, since)
  {
    var page := 1;
    var out := [];
    while true
      invariant 1 <= page <= MaxUserPages
      invariant out == Fetched(pages, page - 1)
      invariant FirstStop(pages, UserRule, since, 1) == FirstStop(pages, UserRule, since, page)
      decreases MaxUserPages - page
    {
      var resp := ResponseAt(pages, page);
      if resp.Failure? {
        StopsHere(pages, UserRule, since, page);
        return Err(ApiStatus(resp.status)), page;
      }
      if !resp.Page? || |resp.items| == 0 {
        StopsHere(pages, UserRule, since, page);
        assert Fetched(pages, page) == out + [] == out;
        break;
      }
      out := out + resp.items;
      assert out == Fetched(pages, page);
      if LastOlder(resp.items, since) || !LinksNext(resp.rels) {
        StopsHere(pages, UserRule, since, page);
        break;
      }
      if page + 1 > MaxUserPages {
        StopsHere(pages, UserRule, since, page);
        break;
      }
      Advance(pages, UserRule, since, page);
      page := page + 1;
    }
    assert FirstStop(pages, UserRule, since, 1) == page && out == Fetched(pages, page);
    r, requested := Ok(SinceFilter(out, since)), page;
  }

  /** At most 20 pages are requested, and every page before the last one requested
      was a non-empty array, reached back no further than `since` and linked a next page. */
  lemma UserFetchBounds(pages: seq<Response>, since: int)
    ensures 1 <= FirstStop(pages, UserRule, since, 1) <= 20
    ensures forall k :: 1 <= k < FirstStop(pages, UserRule, since, 1) ==>
      var p := ResponseAt(pages, k); p.Page? && |p.items| > 0 && p.items[|p.items| - 1].createdAt >= since && LinksNext(p.rels)
  {
    FirstStopIsFirst(pages, UserRule, since, 1);
  }

  /** A page whose oldest event is before `since` is the last one requested. */
  lemma UserFetchStopsAtCutoff(pages: seq<Response>, since: int, k: nat)
    requires 1 <= k && ResponseAt(pages, k).Page? && LastOlder(ResponseAt(pages, k).items, since)
    ensures FirstStop(pages, UserRule, since, 1) <= k
  {
    FirstStopIsFirst(pages, UserRule, since, 1);
  }

  /** Everything returned is inside the window. */
  lemma UserFetchWithinWindow(pages: seq<Response>, since: int)
    ensures UserFetch(pages, since).Ok? ==> AllSince(UserFetch(pages, since).value, since)
  {
  }

  // ---------------------------------------------------------------------------
  // app.js

  /** What `fetchPublicEvents` returns: the fetched events inside [start, end]. */
  function AppFetch(pages: seq<Response>, start: int, end: int): Result<seq<RawEvent>, FetchError> {
    var n := FirstStop(pages, AppRule, start, 1);
    var last := ResponseAt(pages, n);
    if last.Failure? then Err(if last.status == 404 then UserNotFound else ApiStatus(last.status))
    else Ok(WindowFilter(Fetched(pages, n), start, end))
  }

  /** `fetchPublicEvents`: the result fails exactly when the last page requested
      failed, as "User not found" for a 404 and with the page's status otherwise. */
  method FetchPublicEvents(pages: seq<Response>, start: int, end: int)
    returns (r: Result<seq<RawEvent>, FetchError>, requested: nat)
    ensures requested == FirstStop(pages, AppRule, start, 1)
    ensures r == AppFetch(pages, start, end)
    ensures 1 <= requested <= MaxAppPages
    ensures r.Err? <==> ResponseAt(pages, requested).Failure?
    ensures r.Err? ==> (r.error == UserNotFound <==> ResponseAt(pages, requested).status == 404)
    ensures r.Err? && r.error.ApiStatus? ==> r.error.status == ResponseAt(pages, requested).status
  {
    var page := 1;
    var all := [];
    while page <= MaxAppPages
      invariant 1 <= page <= MaxAppPages + 1
      invariant all == Fetched(pages, page - 1)
      invariant page <= MaxAppPages ==> FirstStop(pages, AppRule, start, 1) == FirstStop(pages, AppRule, start, page)
      invariant page == MaxAppPages + 1 ==> FirstStop(pages, AppRule, start, 1) == MaxAppPages
      invariant page == MaxAppPages + 1 ==> !ResponseAt(pages, MaxAppPages).Failure?
    {
      var resp := ResponseAt(pages, page);
      if resp.Failure? {
        StopsHere(pages, AppRule, start, page);
        if resp.status == 404 {
          return Err(UserNotFound), page;
        }
        return Err(ApiStatus(resp.status)), page;
      }
      if !resp.Page? || |resp.items| == 0 {
        StopsHere(pages, AppRule, start, page);
        assert Fetched(pages, page) == all + [] == all;
        requested := page;
        r := Ok(WindowFilter(all, start, end));
        return;
      }
      all := all + resp.items;
      if LastOlder(resp.items, start) {
        StopsHere(pages, AppRule, start, page);
        requested := page;
        r := Ok(WindowFilter(all, start, end));
        return;
      }
      if page < MaxAppPages {
        Advance(pages, AppRule, start, page);
      } else {
        StopsHere(pages, AppRule, start, page);
      }
      page := page + 1;
    }
    r, requested := Ok(WindowFilter(all, start, end)), MaxAppPages;
  }

  /** At most three pages; a 404 is "User not found", any other failure carries its
      status; what is returned lies between the two dates. */
  lemma AppFetchContract(pages: seq<Response>, start: int, end: int)
    ensures FirstStop(pages, AppRule, start, 1) <= 3
    ensures var last := ResponseAt(pages, FirstStop(pages, AppRule, start, 1));
      last.Failure? ==> AppFetch(pages, start, end) == Err(if last.status == 404 then UserNotFound else ApiStatus(last.status))
    ensures AppFetch(pages, start, end).Ok? ==>
      forall e :: e in AppFetch(pages, start, end).value ==> start <= e.createdAt <= end
  {
  }

  // ---------------------------------------------------------------------------
  // gh-org-summary.mjs

  /** The endpoints tried for one member, in order: the organization's events,
      the public events, then all events only when private events are wanted. */
  function Endpoints(orgPages: seq<Response>, publicPages: seq<Response>, allPages: seq<Response>,
                     includePrivate: bool): (r: seq<seq<Response>>)
    ensures |r| == if includePrivate then 3 else 2
  {
    [orgPages, publicPages] + (if includePrivate then [allPages] else [])
  }

  /** `ghJson(url, true)` of gh-org-summary.mjs turns every failure into an empty page. */
  function Softened(r: Response): Response {
    if r.Failure? then Page([], map[]) else r
  }

  function SoftPages(pages: seq<Response>): (r: seq<Response>)
    ensures |r| == |pages|
  {
    seq(|pages|, i requires 0 <= i < |pages| => Softened(pages[i]))
  }

  lemma SoftPageAt(pages: seq<Response>, k: nat)
    ensures ResponseAt(SoftPages(pages), k) == Softened(ResponseAt(pages, k))
  {
  }

  /** The page an endpoint stopped on lost events to the cutoff: `reachedEnd`. */
  predicate CrossedCutoff(r: Response, since: int) {
    r.Page? && |r.items| > 0 && !AllSince(r.items, since)
  }

  /** The events collected from a chain of endpoints and the pages requested from
      each endpoint tried. */
  datatype Harvest = Harvest(events: seq<RawEvent>, requested: seq<nat>)

  function OrgCollect(endpoints: seq<seq<Response>>, since: int): (h: Harvest)
    ensures |h.requested| <= |endpoints|
    ensures forall j :: 0 <= j < |h.requested| ==> 1 <= h.requested[j] <= MaxOrgPages
    ensures AllSince(h.events, since)
  {
    if endpoints == [] then Harvest([], [])
    else
      var pages := SoftPages(endpoints[0]);
      var n := FirstStop(pages, OrgRule, since, 1);
      var got := SinceFilter(Fetched(pages, n), since);
      if CrossedCutoff(ResponseAt(pages, n), since) then Harvest(got, [n])
      else
        var rest := OrgCollect(endpoints[1..], since);
        Harvest(got + rest.events, [n] + rest.requested)
  }

  function CreatedAt(e: RawEvent): int {
    e.createdAt
  }

  /** `out.sort((a, b) => new Date(b.created_at) - new Date(a.created_at))`. */
  function NewestFirst(s: seq<RawEvent>): seq<RawEvent> {
    SortBy(s, CreatedAt, AtLeast)
  }

  /** The inner `while (!reachedEnd)` loop for one endpoint, entered while the
      cutoff has not been reached: the events it adds, the pages it requests and
      whether it reached the cutoff. */
  method FetchEndpoint(pages: seq<Response>, since: int)
    returns (got: seq<RawEvent>, requested: nat, reachedEnd: bool)
    ensures requested == FirstStop(SoftPages(pages), OrgRule, since, 1)
    ensures got == SinceFilter(Fetched(SoftPages(pages), requested), since)
    ensures reachedEnd == CrossedCutoff(ResponseAt(SoftPages(pages), requested), since)
  {
    ghost var soft := SoftPages(pages);
    var page := 1;
    got := [];
    reachedEnd := false;
    while !reachedEnd
      invariant 1 <= page <= MaxOrgPages && !reachedEnd
      invariant got == SinceFilter(Fetched(soft, page - 1), since)
      invariant FirstStop(soft, OrgRule, since, 1) == FirstStop(soft, OrgRule, since, page)
      decreases MaxOrgPages - page
    {
      var resp := Softened(ResponseAt(pages, page));
      SoftPageAt(pages, page);
      if !resp.Page? || |resp.items| == 0 {
        StopsHere(soft, OrgRule, since, page);
        assert Fetched(soft, page) == Fetched(soft, page - 1) + [] == Fetched(soft, page - 1);
        requested := page;
        return;
      }
      var valid := SinceFilter(resp.items, since);
      FetchedStep(soft, page, since);
      got := got + valid;
      SinceFilterShorter(resp.items, since);
      if |valid| < |resp.items| {
        StopsHere(soft, OrgRule, since, page);
        requested := page;
        reachedEnd := true;
        return;
      }
      if !LinksNext(resp.rels) || page + 1 > MaxOrgPages {
        StopsHere(soft, OrgRule, since, page);
        requested := page;
        return;
      }
      Advance(soft, OrgRule, since, page);
      page := page + 1;
    }
  }

  /** The filter drops something exactly when some event is older than `since`. */
  lemma SinceFilterShorter(s: seq<RawEvent>, since: int)
    ensures |SinceFilter(s, since)| < |s| <==> !AllSince(s, since)
  {
    if AllSince(s, since) {
      SinceFilterKeepsAll(s, since);
    } else {
      SinceFilterDropsSome(s, since);
    }
  }

  /** Filtering what pages 1..n pushed extends the filtered pages 1..n-1 by page n. */
  lemma FetchedStep(pages: seq<Response>, n: nat, since: int)
    requires n >= 1
    ensures SinceFilter(Fetched(pages, n), since)
      == SinceFilter(Fetched(pages, n - 1), since) + SinceFilter(ItemsOf(ResponseAt(pages, n)), since)
  {
    SinceFilterAppend(Fetched(pages, n - 1), ItemsOf(ResponseAt(pages, n)), since);
  }

  /** `fetchUserEvents` of gh-org-summary.mjs: the endpoints are tried in turn until
      one reaches the cutoff, and the collected events are sorted newest first. */
  method FetchOrgUserEvents(endpoints: seq<seq<Response>>, since: int)
    returns (events: seq<RawEvent>, requested: seq<nat>)
    ensures requested == OrgCollect(endpoints, since).requested
    ensures events == NewestFirst(OrgCollect(endpoints, since).events)
  {
    var out := [];
    requested := [];
    var reachedEnd := false;
    var j := 0;
    while j < |endpoints|
      invariant 0 <= j <= |endpoints|
      invariant !reachedEnd ==> OrgCollect(endpoints, since) == Then(Harvest(out, requested), OrgCollect(endpoints[j..], since))
      invariant reachedEnd ==> OrgCollect(endpoints, since) == Harvest(out, requested)
    {
      if !reachedEnd {
        var got, n, crossed := FetchEndpoint(endpoints[j], since);
        OrgCollectStep(endpoints, j, since, got, n, crossed);
        ThenAssoc(Harvest(out, requested), Harvest(got, [n]), OrgCollect(endpoints[j + 1..], since));
        out := out + got;
        requested := requested + [n];
        reachedEnd := crossed;
      }
      j := j + 1;
    }
    if !reachedEnd {
      assert endpoints[j..] == [];
      assert out + [] == out && requested + [] == requested;
    }
    events := NewestFirst(out);
  }

  /** What one endpoint yields followed by what the later ones yield. */
  function Then(a: Harvest, b: Harvest): Harvest {
    Harvest(a.events + b.events, a.requested + b.requested)
  }

  lemma ThenAssoc(a: Harvest, b: Harvest, c: Harvest)
    ensures Then(Then(a, b), c) == Then(a, Then(b, c))
  {
    assert (a.events + b.events) + c.events == a.events + (b.events + c.events);
    assert (a.requested + b.requested) + c.requested == a.requested + (b.requested + c.requested);
  }

  /** The chain from endpoint `j` on, given what the loop for endpoint `j` returned. */
  lemma OrgCollectStep(endpoints: seq<seq<Response>>, j: nat, since: int,
                       got: seq<RawEvent>, n: nat, crossed: bool)
    requires j < |endpoints|
    requires n == FirstStop(SoftPages(endpoints[j]), OrgRule, since, 1)
    requires got == SinceFilter(Fetched(SoftPages(endpoints[j]), n), since)
    requires crossed == CrossedCutoff(ResponseAt(SoftPages(endpoints[j]), n), since)
    ensures crossed ==> OrgCollect(endpoints[j..], since) == Harvest(got, [n])
    ensures !crossed ==> OrgCollect(endpoints[j..], since) == Then(Harvest(got, [n]), OrgCollect(endpoints[j + 1..], since))
  {
    assert endpoints[j..][0] == endpoints[j] && endpoints[j..][1..] == endpoints[j + 1..];
  }

  /** The events of a fetch are those of the pages requested that are not older than
      `since`, newest first; each endpoint gets at most 30 pages, and no endpoint after
      the one that reached the cutoff is asked. */
  lemma OrgFetchContract(endpoints: seq<seq<Response>>, since: int)
    ensures var h := OrgCollect(endpoints, since);
      |h.requested| <= |endpoints| && (forall j :: 0 <= j < |h.requested| ==> h.requested[j] <= 30)
      && SortedBy(NewestFirst(h.events), CreatedAt, AtLeast)
      && multiset(NewestFirst(h.events)) == multiset(h.events)
      && AllSince(NewestFirst(h.events), since)
  {
    var h := OrgCollect(endpoints, since);
    IntOrdersArePreorders();
    SortBySorted(h.events, CreatedAt, AtLeast);
    var r := NewestFirst(h.events);
    forall i | 0 <= i < |r| ensures r[i].createdAt >= since {
      assert r[i] in multiset(h.events);
    }
  }

  /** An endpoint stops early only when it reaches the cutoff. */
  lemma {:induction false} OrgStopsOnlyAtCutoff(endpoints: seq<seq<Response>>, since: int)
    ensures var h := OrgCollect(endpoints, since);
      |h.requested| < |endpoints| ==>
        h.requested != [] &&
        var last := |h.requested| - 1;
        CrossedCutoff(ResponseAt(SoftPages(endpoints[last]), h.requested[last]), since)
  {
    if endpoints != [] {
      var pages := SoftPages(endpoints[0]);
      var n := FirstStop(pages, OrgRule, since, 1);
      if !CrossedCutoff(ResponseAt(pages, n), since) {
        OrgStopsOnlyAtCutoff(endpoints[1..], since);
      }
    }
  }
}

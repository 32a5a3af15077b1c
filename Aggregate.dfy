/** `processEvents` of generate-data.mjs: one pass over the fetched events that
    buckets them by day, counts them per type and per repository (folding private
    repositories into one bucket when only aggregates may be shown), records a
    detail entry per shown event, and ranks repositories and types. */
module Aggregate {
  import opened Wrappers
  import opened Strings
  import opened Sorting
  import opened Tally
  import opened Events
  import opened Classify

  const PrivateRepos: string := "private-repos"
  const NoMessage: string := "(no message)"
  const ShaLength: nat := 7
  const MaxTopRepos: nat := 10

  /** One line of a push: its first message line and its short hash. */
  datatype CommitLine = CommitLine(message: string, sha: Option<string>)

  /** `eventDetail`: the fields present on one shown event. */
  datatype Detail = Detail(
    kind: string,
    repo: string,
    timestamp: int,
    commits: Option<seq<CommitLine>>,
    title: Option<string>,
    number: Option<int>,
    url: Option<string>)

  /** One entry of `byDay`; `date` is the day key the time zone formatter gives. */
  datatype Day = Day(date: int, total: nat, byType: Tally, byRepo: Tally, events: seq<Detail>)

  datatype Summary = Summary(
    totalEvents: nat,
    totalDaysWithActivity: nat,
    topRepositories: Tally,
    activityByType: Tally)

  datatype Activity = Activity(summary: Summary, dailyActivity: seq<Day>)

  /** The inputs besides the events: the time zone's day formatter, the
      `include_types` allowlist (`None` when absent or not an array) and the
      `aggregate_only` privacy flag. */
  datatype Config = Config(dayOf: int -> int, allowlist: Option<seq<string>>, aggregateOnly: bool)

  /** An event passes the allowlist unless the list is non-empty and lacks its type. */
  predicate Included(allowlist: Option<seq<string>>, kind: string) {
    allowlist.None? || |allowlist.value| == 0 || kind in allowlist.value
  }

  predicate Kept(e: RawEvent, cfg: Config) {
    Included(cfg.allowlist, ClassifyEvent(e))
  }

  /** The event is shown only as part of the private-repository total. */
  predicate Redacted(e: RawEvent, aggregateOnly: bool) {
    aggregateOnly && IsPrivate(e)
  }

  /** The repository counter an event goes to. */
  function Bucket(e: RawEvent, aggregateOnly: bool): string {
    if Redacted(e, aggregateOnly) then PrivateRepos else RepoName(e)
  }

  /** `c.message?.split('\n')[0] || '(no message)'`. */
  function MessageLine(message: Option<string>): string {
    if message.None? then NoMessage
    else
      var line := FirstLine(message.value);
      if line == "" then NoMessage else line
  }

  /** The line shown for a commit is never empty and holds no line feed: it is the
      first line of the message, or "(no message)" when there is none. */
  lemma MessageLineIsFirstLine(message: Option<string>)
    ensures var r := MessageLine(message);
      r != "" && '\n' !in r
      && (r == NoMessage || (message.Some? && StartsWith(message.value, r) && r == Split(message.value, "\n")[0]))
      && (message.Some? && message.value != "" && message.value[0] != '\n' ==> StartsWith(message.value, r))
  {
    if message.Some? {
      FirstLineIsFirstSplit(message.value);
    }
  }

  /** `c.sha?.substring(0, 7)`. */
  function ShortSha(sha: Option<string>): (r: Option<string>)
    ensures r.Some? <==> sha.Some?
    ensures r.Some? ==> StartsWith(sha.value, r.value) && |r.value| == if |sha.value| < ShaLength then |sha.value| else ShaLength
  {
    match sha
    case None => None
    case Some(s) => Some(if |s| < ShaLength then s else s[..ShaLength])
  }

  function CommitLines(commits: seq<Commit>): (r: seq<CommitLine>)
    ensures |r| == |commits|
    ensures forall i :: 0 <= i < |r| ==> r[i] == CommitLine(MessageLine(commits[i].message), ShortSha(commits[i].sha))
  {
    seq(|commits|, i requires 0 <= i < |commits| => CommitLine(MessageLine(commits[i].message), ShortSha(commits[i].sha)))
  }

  /** The fields an issue, pull request or discussion sub-object writes into a detail. */
  function WithItem(d: Detail, item: Option<Item>, withNumber: bool): Detail {
    match item
    case None => d
    case Some(it) =>
      if withNumber then d.(title := it.title, number := it.number, url := it.htmlUrl)
      else d.(title := it.title, url := it.htmlUrl)
  }

  /** `eventDetail` for a shown event: a push lists its commits; anything else
      takes its title, number and URL from the issue, the pull request and the
      discussion, each written over the one before. */
  function DetailOf(e: RawEvent, kind: string): (d: Detail)
    ensures d.kind == kind && d.repo == RepoName(e) && d.timestamp == e.createdAt
    ensures kind == "commit" && e.payload.commits.Some? ==>
      d.commits == Some(CommitLines(e.payload.commits.value)) && d.title.None? && d.number.None? && d.url.None?
    ensures !(kind == "commit" && e.payload.commits.Some?) ==>
      var p := e.payload;
      d.commits.None?
      && d.title == (if p.discussion.Some? then p.discussion.value.title
                     else if p.pullRequest.Some? then p.pullRequest.value.title
                     else if p.issue.Some? then p.issue.value.title else None)
      && d.url == (if p.discussion.Some? then p.discussion.value.htmlUrl
                   else if p.pullRequest.Some? then p.pullRequest.value.htmlUrl
                   else if p.issue.Some? then p.issue.value.htmlUrl else None)
      && d.number == (if p.pullRequest.Some? then p.pullRequest.value.number
                      else if p.issue.Some? then p.issue.value.number else None)
  {
    var base := Detail(kind, RepoName(e), e.createdAt, None, None, None, None);
    if kind == "commit" && e.payload.commits.Some? then
      base.(commits := Some(CommitLines(e.payload.commits.value)))
    else
      var withIssue := WithItem(base, e.payload.issue, true);
      var withPull := WithItem(withIssue, e.payload.pullRequest, true);
      WithItem(withPull, e.payload.discussion, false)
  }

  /** The first day with the given key: `byDay.get(date)`. */
  function DayIndex(days: seq<Day>, date: int): (r: Option<nat>)
    ensures r.Some? ==> r.value < |days| && days[r.value].date == date
    ensures r.None? <==> forall i :: 0 <= i < |days| ==> days[i].date != date
  {
    if days == [] then None
    else if days[0].date == date then Some(0)
    else match DayIndex(days[1..], date)
      case None => None
      case Some(i) => Some(i + 1)
  }

  function EmptyDay(date: int): Day {
    Day(date, 0, [], [], [])
  }

  /** The day an event is about to be added to: its bucket if present, else a new one. */
  function DayBefore(days: seq<Day>, date: int): Day {
    match DayIndex(days, date)
    case None => EmptyDay(date)
    case Some(i) => days[i]
  }

  /** `byDay` once the event's day has a bucket: a new, empty one goes last. */
  function Open(days: seq<Day>, date: int): (r: seq<Day>)
    ensures DayIndex(r, date).Some?
  {
    if DayIndex(days, date).None? then
      var r := days + [EmptyDay(date)];
      assert r[|days|].date == date;
      r
    else days
  }

  /** One event added to a day bucket. */
  function AddToDay(d: Day, e: RawEvent, kind: string, aggregateOnly: bool): Day {
    Day(d.date, d.total + 1, Inc(d.byType, kind), Inc(d.byRepo, Bucket(e, aggregateOnly)),
        if Redacted(e, aggregateOnly) then d.events else d.events + [DetailOf(e, kind)])
  }

  /** `byDay` after one kept event: its day's bucket, ready if missing, counts it. */
  function Touch(days: seq<Day>, e: RawEvent, cfg: Config): seq<Day> {
    var date := cfg.dayOf(e.createdAt);
    var ready := Open(days, date);
    var i := DayIndex(ready, date).value;
    ready[i := AddToDay(ready[i], e, ClassifyEvent(e), cfg.aggregateOnly)]
  }

  /** `byDay` after the loop has seen `events`. */
  function DayBuckets(events: seq<RawEvent>, cfg: Config): seq<Day>
    decreases |events|
  {
    if events == [] then []
    else
      var last := events[|events| - 1];
      var days := DayBuckets(events[..|events| - 1], cfg);
      if Kept(last, cfg) then Touch(days, last, cfg) else days
  }

  /** `typeStats` after the loop has seen `events`. */
  function TypeCounts(events: seq<RawEvent>, cfg: Config): Tally
    decreases |events|
  {
    if events == [] then []
    else
      var last := events[|events| - 1];
      var t := TypeCounts(events[..|events| - 1], cfg);
      if Kept(last, cfg) then Inc(t, ClassifyEvent(last)) else t
  }

  /** `repoStats` after the loop has seen `events`. */
  function RepoCounts(events: seq<RawEvent>, cfg: Config): Tally
    decreases |events|
  {
    if events == [] then []
    else
      var last := events[|events| - 1];
      var t := RepoCounts(events[..|events| - 1], cfg);
      if Kept(last, cfg) then Inc(t, Bucket(last, cfg.aggregateOnly)) else t
  }

  function DateOf(d: Day): int {
    d.date
  }

  /** What `processEvents` returns, apart from the clock-dependent fields. */
  function Report(events: seq<RawEvent>, cfg: Config): Activity {
    var days := DayBuckets(events, cfg);
    Activity(
      Summary(|events|, |days|, Top(RepoCounts(events, cfg), MaxTopRepos), Rank(TypeCounts(events, cfg))),
      SortBy(days, DateOf, AtMost))
  }

  method ProcessEvents(events: seq<RawEvent>, cfg: Config) returns (a: Activity)
    ensures a == Report(events, cfg)
  {
    var byDay: seq<Day> := [];
    var repoStats: Tally := [];
    var typeStats: Tally := [];
    for n := 0 to |events|
      invariant byDay == DayBuckets(events[..n], cfg)
      invariant repoStats == RepoCounts(events[..n], cfg)
      invariant typeStats == TypeCounts(events[..n], cfg)
    {
      var e := events[n];
      assert events[..n + 1][..n] == events[..n];
      var kind := ClassifyEvent(e);
      if !Included(cfg.allowlist, kind) {
        continue;
      }
      var date := cfg.dayOf(e.createdAt);
      ghost var known := byDay;
      if DayIndex(byDay, date).None? {
        byDay := byDay + [EmptyDay(date)];
      }
      assert byDay == Open(known, date);
      var i := DayIndex(byDay, date).value;
      var day, bucket := CountEvent(byDay[i], e, kind, cfg.aggregateOnly);
      typeStats := Inc(typeStats, kind);
      repoStats := Inc(repoStats, bucket);
      assert byDay[i := day] == Touch(known, e, cfg);
      byDay := byDay[i := day];
    }
    assert events[..|events|] == events;
    var summary := Summary(|events|, |byDay|, Top(repoStats, MaxTopRepos), Rank(typeStats));
    a := Activity(summary, SortBy(byDay, DateOf, AtMost));
  }

  /** The body of the loop for one kept event: the day's total and type count go
      up by one, then either the private-repository count, or the repository's
      count and the day's detail list. */
  method CountEvent(d: Day, e: RawEvent, kind: string, aggregateOnly: bool) returns (day: Day, bucket: string)
    ensures day == AddToDay(d, e, kind, aggregateOnly)
    ensures bucket == Bucket(e, aggregateOnly)
  {
    day := d.(total := d.total + 1, byType := Inc(d.byType, kind));
    if aggregateOnly && IsPrivate(e) {
      bucket := PrivateRepos;
      day := day.(byRepo := Inc(day.byRepo, bucket));
    } else {
      bucket := RepoName(e);
      day := day.(byRepo := Inc(day.byRepo, bucket));
      day := day.(events := day.events + [DetailOf(e, kind)]);
    }
  }

  // ---------------------------------------------------------------------------
  // What the loop keeps true

  /** Sum of the day totals. */
  function Totals(days: seq<Day>): nat
    decreases |days|
  {
    if days == [] then 0 else Totals(days[..|days| - 1]) + days[|days| - 1].total
  }

  predicate DatesDistinct(days: seq<Day>) {
    forall i, j :: 0 <= i < j < |days| ==> days[i].date != days[j].date
  }

  /** A day's total is the sum of its per-type counts and of its per-repository counts. */
  predicate DayValid(d: Day) {
    Distinct(d.byType) && Distinct(d.byRepo) && d.total == Sum(d.byType) && d.total == Sum(d.byRepo)
  }

  predicate AllDaysValid(days: seq<Day>) {
    forall i :: 0 <= i < |days| ==> DayValid(days[i])
  }

  predicate DaysValid(days: seq<Day>) {
    DatesDistinct(days) && AllDaysValid(days)
  }

  lemma {:induction false} TotalsUpdate(days: seq<Day>, i: nat, d: Day)
    requires i < |days|
    ensures Totals(days[i := d]) + days[i].total == Totals(days) + d.total
    decreases |days|
  {
    var last := |days| - 1;
    var days' := days[i := d];
    assert days'[..last] == if i == last then days[..last] else days[..last][i := d];
    if i < last {
      TotalsUpdate(days[..last], i, d);
    }
  }

  lemma TotalsAppend(days: seq<Day>, d: Day)
    ensures Totals(days + [d]) == Totals(days) + d.total
  {
    assert (days + [d])[..|days|] == days;
  }

  lemma AddToDayValid(d: Day, e: RawEvent, kind: string, aggregateOnly: bool)
    requires DayValid(d)
    ensures DayValid(AddToDay(d, e, kind, aggregateOnly))
  {
    AddSum(d.byType, kind, 1);
    AddDistinct(d.byType, kind, 1);
    AddSum(d.byRepo, Bucket(e, aggregateOnly), 1);
    AddDistinct(d.byRepo, Bucket(e, aggregateOnly), 1);
  }

  /** Opening a missing bucket appends an empty day with that key. */
  lemma OpenAppends(days: seq<Day>, date: int)
    requires DayIndex(days, date).None?
    ensures Open(days, date) == days + [EmptyDay(date)]
    ensures DayIndex(Open(days, date), date) == Some(|days|)
  {
    var days' := days + [EmptyDay(date)];
    forall j | 0 <= j < |days| ensures days'[j].date != date {
      assert days'[j] == days[j];
    }
  }

  /** Opening the event's bucket keeps the day list valid and adds nothing to the totals. */
  lemma OpenValid(days: seq<Day>, date: int)
    requires DaysValid(days)
    ensures DaysValid(Open(days, date)) && Totals(Open(days, date)) == Totals(days)
  {
    if DayIndex(days, date).None? {
      OpenAppends(days, date);
      TotalsAppend(days, EmptyDay(date));
      AppendValid(days, EmptyDay(date));
    }
  }

  /** A valid day with a new key can go last. */
  lemma AppendValid(days: seq<Day>, d: Day)
    requires DaysValid(days) && DayValid(d)
    requires forall i :: 0 <= i < |days| ==> days[i].date != d.date
    ensures DaysValid(days + [d])
  {
    var days' := days + [d];
    forall a, b | 0 <= a < b < |days'| ensures days'[a].date != days'[b].date {
      assert days'[a] == days[a];
      if b < |days| {
        assert days'[b] == days[b];
      }
    }
    forall j | 0 <= j < |days'| ensures DayValid(days'[j]) {
      if j < |days| {
        assert days'[j] == days[j];
      }
    }
  }

  /** Replacing a day by a valid one with the same key keeps the day list valid. */
  lemma UpdateValid(days: seq<Day>, i: nat, d: Day)
    requires i < |days| && d.date == days[i].date && DayValid(d)
    requires DaysValid(days)
    ensures DaysValid(days[i := d])
  {
    var days' := days[i := d];
    forall a, b | 0 <= a < b < |days'| ensures days'[a].date != days'[b].date {
      assert days'[a].date == days[a].date && days'[b].date == days[b].date;
    }
  }

  lemma TouchValid(days: seq<Day>, e: RawEvent, cfg: Config)
    requires DaysValid(days)
    ensures DaysValid(Touch(days, e, cfg)) && Totals(Touch(days, e, cfg)) == Totals(days) + 1
  {
    var date := cfg.dayOf(e.createdAt);
    OpenValid(days, date);
    var ready := Open(days, date);
    var i := DayIndex(ready, date).value;
    var d' := AddToDay(ready[i], e, ClassifyEvent(e), cfg.aggregateOnly);
    AddToDayValid(ready[i], e, ClassifyEvent(e), cfg.aggregateOnly);
    TotalsUpdate(ready, i, d');
    UpdateValid(ready, i, d');
  }

  /** The events that pass the allowlist, in order. */
  function KeptEvents(events: seq<RawEvent>, cfg: Config): (r: seq<RawEvent>)
    ensures |r| <= |events|
    ensures forall e :: e in r ==> e in events && Kept(e, cfg)
    decreases |events|
  {
    if events == [] then []
    else
      var last := events[|events| - 1];
      KeptEvents(events[..|events| - 1], cfg) + (if Kept(last, cfg) then [last] else [])
  }

  /** Every day bucket is valid and the day totals add up to the number of kept events. */
  lemma {:induction false} DayBucketsValid(events: seq<RawEvent>, cfg: Config)
    ensures DaysValid(DayBuckets(events, cfg))
    ensures Totals(DayBuckets(events, cfg)) == |KeptEvents(events, cfg)|
    decreases |events|
  {
    if events != [] {
      var init := events[..|events| - 1];
      DayBucketsValid(init, cfg);
      if Kept(events[|events| - 1], cfg) {
        TouchValid(DayBuckets(init, cfg), events[|events| - 1], cfg);
      }
    }
  }

  /** The counters have one entry per key, every count positive, adding up to the
      number of kept events. */
  lemma {:induction false} CountsWellFormed(events: seq<RawEvent>, cfg: Config)
    ensures Distinct(TypeCounts(events, cfg)) && Distinct(RepoCounts(events, cfg))
    ensures forall i :: 0 <= i < |TypeCounts(events, cfg)| ==> TypeCounts(events, cfg)[i].count > 0
    ensures Sum(TypeCounts(events, cfg)) == |KeptEvents(events, cfg)|
    ensures Sum(RepoCounts(events, cfg)) == |KeptEvents(events, cfg)|
    decreases |events|
  {
    if events != [] {
      var init := events[..|events| - 1];
      var last := events[|events| - 1];
      CountsWellFormed(init, cfg);
      if Kept(last, cfg) {
        var types := TypeCounts(init, cfg);
        var repos := RepoCounts(init, cfg);
        AddDistinct(types, ClassifyEvent(last), 1);
        AddPositive(types, ClassifyEvent(last), 1);
        AddSum(types, ClassifyEvent(last), 1);
        AddDistinct(repos, Bucket(last, cfg.aggregateOnly), 1);
        AddSum(repos, Bucket(last, cfg.aggregateOnly), 1);
      }
    }
  }

  // ---------------------------------------------------------------------------
  // Properties of the result

  /** Where a kept event lands: the index of its day in the new list, holding the
      old bucket (or a fresh one) with the event added; every other day is kept. */
  lemma TouchAt(days: seq<Day>, e: RawEvent, cfg: Config) returns (i: nat)
    ensures var date := cfg.dayOf(e.createdAt);
      var days' := Touch(days, e, cfg);
      && DayIndex(days', date) == Some(i)
      && days'[i] == AddToDay(DayBefore(days, date), e, ClassifyEvent(e), cfg.aggregateOnly)
      && |days'| == |days| + (if DayIndex(days, date).None? then 1 else 0)
      && (forall j :: 0 <= j < |days| && j != i ==> days'[j] == days[j])
  {
    var date := cfg.dayOf(e.createdAt);
    var ready := Open(days, date);
    i := DayIndex(ready, date).value;
    if DayIndex(days, date).None? {
      OpenAppends(days, date);
    }
    assert ready[i] == DayBefore(days, date);
    IndexAfterUpdate(ready, i, AddToDay(ready[i], e, ClassifyEvent(e), cfg.aggregateOnly));
  }

  /** One kept event adds one to the total of its day (a new bucket when the day is
      new) and leaves every other day as it was; it adds one to its type's count and
      one to its repository's count, the repository being "private-repos" exactly
      when only aggregates may be shown and the repository is private; and only an
      event not so redacted appends a detail entry. */
  lemma TouchEffect(days: seq<Day>, e: RawEvent, cfg: Config)
    ensures var date := cfg.dayOf(e.createdAt);
      var days' := Touch(days, e, cfg);
      var before := DayBefore(days, date);
      var kind := ClassifyEvent(e);
      var redacted := cfg.aggregateOnly && Contains(e.repoName, "/") && e.isPublic == Some(false);
      var bucket := if redacted then PrivateRepos else RepoName(e);
      && |days'| == |days| + (if DayIndex(days, date).None? then 1 else 0)
      && (forall j :: 0 <= j < |days| && days[j].date != date ==> days'[j] == days[j])
      && DayIndex(days', date).Some?
      && var after := days'[DayIndex(days', date).value];
      && after.date == date
      && after.total == before.total + 1
      && (forall k :: Get(after.byType, k) == Get(before.byType, k) + (if k == kind then 1 else 0))
      && (forall k :: Get(after.byRepo, k) == Get(before.byRepo, k) + (if k == bucket then 1 else 0))
      && after.events == before.events + (if redacted then [] else [DetailOf(e, kind)])
  {
    var date := cfg.dayOf(e.createdAt);
    var i := TouchAt(days, e, cfg);
    var before := DayBefore(days, date);
    var kind := ClassifyEvent(e);
    var bucket := Bucket(e, cfg.aggregateOnly);
    forall k ensures Get(Inc(before.byType, kind), k) == Get(before.byType, k) + (if k == kind then 1 else 0) {
      AddGet(before.byType, kind, 1, k);
    }
    forall k ensures Get(Inc(before.byRepo, bucket), k) == Get(before.byRepo, k) + (if k == bucket then 1 else 0) {
      AddGet(before.byRepo, bucket, 1, k);
    }
    assert before.date == date by {
      if DayIndex(days, date).Some? { }
    }
    forall j | 0 <= j < |days| && days[j].date != date ensures j != i {
      if DayIndex(days, date).Some? {
        assert days[DayIndex(days, date).value].date == date;
      }
    }
  }

  /** Updating a day with one of the same key keeps its index. */
  lemma {:induction false} IndexAfterUpdate(days: seq<Day>, i: nat, d: Day)
    requires i < |days| && DayIndex(days, days[i].date) == Some(i) && d.date == days[i].date
    ensures DayIndex(days[i := d], d.date) == Some(i)
  {
    var days' := days[i := d];
    if i > 0 {
      assert days'[1..] == days[1..][i - 1 := d];
      IndexAfterUpdate(days[1..], i - 1, d);
    }
  }

  /** Every reported day's total equals the sum of its per-type counts and the sum
      of its per-repository counts. */
  lemma DailyTotalsAgree(events: seq<RawEvent>, cfg: Config)
    ensures forall d :: d in Report(events, cfg).dailyActivity ==>
      d.total == Sum(d.byType) && d.total == Sum(d.byRepo)
  {
    var days := DayBuckets(events, cfg);
    DayBucketsValid(events, cfg);
    forall d | d in Report(events, cfg).dailyActivity
      ensures d.total == Sum(d.byType) && d.total == Sum(d.byRepo)
    {
      assert d in multiset(SortBy(days, DateOf, AtMost));
      assert d in multiset(days);
      var i :| 0 <= i < |days| && days[i] == d;
      assert DayValid(days[i]);
    }
  }

  /** The daily activity is in ascending day order and holds every bucket once. */
  lemma DailyActivityOrdered(events: seq<RawEvent>, cfg: Config)
    ensures SortedBy(Report(events, cfg).dailyActivity, DateOf, AtMost)
    ensures multiset(Report(events, cfg).dailyActivity) == multiset(DayBuckets(events, cfg))
  {
    IntOrdersArePreorders();
    SortBySorted(DayBuckets(events, cfg), DateOf, AtMost);
  }

  /** An event the allowlist filters out changes nothing but `totalEvents`. */
  lemma FilteredIsNoOp(events: seq<RawEvent>, e: RawEvent, cfg: Config)
    requires !Kept(e, cfg)
    ensures var before := Report(events, cfg);
      var after := Report(events + [e], cfg);
      && after.dailyActivity == before.dailyActivity
      && after.summary == before.summary.(totalEvents := |events| + 1)
  {
    assert (events + [e])[..|events|] == events;
  }

  /** The type of each event, in order. */
  function KindsOf(events: seq<RawEvent>): seq<string>
    decreases |events|
  {
    if events == [] then [] else KindsOf(events[..|events| - 1]) + [ClassifyEvent(events[|events| - 1])]
  }

  /** The repository bucket of each event, in order. */
  function BucketsOf(events: seq<RawEvent>, aggregateOnly: bool): seq<string>
    decreases |events|
  {
    if events == [] then []
    else BucketsOf(events[..|events| - 1], aggregateOnly) + [Bucket(events[|events| - 1], aggregateOnly)]
  }

  /** `typeStats` counts every kept event under its type and `repoStats` under its
      repository, or under "private-repos" when it is redacted. */
  lemma StatsCount(events: seq<RawEvent>, cfg: Config, k: string)
    ensures Get(TypeCounts(events, cfg), k) == multiset(KindsOf(KeptEvents(events, cfg)))[k]
    ensures Get(RepoCounts(events, cfg), k) == multiset(BucketsOf(KeptEvents(events, cfg), cfg.aggregateOnly))[k]
  {
    TypeStatsCount(events, cfg, k);
    RepoStatsCount(events, cfg, k);
  }

  lemma {:induction false} TypeStatsCount(events: seq<RawEvent>, cfg: Config, k: string)
    ensures Get(TypeCounts(events, cfg), k) == multiset(KindsOf(KeptEvents(events, cfg)))[k]
    decreases |events|
  {
    if events != [] {
      var init := events[..|events| - 1];
      var last := events[|events| - 1];
      TypeStatsCount(init, cfg, k);
      var kept := KeptEvents(init, cfg);
      if Kept(last, cfg) {
        AddGet(TypeCounts(init, cfg), ClassifyEvent(last), 1, k);
        assert KeptEvents(events, cfg) == kept + [last];
        assert (kept + [last])[..|kept|] == kept;
        assert KindsOf(kept + [last]) == KindsOf(kept) + [ClassifyEvent(last)];
      } else {
        assert KeptEvents(events, cfg) == kept + [] == kept;
      }
    }
  }

  lemma {:induction false} RepoStatsCount(events: seq<RawEvent>, cfg: Config, k: string)
    ensures Get(RepoCounts(events, cfg), k) == multiset(BucketsOf(KeptEvents(events, cfg), cfg.aggregateOnly))[k]
    decreases |events|
  {
    if events != [] {
      var init := events[..|events| - 1];
      var last := events[|events| - 1];
      RepoStatsCount(init, cfg, k);
      var kept := KeptEvents(init, cfg);
      if Kept(last, cfg) {
        AddGet(RepoCounts(init, cfg), Bucket(last, cfg.aggregateOnly), 1, k);
        assert KeptEvents(events, cfg) == kept + [last];
        assert (kept + [last])[..|kept|] == kept;
        assert BucketsOf(kept + [last], cfg.aggregateOnly) == BucketsOf(kept, cfg.aggregateOnly) + [Bucket(last, cfg.aggregateOnly)];
      } else {
        assert KeptEvents(events, cfg) == kept + [] == kept;
      }
    }
  }

  /** The day keys of the kept events. */
  function DaysOf(events: seq<RawEvent>, cfg: Config): set<int> {
    Image(events, e => Kept(e, cfg), (e: RawEvent) => cfg.dayOf(e.createdAt))
  }

  /** The values `f` takes on the elements of `s` that satisfy `keep`. */
  function Image<T>(s: seq<T>, keep: T -> bool, f: T -> int): set<int> {
    set i | 0 <= i < |s| && keep(s[i]) :: f(s[i])
  }

  lemma ImageSnoc<T>(s: seq<T>, keep: T -> bool, f: T -> int)
    requires s != []
    ensures var n := |s| - 1;
      Image(s, keep, f) == Image(s[..n], keep, f) + (if keep(s[n]) then {f(s[n])} else {})
  {
    var n := |s| - 1;
    var init := s[..n];
    var extra := if keep(s[n]) then {f(s[n])} else {};
    forall x | x in Image(s, keep, f) ensures x in Image(init, keep, f) + extra {
      var i :| 0 <= i < |s| && keep(s[i]) && f(s[i]) == x;
      if i < n {
        assert init[i] == s[i];
      }
    }
    forall x | x in Image(init, keep, f) + extra ensures x in Image(s, keep, f) {
      if x in Image(init, keep, f) {
        var i :| 0 <= i < |init| && keep(init[i]) && f(init[i]) == x;
        assert init[i] == s[i];
      }
    }
  }

  function Dates(days: seq<Day>): set<int> {
    set i | 0 <= i < |days| :: days[i].date
  }

  lemma TouchDates(days: seq<Day>, e: RawEvent, cfg: Config)
    ensures Dates(Touch(days, e, cfg)) == Dates(days) + {cfg.dayOf(e.createdAt)}
  {
    var date := cfg.dayOf(e.createdAt);
    var ready := Open(days, date);
    var i := DayIndex(ready, date).value;
    var days' := Touch(days, e, cfg);
    forall x | x in Dates(days') ensures x in Dates(days) + {date} {
      var j :| 0 <= j < |days'| && days'[j].date == x;
      if j != i && DayIndex(days, date).None? {
        OpenAppends(days, date);
      }
      if j != i {
        assert ready[j].date == x;
      }
    }
    forall x | x in Dates(days) + {date} ensures x in Dates(days') {
      if x == date {
        assert days'[i].date == x;
      } else {
        var j :| 0 <= j < |days| && days[j].date == x;
        if DayIndex(days, date).None? {
          OpenAppends(days, date);
        }
        assert days'[j].date == x;
      }
    }
  }

  lemma {:induction false} DayBucketsDates(events: seq<RawEvent>, cfg: Config)
    ensures Dates(DayBuckets(events, cfg)) == DaysOf(events, cfg)
    decreases |events|
  {
    if events != [] {
      var n := |events| - 1;
      var init := events[..n];
      DayBucketsDates(init, cfg);
      if Kept(events[n], cfg) {
        TouchDates(DayBuckets(init, cfg), events[n], cfg);
      }
      DaysOfSnoc(events, cfg);
    }
  }

  lemma DaysOfSnoc(events: seq<RawEvent>, cfg: Config)
    requires events != []
    ensures var n := |events| - 1;
      DaysOf(events, cfg) == DaysOf(events[..n], cfg) + (if Kept(events[n], cfg) then {cfg.dayOf(events[n].createdAt)} else {})
  {
    ImageSnoc(events, e => Kept(e, cfg), (e: RawEvent) => cfg.dayOf(e.createdAt));
  }

  lemma {:induction false} DistinctDatesCount(days: seq<Day>)
    requires DatesDistinct(days)
    ensures |Dates(days)| == |days|
    decreases |days|
  {
    if days != [] {
      var init := days[..|days| - 1];
      var last := days[|days| - 1];
      DistinctDatesCount(init);
      assert Dates(days) == Dates(init) + {last.date} by {
        forall x | x in Dates(days) ensures x in Dates(init) + {last.date} {
          var j :| 0 <= j < |days| && days[j].date == x;
          if j < |init| { assert init[j].date == x; }
        }
      }
      assert last.date !in Dates(init);
    }
  }

  /** `totalEvents` counts every fetched event, filtered or not, and
      `totalDaysWithActivity` is the number of distinct day keys among the kept events. */
  lemma SummaryTotals(events: seq<RawEvent>, cfg: Config)
    ensures Report(events, cfg).summary.totalEvents == |events|
    ensures Report(events, cfg).summary.totalDaysWithActivity == |DaysOf(events, cfg)|
  {
    DayBucketsValid(events, cfg);
    DayBucketsDates(events, cfg);
    DistinctDatesCount(DayBuckets(events, cfg));
  }

  /** At most ten repositories, in non-increasing count order, none left out
      with a larger count than one shown; every counted type is listed exactly once,
      in non-increasing count order. */
  lemma Rankings(events: seq<RawEvent>, cfg: Config)
    ensures var s := Report(events, cfg).summary;
      |s.topRepositories| <= MaxTopRepos
      && (forall i, j :: 0 <= i < j < |s.topRepositories| ==> s.topRepositories[i].count >= s.topRepositories[j].count)
      && (forall x, y :: x in s.topRepositories && y in RepoCounts(events, cfg) && y !in s.topRepositories ==> x.count >= y.count)
      && Distinct(s.activityByType)
      && (forall k :: HasKey(s.activityByType, k) <==> k in KindsOf(KeptEvents(events, cfg)))
      && (forall i, j :: 0 <= i < j < |s.activityByType| ==> s.activityByType[i].count >= s.activityByType[j].count)
  {
    var types := TypeCounts(events, cfg);
    CountsWellFormed(events, cfg);
    TopSelectsLargest(RepoCounts(events, cfg), MaxTopRepos);
    RankListsEachKeyOnce(types);
    forall k ensures HasKey(types, k) <==> k in KindsOf(KeptEvents(events, cfg)) {
      StatsCount(events, cfg, k);
      GetPositive(types, k);
    }
  }
}

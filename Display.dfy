/** The browser page of app.js: `processEventsForDisplay`, which counts the
    fetched events per repository and per type with neither an allowlist nor
    redaction, and the per-day highlights of `displayDailyTimeline`. */
module Display {
  import opened Wrappers
  import opened Sorting
  import opened Tally
  import opened Events
  import opened Classify
  import opened Aggregate

  const MaxTimelineTypes: nat := 3
  const MaxTimelineRepos: nat := 2

  /** The `summary` object the page renders, apart from `averagePerDay`. */
  datatype Overview = Overview(
    user: string,
    totalEvents: nat,
    totalDaysWithActivity: nat,
    topRepositories: Tally,
    activityByType: Tally)

  /** `repoStats` after the loop has seen `events`. */
  function RepoTally(events: seq<RawEvent>): Tally
    decreases |events|
  {
    if events == [] then []
    else Inc(RepoTally(events[..|events| - 1]), RepoName(events[|events| - 1]))
  }

  /** `typeStats` after the loop has seen `events`. */
  function TypeTally(events: seq<RawEvent>): Tally
    decreases |events|
  {
    if events == [] then []
    else Inc(TypeTally(events[..|events| - 1]), ClassifyEvent(events[|events| - 1]))
  }

  /** `new Set(events.map(e => new Date(e.created_at).toDateString()))`, with the
      local-time day formatter given as `dayOf`. */
  function DayKeys(events: seq<RawEvent>, dayOf: int -> int): set<int>
    decreases |events|
  {
    if events == [] then {}
    else DayKeys(events[..|events| - 1], dayOf) + {dayOf(events[|events| - 1].createdAt)}
  }

  function DisplayOverview(events: seq<RawEvent>, user: string, dayOf: int -> int): Overview {
    Overview(user, |events|, |DayKeys(events, dayOf)|,
      Top(RepoTally(events), MaxTopRepos), Rank(TypeTally(events)))
  }

  method ProcessEventsForDisplay(events: seq<RawEvent>, user: string, dayOf: int -> int)
    returns (o: Overview)
    ensures o == DisplayOverview(events, user, dayOf)
  {
    var repoStats: Tally := [];
    var typeStats: Tally := [];
    for i := 0 to |events|
      invariant repoStats == RepoTally(events[..i])
      invariant typeStats == TypeTally(events[..i])
    {
      var e := events[i];
      assert events[..i + 1][..i] == events[..i] && events[..i + 1][i] == e;
      repoStats := Inc(repoStats, RepoName(e));
      typeStats := Inc(typeStats, ClassifyEvent(e));
    }
    assert events[..|events|] == events;
    o := Overview(user, |events|, |DayKeys(events, dayOf)|, Top(repoStats, MaxTopRepos), Rank(typeStats));
  }

  // ---------------------------------------------------------------------------
  // Properties

  /** The configuration of generate-data.mjs that filters nothing and redacts nothing. */
  function Unfiltered(dayOf: int -> int): Config {
    Config(dayOf, None, false)
  }

  lemma {:induction false} UnfilteredKeepsAll(events: seq<RawEvent>, dayOf: int -> int)
    ensures KeptEvents(events, Unfiltered(dayOf)) == events
    decreases |events|
  {
    if events != [] {
      UnfilteredKeepsAll(events[..|events| - 1], dayOf);
      assert Kept(events[|events| - 1], Unfiltered(dayOf));
    }
  }

  /** The page counts exactly as `processEvents` does with no allowlist and
      `aggregate_only` off. */
  lemma {:induction false} DisplayMatchesReport(events: seq<RawEvent>, dayOf: int -> int)
    ensures RepoTally(events) == RepoCounts(events, Unfiltered(dayOf))
    ensures TypeTally(events) == TypeCounts(events, Unfiltered(dayOf))
    decreases |events|
  {
    if events != [] {
      DisplayMatchesReport(events[..|events| - 1], dayOf);
    }
  }

  /** Every event is counted once under its repository (or "unknown") and once
      under its type, so both counters add up to the number of events. */
  lemma DisplayTotals(events: seq<RawEvent>, dayOf: int -> int)
    ensures Sum(RepoTally(events)) == |events|
    ensures Sum(TypeTally(events)) == |events|
    ensures DisplayOverview(events, "", dayOf).totalEvents == |events|
  {
    DisplayMatchesReport(events, dayOf);
    CountsWellFormed(events, Unfiltered(dayOf));
    UnfilteredKeepsAll(events, dayOf);
  }

  /** The count of a repository is the number of events naming it, and that of a
      type the number of events of that type. */
  lemma DisplayCounts(events: seq<RawEvent>, dayOf: int -> int, k: string)
    ensures Get(RepoTally(events), k) == multiset(BucketsOf(events, false))[k]
    ensures Get(TypeTally(events), k) == multiset(KindsOf(events))[k]
  {
    DisplayMatchesReport(events, dayOf);
    StatsCount(events, Unfiltered(dayOf), k);
    UnfilteredKeepsAll(events, dayOf);
  }

  /** At most ten repositories in non-increasing count order, none left out with a
      larger count than one shown; every type appears exactly once, in non-increasing order. */
  lemma DisplayRankings(events: seq<RawEvent>, user: string, dayOf: int -> int)
    ensures var o := DisplayOverview(events, user, dayOf);
      |o.topRepositories| <= MaxTopRepos
      && (forall i, j :: 0 <= i < j < |o.topRepositories| ==> o.topRepositories[i].count >= o.topRepositories[j].count)
      && (forall x, y :: x in o.topRepositories && y in RepoTally(events) && y !in o.topRepositories ==> x.count >= y.count)
      && Distinct(o.activityByType)
      && (forall k :: HasKey(o.activityByType, k) <==> k in KindsOf(events))
      && (forall i, j :: 0 <= i < j < |o.activityByType| ==> o.activityByType[i].count >= o.activityByType[j].count)
  {
    DisplayMatchesReport(events, dayOf);
    UnfilteredKeepsAll(events, dayOf);
    Rankings(events, Unfiltered(dayOf));
  }

  /** The number of active days is the number of distinct day keys of the events,
      and never more than the number of events. */
  lemma {:induction false} DayKeysCount(events: seq<RawEvent>, dayOf: int -> int)
    ensures forall k :: k in DayKeys(events, dayOf) <==> exists e :: e in events && dayOf(e.createdAt) == k
    ensures |DayKeys(events, dayOf)| <= |events|
    decreases |events|
  {
    if events != [] {
      var init := events[..|events| - 1];
      var last := events[|events| - 1];
      DayKeysCount(init, dayOf);
      assert events == init + [last];
      var before := DayKeys(init, dayOf);
      if dayOf(last.createdAt) in before {
        assert before + {dayOf(last.createdAt)} == before;
      }
    }
  }

  /** What one timeline day shows: its three most frequent types with their counts
      and the names of its two most active repositories. */
  datatype Highlights = Highlights(types: Tally, repos: seq<string>)

  /** The timeline's `slice(0, 3)` of the day's types and `slice(0, 2)` of its
      repositories: as many as there are up to those bounds, each a type the day
      counted or a repository it touched. */
  function DayHighlights(d: Day): (r: Highlights)
    ensures |r.types| == if |d.byType| < MaxTimelineTypes then |d.byType| else MaxTimelineTypes
    ensures |r.repos| == if |d.byRepo| < MaxTimelineRepos then |d.byRepo| else MaxTimelineRepos
    ensures forall i :: 0 <= i < |r.types| ==> r.types[i] in multiset(d.byType)
    ensures forall i :: 0 <= i < |r.repos| ==> HasKey(d.byRepo, r.repos[i])
  {
    TopKeysPresent(d.byRepo, MaxTimelineRepos);
    Highlights(Top(d.byType, MaxTimelineTypes), Keys(Top(d.byRepo, MaxTimelineRepos)))
  }

  /** At most three types and two repositories, each in non-increasing count order,
      and none passed over for one with a smaller count. */
  lemma TimelineHighlights(d: Day)
    ensures var h := DayHighlights(d);
      |h.types| <= MaxTimelineTypes && |h.repos| <= MaxTimelineRepos
      && (forall i, j :: 0 <= i < j < |h.types| ==> h.types[i].count >= h.types[j].count)
      && (forall x, y :: x in h.types && y in d.byType && y !in h.types ==> x.count >= y.count)
      && (forall i, j :: 0 <= i < j < |h.repos| ==>
            Top(d.byRepo, MaxTimelineRepos)[i].count >= Top(d.byRepo, MaxTimelineRepos)[j].count)
      && (forall i :: 0 <= i < |h.repos| ==> h.repos[i] == Top(d.byRepo, MaxTimelineRepos)[i].key)
      && (forall x, y :: x in Top(d.byRepo, MaxTimelineRepos) && y in d.byRepo && y !in Top(d.byRepo, MaxTimelineRepos)
            ==> x.count >= y.count)
  {
    TopSelectsLargest(d.byType, MaxTimelineTypes);
    TopSelectsLargest(d.byRepo, MaxTimelineRepos);
  }
}

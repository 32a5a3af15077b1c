/** The totals `main` of gh-org-summary.mjs keeps while it walks the members:
    events per member, events per repository, all events, and the two top-ten
    lists it prints at the end. */
module OrgTotals {
  import opened Tally
  import opened Events

  /** How many entries each top list prints. */
  const TopCount: nat := 10

  /** A member's login and the events fetched for it. */
  datatype MemberFetch = MemberFetch(login: string, events: seq<RawEvent>)

  datatype Totals = Totals(userActivity: Tally, projectActivity: Tally, totalEvents: nat)

  /** `projectActivity` after counting `events` one by one under their repository. */
  function ProjectCounts(t: Tally, events: seq<RawEvent>): Tally
    decreases |events|
  {
    if events == [] then t
    else Inc(ProjectCounts(t, events[..|events| - 1]), RepoName(events[|events| - 1]))
  }

  /** The three counters after the loop has seen `members`. */
  function Totalled(members: seq<MemberFetch>): Totals
    decreases |members|
  {
    if members == [] then Totals([], [], 0)
    else
      var m := members[|members| - 1];
      var prev := Totalled(members[..|members| - 1]);
      Totals(Add(prev.userActivity, m.login, |m.events|),
             ProjectCounts(prev.projectActivity, m.events),
             prev.totalEvents + |m.events|)
  }

  method Tallies(members: seq<MemberFetch>) returns (t: Totals)
    ensures t == Totalled(members)
  {
    var userActivity: Tally := [];
    var projectActivity: Tally := [];
    var totalEvents: nat := 0;
    for n := 0 to |members|
      invariant Totals(userActivity, projectActivity, totalEvents) == Totalled(members[..n])
    {
      var m := members[n];
      assert members[..n + 1][..n] == members[..n] && members[..n + 1][n] == m;
      userActivity := Add(userActivity, m.login, |m.events|);
      totalEvents := totalEvents + |m.events|;
      ghost var before := projectActivity;
      for k := 0 to |m.events|
        invariant projectActivity == ProjectCounts(before, m.events[..k])
      {
        assert m.events[..k + 1][..k] == m.events[..k];
        projectActivity := Inc(projectActivity, RepoName(m.events[k]));
      }
      assert m.events[..|m.events|] == m.events;
    }
    assert members[..|members|] == members;
    t := Totals(userActivity, projectActivity, totalEvents);
  }

  // ---------------------------------------------------------------------------
  // What the counters hold

  /** All events fetched, over all members. */
  function EventCount(members: seq<MemberFetch>): nat
    decreases |members|
  {
    if members == [] then 0 else EventCount(members[..|members| - 1]) + |members[|members| - 1].events|
  }

  /** The events fetched for one login (a login seen twice counts twice). */
  function EventsOf(members: seq<MemberFetch>, login: string): nat
    decreases |members|
  {
    if members == [] then 0
    else
      var m := members[|members| - 1];
      EventsOf(members[..|members| - 1], login) + (if m.login == login then |m.events| else 0)
  }

  /** The events, of any member, in one repository. */
  function InRepo(events: seq<RawEvent>, repo: string): nat
    decreases |events|
  {
    if events == [] then 0
    else InRepo(events[..|events| - 1], repo) + (if RepoName(events[|events| - 1]) == repo then 1 else 0)
  }

  function RepoEvents(members: seq<MemberFetch>, repo: string): nat
    decreases |members|
  {
    if members == [] then 0
    else RepoEvents(members[..|members| - 1], repo) + InRepo(members[|members| - 1].events, repo)
  }

  /** Counting a member's events under their repositories adds each event once. */
  lemma {:induction false} ProjectCountsEffect(t: Tally, events: seq<RawEvent>, repo: string)
    requires Distinct(t)
    ensures Get(ProjectCounts(t, events), repo) == Get(t, repo) + InRepo(events, repo)
    ensures Distinct(ProjectCounts(t, events))
    ensures Sum(ProjectCounts(t, events)) == Sum(t) + |events|
    decreases |events|
  {
    if events != [] {
      var prev := ProjectCounts(t, events[..|events| - 1]);
      var r := RepoName(events[|events| - 1]);
      ProjectCountsEffect(t, events[..|events| - 1], repo);
      AddGet(prev, r, 1, repo);
      AddDistinct(prev, r, 1);
      AddSum(prev, r, 1);
    }
  }

  /** The total is the number of events fetched; each member's count is the number
      of its events and each repository's the number of events in it, so both maps
      add up to the total; every login and every repository appears once. */
  lemma {:induction false} TotalsMeaning(members: seq<MemberFetch>, login: string, repo: string)
    ensures var t := Totalled(members);
      t.totalEvents == EventCount(members)
      && Get(t.userActivity, login) == EventsOf(members, login)
      && Get(t.projectActivity, repo) == RepoEvents(members, repo)
      && Distinct(t.userActivity) && Distinct(t.projectActivity)
      && Sum(t.userActivity) == t.totalEvents && Sum(t.projectActivity) == t.totalEvents
    decreases |members|
  {
    if members != [] {
      var m := members[|members| - 1];
      var prev := Totalled(members[..|members| - 1]);
      TotalsMeaning(members[..|members| - 1], login, repo);
      AddGet(prev.userActivity, m.login, |m.events|, login);
      AddDistinct(prev.userActivity, m.login, |m.events|);
      AddSum(prev.userActivity, m.login, |m.events|);
      ProjectCountsEffect(prev.projectActivity, m.events, repo);
    }
  }

  /** `Top 10 Most Active Contributors`. */
  function TopContributors(t: Totals): Tally {
    Top(t.userActivity, TopCount)
  }

  /** `Top 10 Most Active Projects`. */
  function TopProjects(t: Totals): Tally {
    Top(t.projectActivity, TopCount)
  }

  /** Each printed count is that member's event total; at most ten are printed,
      in non-increasing order, and no member left out outnumbers one printed. */
  lemma TopContributorsMeaning(members: seq<MemberFetch>)
    ensures var t := Totalled(members);
      |TopContributors(t)| == (if |t.userActivity| < TopCount then |t.userActivity| else TopCount)
      && (forall i :: 0 <= i < |TopContributors(t)| ==>
            TopContributors(t)[i].count == EventsOf(members, TopContributors(t)[i].key))
      && (forall i, j :: 0 <= i < j < |TopContributors(t)| ==> TopContributors(t)[i].count >= TopContributors(t)[j].count)
      && (forall x, y :: x in TopContributors(t) && y in t.userActivity && y !in TopContributors(t) ==> x.count >= y.count)
  {
    var t := Totalled(members);
    TotalsMeaning(members, "", "");
    TopSelectsLargest(t.userActivity, TopCount);
    TopCountsAreGets(t.userActivity, TopCount);
    forall i | 0 <= i < |TopContributors(t)|
      ensures TopContributors(t)[i].count == EventsOf(members, TopContributors(t)[i].key)
    {
      TotalsMeaning(members, TopContributors(t)[i].key, "");
    }
  }

  /** Each printed count is the number of events in that repository; at most ten
      are printed, in non-increasing order, and no repository left out outnumbers
      one printed. */
  lemma TopProjectsMeaning(members: seq<MemberFetch>)
    ensures var t := Totalled(members);
      |TopProjects(t)| == (if |t.projectActivity| < TopCount then |t.projectActivity| else TopCount)
      && (forall i :: 0 <= i < |TopProjects(t)| ==>
            TopProjects(t)[i].count == RepoEvents(members, TopProjects(t)[i].key))
      && (forall i, j :: 0 <= i < j < |TopProjects(t)| ==> TopProjects(t)[i].count >= TopProjects(t)[j].count)
      && (forall x, y :: x in TopProjects(t) && y in t.projectActivity && y !in TopProjects(t) ==> x.count >= y.count)
  {
    var t := Totalled(members);
    TotalsMeaning(members, "", "");
    TopSelectsLargest(t.projectActivity, TopCount);
    TopCountsAreGets(t.projectActivity, TopCount);
    forall i | 0 <= i < |TopProjects(t)|
      ensures TopProjects(t)[i].count == RepoEvents(members, TopProjects(t)[i].key)
    {
      TotalsMeaning(members, "", TopProjects(t)[i].key);
    }
  }
}

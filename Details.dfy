/** `detailed` of gh-summary.mjs and gh-org-summary.mjs, and the order in which
    `main` prints it: per day and per repository, the description lines of the
    listed events, in the order the events come. */
module Details {
  import opened Wrappers
  import opened Strings
  import opened Sorting
  import opened Events
  import opened Classify
  import opened Lookup
  import opened Aggregate
  import opened Summaries

  const CommitLabel: string := "commit"
  const CommitPrefix: string := "commit: "
  const TitleSep: string := ": "
  /** Line break and indentation before a URL in the org script. */
  const UrlIndent: string := "\n    "
  /** How a template literal writes an absent title. */
  const Undefined: string := "undefined"

  predicate Truthy(s: Option<string>) {
    s.Some? && s.value != ""
  }

  function CommitsOf(e: RawEvent): seq<Commit> {
    if e.payload.commits.Some? then e.payload.commits.value else []
  }

  /** The line of one commit; the org script adds the commit URL when it has one. */
  function CommitText(script: Script, c: Commit): string {
    CommitPrefix + MessageLine(c.message)
      + (if script.OrgScript? && Truthy(c.url) then UrlIndent + c.url.value else "")
  }

  /** The lines of a push, one per commit, in order. */
  function CommitTexts(script: Script, commits: seq<Commit>): seq<string>
    decreases |commits|
  {
    if commits == [] then []
    else CommitTexts(script, commits[..|commits| - 1]) + [CommitText(script, commits[|commits| - 1])]
  }

  /** What one of `issue`, `pull_request`, `discussion` adds to the line: the user
      script only a truthy title, the org script every present object's title. */
  function TitleText(script: Script, item: Option<Item>): string {
    match script
    case UserScript =>
      if item.Some? && Truthy(item.value.title) then TitleSep + item.value.title.value else ""
    case OrgScript =>
      if item.None? then ""
      else TitleSep + (if item.value.title.Some? then item.value.title.value else Undefined)
  }

  /** `itemUrl` of the org script, overwritten by each present object in turn. */
  function ItemUrl(p: Payload): string {
    var fromIssue := if p.issue.Some? then UrlIndent + OrElse(p.issue.value.htmlUrl) else "";
    var fromPull := if p.pullRequest.Some? then UrlIndent + OrElse(p.pullRequest.value.htmlUrl) else fromIssue;
    if p.discussion.Some? then UrlIndent + OrElse(p.discussion.value.htmlUrl) else fromPull
  }

  /** `html_url || ''`. */
  function OrElse(s: Option<string>): string {
    if s.Some? then s.value else ""
  }

  /** The line of any other event. */
  function Description(script: Script, e: RawEvent): string {
    var p := e.payload;
    ClassifyEvent(e) + TitleText(script, p.issue) + TitleText(script, p.pullRequest) + TitleText(script, p.discussion)
      + (if script.OrgScript? then ItemUrl(p) else "")
  }

  /** The lines one listed event adds under its day and repository. */
  function Describe(script: Script, e: RawEvent): seq<string> {
    if ClassifyEvent(e) == CommitLabel then CommitTexts(script, CommitsOf(e)) else [Description(script, e)]
  }

  datatype RepoLines = RepoLines(repo: string, lines: seq<string>)

  /** One entry of the result map: the day key and its map from repository to lines. */
  datatype DayLines = DayLines(date: int, repos: seq<RepoLines>)

  function DayOf(d: DayLines): int {
    d.date
  }

  function RepoOf(r: RepoLines): string {
    r.repo
  }

  /** `if (!map.has(d)) map.set(d, new Map())`: the day is there afterwards. */
  function OpenDay(days: seq<DayLines>, date: int): (r: seq<DayLines>)
    ensures IndexBy(r, DayOf, date).Some?
    ensures |r| == |days| + (if IndexBy(days, DayOf, date).None? then 1 else 0)
  {
    if IndexBy(days, DayOf, date).None? then
      IndexAppend(days, DayLines(date, []), DayOf, date);
      days + [DayLines(date, [])]
    else days
  }

  /** `if (!repoMap.has(repo)) repoMap.set(repo, [])`: the list is there afterwards. */
  function OpenRepo(repos: seq<RepoLines>, repo: string): (r: seq<RepoLines>)
    ensures IndexBy(r, RepoOf, repo).Some?
    ensures |r| == |repos| + (if IndexBy(repos, RepoOf, repo).None? then 1 else 0)
  {
    if IndexBy(repos, RepoOf, repo).None? then
      IndexAppend(repos, RepoLines(repo, []), RepoOf, repo);
      repos + [RepoLines(repo, [])]
    else repos
  }

  /** The lines appended under one day and repository, each created when missing. */
  function Record(days: seq<DayLines>, date: int, repo: string, lines: seq<string>): seq<DayLines> {
    var days1 := OpenDay(days, date);
    var i := IndexBy(days1, DayOf, date).value;
    var repos := OpenRepo(days1[i].repos, repo);
    var j := IndexBy(repos, RepoOf, repo).value;
    days1[i := DayLines(date, repos[j := RepoLines(repo, repos[j].lines + lines)])]
  }

  /** The map `detailed` returns after seeing `events`. */
  function Detailed(script: Script, events: seq<RawEvent>, wanted: Option<seq<string>>, dayOf: int -> int): seq<DayLines>
    decreases |events|
  {
    if events == [] then []
    else
      var e := events[|events| - 1];
      var days := Detailed(script, events[..|events| - 1], wanted, dayOf);
      if Listed(wanted, ClassifyEvent(e)) then Record(days, dayOf(e.createdAt), RepoLabel(script, e), Describe(script, e))
      else days
  }

  method DetailedEvents(script: Script, events: seq<RawEvent>, wanted: Option<seq<string>>, dayOf: int -> int)
    returns (days: seq<DayLines>)
    ensures days == Detailed(script, events, wanted, dayOf)
  {
    days := [];
    for n := 0 to |events|
      invariant days == Detailed(script, events[..n], wanted, dayOf)
    {
      var e := events[n];
      assert events[..n + 1][..n] == events[..n] && events[..n + 1][n] == e;
      var kind := ClassifyEvent(e);
      if wanted.Some? && kind !in wanted.value {
        continue;
      }
      var date := dayOf(e.createdAt);
      var repo := RepoLabel(script, e);
      ghost var before := days;
      if IndexBy(days, DayOf, date).None? {
        days := days + [DayLines(date, [])];
      }
      assert days == OpenDay(before, date);
      var i := IndexBy(days, DayOf, date).value;
      var repos := days[i].repos;
      ghost var reposBefore := repos;
      if IndexBy(repos, RepoOf, repo).None? {
        repos := repos + [RepoLines(repo, [])];
      }
      assert repos == OpenRepo(reposBefore, repo);
      var j := IndexBy(repos, RepoOf, repo).value;
      var list := DescribeInto(script, e, repos[j].lines);
      days := days[i := DayLines(date, repos[j := RepoLines(repo, list)])];
    }
    assert events[..|events|] == events;
  }

  /** The lines of one event pushed onto a list: a line per commit of a push, or
      one description line. */
  method DescribeInto(script: Script, e: RawEvent, list: seq<string>) returns (r: seq<string>)
    ensures r == list + Describe(script, e)
  {
    if ClassifyEvent(e) == CommitLabel {
      r := PushCommits(script, CommitsOf(e), list);
    } else {
      r := list + [Description(script, e)];
    }
  }

  /** `for (const c of commits) list.push(...)`: a line per commit, in order. */
  method PushCommits(script: Script, commits: seq<Commit>, list: seq<string>) returns (r: seq<string>)
    ensures r == list + CommitTexts(script, commits)
  {
    r := list;
    for k := 0 to |commits|
      invariant r == list + CommitTexts(script, commits[..k])
    {
      CommitTextsSnoc(script, commits, k);
      AppendSnoc(list, CommitTexts(script, commits[..k]), CommitText(script, commits[k]));
      r := r + [CommitText(script, commits[k])];
    }
    assert commits[..|commits|] == commits;
  }

  lemma AppendSnoc(a: seq<string>, b: seq<string>, x: string)
    ensures (a + b) + [x] == a + (b + [x])
  {
  }

  lemma CommitTextsSnoc(script: Script, commits: seq<Commit>, k: nat)
    requires k < |commits|
    ensures CommitTexts(script, commits[..k + 1]) == CommitTexts(script, commits[..k]) + [CommitText(script, commits[k])]
  {
    assert commits[..k + 1][..k] == commits[..k];
    assert commits[..k + 1][k] == commits[k];
  }

  // ---------------------------------------------------------------------------
  // What the lists hold

  /** The lines under one repository (none when absent). */
  function ListOf(repos: seq<RepoLines>, repo: string): seq<string> {
    match IndexBy(repos, RepoOf, repo)
    case None => []
    case Some(j) => repos[j].lines
  }

  /** The lines under one day and repository (none when absent). */
  function LinesOn(days: seq<DayLines>, date: int, repo: string): seq<string> {
    match IndexBy(days, DayOf, date)
    case None => []
    case Some(i) => ListOf(days[i].repos, repo)
  }

  predicate HasList(days: seq<DayLines>, date: int, repo: string) {
    match IndexBy(days, DayOf, date)
    case None => false
    case Some(i) => IndexBy(days[i].repos, RepoOf, repo).Some?
  }

  /** The lines of the listed events of one day and repository, in event order. */
  function LinesFor(script: Script, events: seq<RawEvent>, wanted: Option<seq<string>>, dayOf: int -> int,
                    date: int, repo: string): seq<string>
    decreases |events|
  {
    if events == [] then []
    else
      var e := events[|events| - 1];
      LinesFor(script, events[..|events| - 1], wanted, dayOf, date, repo)
        + (if Hits(script, wanted, dayOf, date, repo, e) then Describe(script, e) else [])
  }

  /** The event is listed, falls on the day and names the repository. */
  predicate Hits(script: Script, wanted: Option<seq<string>>, dayOf: int -> int, date: int, repo: string, e: RawEvent) {
    Listed(wanted, ClassifyEvent(e)) && dayOf(e.createdAt) == date && RepoLabel(script, e) == repo
  }

  /** Some listed event falls on the day and names the repository. */
  predicate Touches(script: Script, events: seq<RawEvent>, wanted: Option<seq<string>>, dayOf: int -> int,
                    date: int, repo: string) {
    exists n :: 0 <= n < |events| && Hits(script, wanted, dayOf, date, repo, events[n])
  }

  /** Creating a missing day adds no list. */
  lemma OpenDayKeeps(days: seq<DayLines>, date: int, date': int, repo': string)
    ensures LinesOn(OpenDay(days, date), date', repo') == LinesOn(days, date', repo')
    ensures HasList(OpenDay(days, date), date', repo') == HasList(days, date', repo')
  {
    if IndexBy(days, DayOf, date).None? {
      IndexAppend(days, DayLines(date, []), DayOf, date');
      assert IndexBy([], RepoOf, repo').None?;
    }
  }

  /** Creating a missing list leaves every list's lines as they were. */
  lemma OpenRepoKeeps(repos: seq<RepoLines>, repo: string, repo': string)
    ensures ListOf(OpenRepo(repos, repo), repo') == ListOf(repos, repo')
    ensures IndexBy(OpenRepo(repos, repo), RepoOf, repo').Some? <==> IndexBy(repos, RepoOf, repo').Some? || repo' == repo
  {
    if IndexBy(repos, RepoOf, repo).None? {
      IndexAppend(repos, RepoLines(repo, []), RepoOf, repo');
    }
  }

  /** Replacing the lines of the list found for a repository changes only that list. */
  lemma SetListEffect(repos: seq<RepoLines>, repo: string, lines: seq<string>, repo': string)
    requires IndexBy(repos, RepoOf, repo).Some?
    ensures var j := IndexBy(repos, RepoOf, repo).value;
      var r := repos[j := RepoLines(repo, lines)];
      ListOf(r, repo') == (if repo' == repo then lines else ListOf(repos, repo'))
      && (IndexBy(r, RepoOf, repo').Some? <==> IndexBy(repos, RepoOf, repo').Some?)
  {
    var j := IndexBy(repos, RepoOf, repo).value;
    IndexUpdate(repos, j, RepoLines(repo, lines), RepoOf, repo');
  }

  /** Replacing the repositories of the day found for a date changes only that day. */
  lemma SetDayEffect(days: seq<DayLines>, date: int, repos: seq<RepoLines>, date': int, repo': string)
    requires IndexBy(days, DayOf, date).Some?
    ensures var i := IndexBy(days, DayOf, date).value;
      var r := days[i := DayLines(date, repos)];
      LinesOn(r, date', repo') == (if date' == date then ListOf(repos, repo') else LinesOn(days, date', repo'))
      && HasList(r, date', repo') == (if date' == date then IndexBy(repos, RepoOf, repo').Some? else HasList(days, date', repo'))
  {
    var i := IndexBy(days, DayOf, date).value;
    IndexUpdate(days, i, DayLines(date, repos), DayOf, date');
  }

  /** Recording lines under one day and repository appends them to that list only. */
  lemma RecordEffect(days: seq<DayLines>, date: int, repo: string, lines: seq<string>, date': int, repo': string)
    ensures LinesOn(Record(days, date, repo, lines), date', repo')
      == LinesOn(days, date', repo') + (if date' == date && repo' == repo then lines else [])
    ensures HasList(Record(days, date, repo, lines), date', repo') <==> HasList(days, date', repo') || (date' == date && repo' == repo)
  {
    var days1 := OpenDay(days, date);
    var i := IndexBy(days1, DayOf, date).value;
    var repos := OpenRepo(days1[i].repos, repo);
    var j := IndexBy(repos, RepoOf, repo).value;
    OpenDayKeeps(days, date, date', repo');
    OpenRepoKeeps(days1[i].repos, repo, repo');
    OpenRepoKeeps(days1[i].repos, repo, repo);
    SetListEffect(repos, repo, repos[j].lines + lines, repo');
    SetDayEffect(days1, date, repos[j := RepoLines(repo, repos[j].lines + lines)], date', repo');
    if date' == date {
      assert LinesOn(days1, date', repo') == ListOf(days1[i].repos, repo');
      assert HasList(days1, date', repo') == IndexBy(days1[i].repos, RepoOf, repo').Some?;
    }
  }

  /** Under each day and repository are exactly the lines of the listed events of that
      day and repository, in event order. */
  lemma {:induction false} DetailedLines(script: Script, events: seq<RawEvent>, wanted: Option<seq<string>>,
                                         dayOf: int -> int, date: int, repo: string)
    ensures LinesOn(Detailed(script, events, wanted, dayOf), date, repo) == LinesFor(script, events, wanted, dayOf, date, repo)
    decreases |events|
  {
    if events != [] {
      var init := events[..|events| - 1];
      var e := events[|events| - 1];
      DetailedLines(script, init, wanted, dayOf, date, repo);
      if Listed(wanted, ClassifyEvent(e)) {
        RecordEffect(Detailed(script, init, wanted, dayOf), dayOf(e.createdAt), RepoLabel(script, e), Describe(script, e), date, repo);
      } else {
        assert LinesFor(script, events, wanted, dayOf, date, repo) == LinesFor(script, init, wanted, dayOf, date, repo) + [];
      }
    }
  }

  /** Each day once, and within each day each repository once, as in the `Map`
      of `Map`s the scripts build. */
  predicate KeysOnce(days: seq<DayLines>) {
    UniqueBy(days, DayOf) && forall i :: 0 <= i < |days| ==> UniqueBy(days[i].repos, RepoOf)
  }

  /** Recording under a day and repository creates each at most once. */
  lemma RecordKeepsKeysOnce(days: seq<DayLines>, date: int, repo: string, lines: seq<string>)
    requires KeysOnce(days)
    ensures KeysOnce(Record(days, date, repo, lines))
  {
    var days1 := OpenDay(days, date);
    if IndexBy(days, DayOf, date).None? {
      AppendUnique(days, DayLines(date, []), DayOf);
      assert forall i :: 0 <= i < |days1| ==> UniqueBy(days1[i].repos, RepoOf) by {
        forall i | 0 <= i < |days1| ensures UniqueBy(days1[i].repos, RepoOf) {
          if i < |days| {
            assert days1[i] == days[i];
          }
        }
      }
    }
    var i := IndexBy(days1, DayOf, date).value;
    var repos := OpenRepo(days1[i].repos, repo);
    if IndexBy(days1[i].repos, RepoOf, repo).None? {
      AppendUnique(days1[i].repos, RepoLines(repo, []), RepoOf);
    }
    var j := IndexBy(repos, RepoOf, repo).value;
    var repos' := repos[j := RepoLines(repo, repos[j].lines + lines)];
    UpdateUnique(repos, j, RepoLines(repo, repos[j].lines + lines), RepoOf);
    UpdateUnique(days1, i, DayLines(date, repos'), DayOf);
    var r := days1[i := DayLines(date, repos')];
    assert r == Record(days, date, repo, lines);
    forall k | 0 <= k < |r| ensures UniqueBy(r[k].repos, RepoOf) {
      if k != i {
        assert r[k] == days1[k];
      }
    }
  }

  /** `detailed` never lists a day or, within a day, a repository twice. */
  lemma {:induction false} DetailedKeysOnce(script: Script, events: seq<RawEvent>, wanted: Option<seq<string>>, dayOf: int -> int)
    ensures KeysOnce(Detailed(script, events, wanted, dayOf))
    decreases |events|
  {
    if events != [] {
      var init := events[..|events| - 1];
      var e := events[|events| - 1];
      DetailedKeysOnce(script, init, wanted, dayOf);
      if Listed(wanted, ClassifyEvent(e)) {
        RecordKeepsKeysOnce(Detailed(script, init, wanted, dayOf), dayOf(e.createdAt), RepoLabel(script, e), Describe(script, e));
      }
    }
  }

  /** A list exists exactly when a listed event falls on the day and names the
      repository, even a push without commits that adds no line. */
  lemma {:induction false} DetailedHasList(script: Script, events: seq<RawEvent>, wanted: Option<seq<string>>,
                                           dayOf: int -> int, date: int, repo: string)
    ensures HasList(Detailed(script, events, wanted, dayOf), date, repo) <==> Touches(script, events, wanted, dayOf, date, repo)
    decreases |events|
  {
    if events != [] {
      var init := events[..|events| - 1];
      var e := events[|events| - 1];
      DetailedHasList(script, init, wanted, dayOf, date, repo);
      if Listed(wanted, ClassifyEvent(e)) {
        RecordEffect(Detailed(script, init, wanted, dayOf), dayOf(e.createdAt), RepoLabel(script, e), Describe(script, e), date, repo);
      }
      TouchesStep(script, events, wanted, dayOf, date, repo);
    }
  }

  lemma TouchesStep(script: Script, events: seq<RawEvent>, wanted: Option<seq<string>>,
                    dayOf: int -> int, date: int, repo: string)
    requires events != []
    ensures Touches(script, events, wanted, dayOf, date, repo) <==>
      Touches(script, events[..|events| - 1], wanted, dayOf, date, repo)
      || Hits(script, wanted, dayOf, date, repo, events[|events| - 1])
  {
    var hit := e => Hits(script, wanted, dayOf, date, repo, e);
    SomeStep(events, hit);
    assert Touches(script, events, wanted, dayOf, date, repo) == AnyOf(events, hit);
    assert Touches(script, events[..|events| - 1], wanted, dayOf, date, repo) == AnyOf(events[..|events| - 1], hit);
  }

  /** Some element of `s` satisfies `p`. */
  predicate AnyOf<T>(s: seq<T>, p: T -> bool) {
    exists n :: 0 <= n < |s| && p(s[n])
  }

  /** Some element of a non-empty sequence satisfies `p` exactly when some element
      before the last does or the last does. */
  lemma SomeStep<T>(s: seq<T>, p: T -> bool)
    requires s != []
    ensures AnyOf(s, p) <==> AnyOf(s[..|s| - 1], p) || p(s[|s| - 1])
  {
    var init := s[..|s| - 1];
    if AnyOf(s, p) {
      var n :| 0 <= n < |s| && p(s[n]);
      if n < |init| {
        assert init[n] == s[n];
      }
    }
    if AnyOf(init, p) {
      var n :| 0 <= n < |init| && p(init[n]);
      assert s[n] == init[n];
    }
  }

  /** A push yields one line per commit, each its first message line after
      `commit: `; any other event yields one line that starts with its type. */
  lemma {:induction false} DescribeShape(script: Script, e: RawEvent)
    ensures ClassifyEvent(e) == CommitLabel ==>
      |Describe(script, e)| == |CommitsOf(e)|
      && forall i :: 0 <= i < |CommitsOf(e)| ==>
           StartsWith(Describe(script, e)[i], CommitPrefix + MessageLine(CommitsOf(e)[i].message))
    ensures ClassifyEvent(e) != CommitLabel ==>
      |Describe(script, e)| == 1 && StartsWith(Describe(script, e)[0], ClassifyEvent(e))
  {
    if ClassifyEvent(e) == CommitLabel {
      CommitTextsShape(script, CommitsOf(e));
    }
  }

  lemma {:induction false} CommitTextsShape(script: Script, commits: seq<Commit>)
    ensures |CommitTexts(script, commits)| == |commits|
    ensures forall i :: 0 <= i < |commits| ==>
      StartsWith(CommitTexts(script, commits)[i], CommitPrefix + MessageLine(commits[i].message))
    decreases |commits|
  {
    if commits != [] {
      var init := commits[..|commits| - 1];
      var last := commits[|commits| - 1];
      CommitTextsShape(script, init);
      CommitTextStarts(script, last);
      var texts := CommitTexts(script, commits);
      assert texts == CommitTexts(script, init) + [CommitText(script, last)];
      forall i | 0 <= i < |commits|
        ensures StartsWith(texts[i], CommitPrefix + MessageLine(commits[i].message))
      {
        if i < |init| {
          assert commits[i] == init[i] && texts[i] == CommitTexts(script, init)[i];
        } else {
          assert commits[i] == last && texts[i] == CommitText(script, last);
        }
      }
    }
  }

  lemma CommitTextStarts(script: Script, c: Commit)
    ensures StartsWith(CommitText(script, c), CommitPrefix + MessageLine(c.message))
  {
    var head := CommitPrefix + MessageLine(c.message);
    var tail := if script.OrgScript? && Truthy(c.url) then UrlIndent + c.url.value else "";
    assert CommitText(script, c) == head + tail;
    assert (head + tail)[..|head|] == head;
  }

  /** In the user script the line is the bare type exactly when none of the three
      objects has a non-empty title. */
  lemma UserLineBare(e: RawEvent)
    requires ClassifyEvent(e) != CommitLabel
    ensures var p := e.payload;
      Describe(UserScript, e) == [ClassifyEvent(e)] <==>
        !(p.issue.Some? && Truthy(p.issue.value.title))
        && !(p.pullRequest.Some? && Truthy(p.pullRequest.value.title))
        && !(p.discussion.Some? && Truthy(p.discussion.value.title))
  {
    var p := e.payload;
    var t1 := TitleText(UserScript, p.issue);
    var t2 := TitleText(UserScript, p.pullRequest);
    var t3 := TitleText(UserScript, p.discussion);
    var line := Description(UserScript, e);
    assert line == ClassifyEvent(e) + t1 + t2 + t3;
    assert |line| == |ClassifyEvent(e)| + |t1| + |t2| + |t3|;
    assert Describe(UserScript, e) == [line];
    if line == ClassifyEvent(e) {
      assert |t1| == 0 && |t2| == 0 && |t3| == 0;
    }
  }

  /** In the org script the URL on the line is that of the last object present. */
  lemma OrgLineUrl(e: RawEvent)
    requires ClassifyEvent(e) != CommitLabel
    ensures var p := e.payload;
      var last := if p.discussion.Some? then p.discussion else if p.pullRequest.Some? then p.pullRequest else p.issue;
      last.Some? ==> EndsWith(Describe(OrgScript, e)[0], UrlIndent + OrElse(last.value.htmlUrl))
  {
    var p := e.payload;
    var line := Description(OrgScript, e);
    var head := ClassifyEvent(e) + TitleText(OrgScript, p.issue) + TitleText(OrgScript, p.pullRequest) + TitleText(OrgScript, p.discussion);
    assert line == head + ItemUrl(p);
  }

  // ---------------------------------------------------------------------------
  // Printing order

  /** `[...repoMap.entries()].sort()` compares the entries as strings: the
      repository, a comma, and the lines joined by commas. */
  function EntryKey(r: RepoLines): string {
    r.repo + "," + Join(r.lines, ",")
  }

  function InEntryOrder(repos: seq<RepoLines>): seq<RepoLines> {
    SortBy(repos, EntryKey, LexLe)
  }

  function InDayOrder(days: seq<DayLines>): seq<DayLines> {
    SortBy(days, DayOf, AtMost)
  }

  /** A character every repository name and URL is written with sorts after the comma. */
  predicate AfterComma(s: string) {
    forall i :: 0 <= i < |s| ==> s[i] > ','
  }

  lemma {:induction false} LexAfterComma(x: string, y: string, s: string, t: string)
    requires x != y && AfterComma(x) && AfterComma(y)
    ensures LexLe(x + "," + s, y + "," + t) <==> LexLe(x, y)
  {
    var a := x + "," + s;
    var b := y + "," + t;
    if x == [] {
      assert a[0] == ',' && b[0] == y[0];
    } else if y == [] {
      assert b[0] == ',' && a[0] == x[0];
    } else {
      assert a[0] == x[0] && b[0] == y[0];
      if x[0] == y[0] {
        assert x[1..] != y[1..] by {
          assert x == [x[0]] + x[1..] && y == [y[0]] + y[1..];
        }
        assert a[1..] == x[1..] + "," + s && b[1..] == y[1..] + "," + t;
        LexAfterComma(x[1..], y[1..], s, t);
      }
    }
  }

  /** For repository names made of the characters GitHub allows (all after the
      comma), the entries print in the order of their names. */
  lemma EntryOrderFollowsNames(a: RepoLines, b: RepoLines)
    requires a.repo != b.repo && AfterComma(a.repo) && AfterComma(b.repo)
    ensures LexLe(EntryKey(a), EntryKey(b)) <==> LexLe(a.repo, b.repo)
  {
    LexAfterComma(a.repo, b.repo, Join(a.lines, ","), Join(b.lines, ","));
  }

  /** With a character before the comma the order departs from the names: `a+`
      prints before `a`. */
  lemma EntryOrderCounterexample()
    ensures LexLe("a", "a+")
    ensures !LexLe(EntryKey(RepoLines("a", ["x"])), EntryKey(RepoLines("a+", ["x"])))
  {
    var k1 := EntryKey(RepoLines("a", ["x"]));
    var k2 := EntryKey(RepoLines("a+", ["x"]));
    assert k1 == "a,x" && k2 == "a+,x";
    assert k1[1..] == ",x" && k2[1..] == "+,x";
  }

  /** Days print earliest first, each once; the repositories of a day print sorted
      by their entry strings, each once; nothing is dropped or repeated. */
  lemma DetailedPrintOrder(script: Script, events: seq<RawEvent>, wanted: Option<seq<string>>, dayOf: int -> int, d: DayLines)
    requires d in Detailed(script, events, wanted, dayOf)
    ensures var days := Detailed(script, events, wanted, dayOf);
      multiset(InDayOrder(days)) == multiset(days)
      && forall i, j :: 0 <= i < j < |InDayOrder(days)| ==> InDayOrder(days)[i].date < InDayOrder(days)[j].date
    ensures multiset(InEntryOrder(d.repos)) == multiset(d.repos)
      && SortedBy(InEntryOrder(d.repos), EntryKey, LexLe)
      && UniqueBy(InEntryOrder(d.repos), RepoOf)
  {
    DetailedKeysOnce(script, events, wanted, dayOf);
    var days := Detailed(script, events, wanted, dayOf);
    DaysOnceInOrder(days);
    var k :| 0 <= k < |days| && days[k] == d;
    ReposOnceInOrder(d.repos);
  }

  lemma DaysOnceInOrder(days: seq<DayLines>)
    requires UniqueBy(days, DayOf)
    ensures multiset(InDayOrder(days)) == multiset(days)
    ensures forall i, j :: 0 <= i < j < |InDayOrder(days)| ==> InDayOrder(days)[i].date < InDayOrder(days)[j].date
  {
    IntOrdersArePreorders();
    SortBySorted(days, DayOf, AtMost);
    PermutationUnique(days, InDayOrder(days), DayOf);
  }

  lemma ReposOnceInOrder(repos: seq<RepoLines>)
    requires UniqueBy(repos, RepoOf)
    ensures multiset(InEntryOrder(repos)) == multiset(repos)
    ensures SortedBy(InEntryOrder(repos), EntryKey, LexLe) && UniqueBy(InEntryOrder(repos), RepoOf)
  {
    LexIsTotalPreorder();
    SortBySorted(repos, EntryKey, LexLe);
    PermutationUnique(repos, InEntryOrder(repos), RepoOf);
  }
}

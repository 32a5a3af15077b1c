/** `summarize` of gh-summary.mjs and gh-org-summary.mjs, and the order in which
    `main` prints its result: per day, a count of the listed events under the key
    `<repo>::<type>`, where the org script writes the repository as its URL. */
module Summaries {
  import opened Wrappers
  import opened Strings
  import opened Sorting
  import opened Tally
  import opened Events
  import opened Classify
  import opened Lookup

  /** Which of the two command-line scripts. */
  datatype Script = UserScript | OrgScript

  const RepoUrlPrefix: string := "https://github.com/"
  const KeySep: string := "::"

  /** The repository as the script writes it: its name, or its URL in the org script. */
  function RepoLabel(script: Script, e: RawEvent): string {
    match script
    case UserScript => RepoName(e)
    case OrgScript => RepoUrlPrefix + RepoName(e)
  }

  /** `INCLUDE_TYPES && !INCLUDE_TYPES.includes(type)` rejects the event; the list
      is `null` when `--include` is not given. */
  predicate Listed(wanted: Option<seq<string>>, kind: string) {
    wanted.None? || kind in wanted.value
  }

  function CountKey(script: Script, e: RawEvent): string {
    RepoLabel(script, e) + KeySep + ClassifyEvent(e)
  }

  /** One entry of the result map: the day key and its object of counts. */
  datatype DayCounts = DayCounts(date: int, counts: Tally)

  function DateOf(d: DayCounts): int {
    d.date
  }

  /** `map.has(d)`: where the day is, if it is there. */
  function CountsIndex(days: seq<DayCounts>, date: int): Option<nat> {
    IndexBy(days, DateOf, date)
  }

  /** The counts of one day (none when the day is absent). */
  function CountsOn(days: seq<DayCounts>, date: int): Tally {
    match CountsIndex(days, date)
    case None => []
    case Some(i) => days[i].counts
  }

  /** One event counted: the day is created when missing, then its key incremented. */
  function CountIn(days: seq<DayCounts>, date: int, key: string): seq<DayCounts> {
    match CountsIndex(days, date)
    case None => days + [DayCounts(date, Inc([], key))]
    case Some(i) => days[i := DayCounts(date, Inc(days[i].counts, key))]
  }

  /** The map `summarize` returns after seeing `events`, days in first-seen order. */
  function Summarize(script: Script, events: seq<RawEvent>, wanted: Option<seq<string>>, dayOf: int -> int): seq<DayCounts>
    decreases |events|
  {
    if events == [] then []
    else
      var e := events[|events| - 1];
      var days := Summarize(script, events[..|events| - 1], wanted, dayOf);
      if Listed(wanted, ClassifyEvent(e)) then CountIn(days, dayOf(e.createdAt), CountKey(script, e)) else days
  }

  method SummarizeEvents(script: Script, events: seq<RawEvent>, wanted: Option<seq<string>>, dayOf: int -> int)
    returns (days: seq<DayCounts>)
    ensures days == Summarize(script, events, wanted, dayOf)
  {
    days := [];
    for n := 0 to |events|
      invariant days == Summarize(script, events[..n], wanted, dayOf)
    {
      var e := events[n];
      SummarizeSnoc(script, events, n, wanted, dayOf);
      var kind := ClassifyEvent(e);
      if wanted.Some? && kind !in wanted.value {
        continue;
      }
      var date := dayOf(e.createdAt);
      var found := CountsIndex(days, date);
      ghost var before := days;
      if found.None? {
        days := days + [DayCounts(date, [])];
      }
      var i := if found.None? then |days| - 1 else found.value;
      var key := CountKey(script, e);
      days := days[i := DayCounts(date, Inc(days[i].counts, key))];
      CountInSteps(before, date, key);
    }
    assert events[..|events|] == events;
  }

  /** Creating the day with no counts when missing, then incrementing its key, is CountIn. */
  lemma CountInSteps(days: seq<DayCounts>, date: int, key: string)
    ensures var found := CountsIndex(days, date);
      var d := if found.None? then days + [DayCounts(date, [])] else days;
      var i := if found.None? then |days| else found.value;
      i < |d| && CountIn(days, date, key) == d[i := DayCounts(date, Inc(d[i].counts, key))]
  {
    if CountsIndex(days, date).None? {
      var d := days + [DayCounts(date, [])];
      assert d[|days| := DayCounts(date, Inc([], key))] == days + [DayCounts(date, Inc([], key))];
    }
  }

  /** One more event is counted on top of the earlier ones, when it is listed. */
  lemma SummarizeSnoc(script: Script, events: seq<RawEvent>, n: nat, wanted: Option<seq<string>>, dayOf: int -> int)
    requires n < |events|
    ensures Summarize(script, events[..n + 1], wanted, dayOf) ==
      if Listed(wanted, ClassifyEvent(events[n]))
      then CountIn(Summarize(script, events[..n], wanted, dayOf), dayOf(events[n].createdAt), CountKey(script, events[n]))
      else Summarize(script, events[..n], wanted, dayOf)
  {
    assert events[..n + 1][..n] == events[..n] && events[..n + 1][n] == events[n];
  }

  // ---------------------------------------------------------------------------
  // What the counts mean

  /** The keys of the listed events of one day, in order. */
  function KeysOnDay(script: Script, events: seq<RawEvent>, wanted: Option<seq<string>>, dayOf: int -> int, date: int): seq<string>
    decreases |events|
  {
    if events == [] then []
    else
      var e := events[|events| - 1];
      KeysOnDay(script, events[..|events| - 1], wanted, dayOf, date)
        + (if Listed(wanted, ClassifyEvent(e)) && dayOf(e.createdAt) == date then [CountKey(script, e)] else [])
  }

  predicate DistinctDates(days: seq<DayCounts>) {
    forall i, j :: 0 <= i < j < |days| ==> days[i].date != days[j].date
  }

  /** Counting under one day changes that day's counts and no other day's. */
  lemma CountInEffect(days: seq<DayCounts>, date: int, key: string, date': int)
    ensures CountsOn(CountIn(days, date, key), date') ==
      if date' == date then Inc(CountsOn(days, date), key) else CountsOn(days, date')
    ensures CountsIndex(CountIn(days, date, key), date').Some? <==> CountsIndex(days, date').Some? || date' == date
    ensures DistinctDates(days) ==> DistinctDates(CountIn(days, date, key))
  {
    CountInFinds(days, date, key, date');
    CountInDistinct(days, date, key);
  }

  lemma CountInFinds(days: seq<DayCounts>, date: int, key: string, date': int)
    ensures CountsOn(CountIn(days, date, key), date') ==
      if date' == date then Inc(CountsOn(days, date), key) else CountsOn(days, date')
    ensures CountsIndex(CountIn(days, date, key), date').Some? <==> CountsIndex(days, date').Some? || date' == date
  {
    match CountsIndex(days, date) {
      case None =>
        IndexAppend(days, DayCounts(date, Inc([], key)), DateOf, date');
      case Some(i) =>
        IndexUpdate(days, i, DayCounts(date, Inc(days[i].counts, key)), DateOf, date');
    }
  }

  lemma CountInDistinct(days: seq<DayCounts>, date: int, key: string)
    ensures DistinctDates(days) ==> DistinctDates(CountIn(days, date, key))
  {
    var r := CountIn(days, date, key);
    if DistinctDates(days) {
      match CountsIndex(days, date) {
        case None =>
          assert forall j :: 0 <= j < |days| ==> r[j].date == days[j].date && days[j].date != date;
        case Some(i) =>
          assert forall j :: 0 <= j < |days| ==> r[j].date == days[j].date;
      }
    }
  }

  /** Under each day, the count of a key is the number of listed events of that day
      with that key, and no key is counted under two entries; the days are distinct,
      and a day is present exactly when some listed event falls on it. */
  lemma {:induction false} SummarizeCounts(script: Script, events: seq<RawEvent>, wanted: Option<seq<string>>,
                                           dayOf: int -> int, date: int, k: string)
    ensures Get(CountsOn(Summarize(script, events, wanted, dayOf), date), k)
      == multiset(KeysOnDay(script, events, wanted, dayOf, date))[k]
    ensures CountsIndex(Summarize(script, events, wanted, dayOf), date).Some?
      <==> KeysOnDay(script, events, wanted, dayOf, date) != []
    ensures DistinctDates(Summarize(script, events, wanted, dayOf))
    ensures Distinct(CountsOn(Summarize(script, events, wanted, dayOf), date))
    decreases |events|
  {
    if events != [] {
      var init := events[..|events| - 1];
      var e := events[|events| - 1];
      var days := Summarize(script, init, wanted, dayOf);
      SummarizeCounts(script, init, wanted, dayOf, date, k);
      if Listed(wanted, ClassifyEvent(e)) {
        CountInEffect(days, dayOf(e.createdAt), CountKey(script, e), date);
        AddGet(CountsOn(days, dayOf(e.createdAt)), CountKey(script, e), 1, k);
        if dayOf(e.createdAt) == date {
          AddDistinct(CountsOn(days, date), CountKey(script, e), 1);
        }
      }
    }
  }

  /** Events whose type is not listed leave the result as it was. */
  lemma {:induction false} SummarizeSkipsUnlisted(script: Script, events: seq<RawEvent>, extra: seq<RawEvent>,
                                                  wanted: Option<seq<string>>, dayOf: int -> int)
    requires forall i :: 0 <= i < |extra| ==> !Listed(wanted, ClassifyEvent(extra[i]))
    ensures Summarize(script, events + extra, wanted, dayOf) == Summarize(script, events, wanted, dayOf)
    decreases |extra|
  {
    if extra == [] {
      assert events + extra == events;
    } else {
      var init := extra[..|extra| - 1];
      assert (events + extra)[..|events + extra| - 1] == events + init;
      SummarizeSkipsUnlisted(script, events, init, wanted, dayOf);
    }
  }

  // ---------------------------------------------------------------------------
  // Printing: the key split and the order

  /** `const [repo, type] = key.split('::')`; a missing second part is `undefined`. */
  function SplitKey(key: string): (string, Option<string>) {
    var parts := Split(key, KeySep);
    (parts[0], if |parts| > 1 then Some(parts[1]) else None)
  }

  /** A key splits back into its repository and its type when the repository
      followed by one colon holds no `::` and the type holds none either. */
  lemma KeyRoundTrip(repo: string, kind: string)
    requires !Contains(repo + ":", KeySep) && !Contains(kind, KeySep)
    ensures SplitKey(repo + KeySep + kind) == (repo, Some(kind))
  {
    KeySepAfterRepo(repo, kind);
    assert Split(kind, KeySep) == [kind];
  }

  /** When only the type holds `::`, the repository still comes back, and the
      type is cut at its first `::`. */
  lemma KeyTypeCut(repo: string, kind: string, k: nat)
    requires !Contains(repo + ":", KeySep) && Find(kind, KeySep) == Some(k)
    ensures SplitKey(repo + KeySep + kind) == (repo, Some(kind[..k]))
  {
    KeySepAfterRepo(repo, kind);
    assert Split(kind, KeySep)[0] == kind[..k];
  }

  /** The first `::` of a key is the one after the repository when `repo:` holds none. */
  lemma KeySepAfterRepo(repo: string, kind: string)
    requires !Contains(repo + ":", KeySep)
    ensures Find(repo + KeySep + kind, KeySep) == Some(|repo|)
    ensures Split(repo + KeySep + kind, KeySep) == [repo] + Split(kind, KeySep)
  {
    var key := repo + KeySep + kind;
    assert OccursAt(key, KeySep, |repo|) by { assert key[|repo|..|repo| + 2] == KeySep; }
    forall j | 0 <= j < |repo| ensures !OccursAt(key, KeySep, j) {
      assert !OccursAt(repo + ":", KeySep, j);
      assert key[j..j + 2] == (repo + ":")[j..j + 2];
    }
    assert Find(key, KeySep) == Some(|repo|);
    assert key[..|repo|] == repo && key[|repo| + 2..] == kind;
  }

  /** When `repo:` holds `::`, the first part is not the repository: an earlier
      `::` is found. */
  lemma KeyRoundTripFails(repo: string, kind: string)
    requires Contains(repo + ":", KeySep)
    ensures SplitKey(repo + KeySep + kind).0 != repo
  {
    var key := repo + KeySep + kind;
    var j :| 0 <= j <= |repo| + 1 && OccursAt(repo + ":", KeySep, j);
    assert key[j..j + 2] == (repo + ":")[j..j + 2];
    assert OccursAt(key, KeySep, j);
    var i := Find(key, KeySep).value;
    assert |SplitKey(key).0| == i <= j < |repo|;
  }

  /** A repository ending in a colon: `"a:" + "::" + "push"` splits into `"a"` and `":push"`. */
  lemma KeyRoundTripCounterexample()
    ensures SplitKey("a:" + KeySep + "push") == ("a", Some(":push"))
  {
    var key := "a:" + KeySep + "push";
    assert key == "a:::push";
    assert key[1..3] == KeySep;
    assert !OccursAt(key, KeySep, 0) by { assert key[0..2][0] == 'a'; }
    assert FindFrom(key, KeySep, 1) == Some(1);
    assert Find(key, KeySep) == Some(1);
    assert key[3..] == ":push" && key[..1] == "a";
    forall j | 0 <= j ensures !OccursAt(":push", KeySep, j) {
      if j + 2 <= 5 {
        assert ":push"[j..j + 2][1] == ":push"[j + 1] != ':';
      }
    }
    assert Split(":push", KeySep) == [":push"];
    assert Split(key, KeySep) == ["a", ":push"];
  }

  function Identity(s: string): string {
    s
  }

  /** `[...grouped.entries()].sort((a, b) => new Date(a[0]) - new Date(b[0]))`, with
      the day keys ordered as the days they name. */
  function InDateOrder(days: seq<DayCounts>): seq<DayCounts> {
    SortBy(days, DateOf, AtMost)
  }

  /** `Object.keys(counts).sort()`. */
  function SortedKeys(counts: Tally): seq<string> {
    SortBy(Keys(counts), Identity, LexLe)
  }

  /** Days are printed earliest first, each once, and within a day every key is
      printed once, in code-unit order; nothing is dropped or repeated. */
  lemma PrintOrder(script: Script, events: seq<RawEvent>, wanted: Option<seq<string>>, dayOf: int -> int, date: int)
    ensures var days := Summarize(script, events, wanted, dayOf);
      var shown := InDateOrder(days);
      multiset(shown) == multiset(days)
      && forall i, j :: 0 <= i < j < |shown| ==> shown[i].date < shown[j].date
    ensures var counts := CountsOn(Summarize(script, events, wanted, dayOf), date);
      var keys := SortedKeys(counts);
      multiset(keys) == multiset(Keys(counts))
      && forall i, j :: 0 <= i < j < |keys| ==> LexLe(keys[i], keys[j]) && keys[i] != keys[j]
  {
    SummarizeCounts(script, events, wanted, dayOf, date, "");
    DaysInOrder(Summarize(script, events, wanted, dayOf));
    KeysInOrder(CountsOn(Summarize(script, events, wanted, dayOf), date));
  }

  /** Distinct days sort into strictly ascending order. */
  lemma DaysInOrder(days: seq<DayCounts>)
    requires DistinctDates(days)
    ensures multiset(InDateOrder(days)) == multiset(days)
    ensures forall i, j :: 0 <= i < j < |InDateOrder(days)| ==> InDateOrder(days)[i].date < InDateOrder(days)[j].date
  {
    IntOrdersArePreorders();
    SortBySorted(days, DateOf, AtMost);
    assert UniqueBy(days, DateOf);
    PermutationUnique(days, InDateOrder(days), DateOf);
  }

  /** The keys of a counter with each key once sort into strictly ascending order. */
  lemma KeysInOrder(counts: Tally)
    requires Distinct(counts)
    ensures multiset(SortedKeys(counts)) == multiset(Keys(counts))
    ensures forall i, j :: 0 <= i < j < |SortedKeys(counts)| ==>
      LexLe(SortedKeys(counts)[i], SortedKeys(counts)[j]) && SortedKeys(counts)[i] != SortedKeys(counts)[j]
  {
    assert UniqueBy(Keys(counts), Identity);
    LexIsTotalPreorder();
    SortBySorted(Keys(counts), Identity, LexLe);
    PermutationUnique(Keys(counts), SortedKeys(counts), Identity);
  }
}

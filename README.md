# gh-summary in Dafny

This is a model of the logic of gh-summary, a set of scripts that summarise a
GitHub user's or organization's activity from the GitHub events API:

- `generate-data.mjs` reads a small YAML configuration and pages through a
  user's events. It then buckets them per day and counts them per type and
  per repository. Private repositories are folded into one `private-repos`
  bucket when only aggregates may be shown. It ranks the ten busiest
  repositories and every type.
- `gh-summary.mjs` is a command-line summariser for one user. It parses its
  arguments after turning dash look-alikes into `-`, fetches the events, and
  prints per day either a count per `repo::type` key or one line per event.
- `gh-org-summary.mjs` is the same for every member of an organization. It
  cleans the organization name, tries a chain of event endpoints per member,
  writes repositories as URLs, and keeps per-member and per-project totals
  with two top-ten lists.
- `app.js` is the browser page. It fetches at most three pages of public
  events within a date window, counts them per repository and per type, and
  shows the top three types and top two repositories of each day.

Each module is one file:

- **Wrappers, Strings, Sorting, Lookup, Tally and Events.** The shared
  vocabulary: JavaScript string operations, the stable sort behind
  `Array.prototype.sort`, lookup by key, and insertion-ordered counters
  (`Map<string, number>`). Events holds the event records.
- **Classify** is `classifyEvent`.
- **LinkHeader** is `parseLinkHeader`.
- **Paging** holds the three page loops. The network is replaced by the
  sequence of responses each endpoint would give.
- **Aggregate** is `processEvents`.
- **Display** is the page's `processEventsForDisplay` and timeline.
- **Summaries and Details** are `summarize` and `detailed`, and the order in
  which `main` prints them.
- **OrgTotals** holds the organization totals.
- **Args** is `normalizeDashes` and `parseArgs`.
- **OrgName** is `cleanOrgName`.
- **Yaml** is `parseSimpleYaml`.

Loops in the source are methods with loop invariants. Each method is proved
equal to a specification function, and the properties are proved about that
function.

## Model

| member | source | states |
|---|---|---|
| Classify.ClassifyEvent | generate-data.mjs:139-156 | an event of one of the thirteen listed kinds gets the label at that kind's position; any other kind loses one trailing `Event` and is lowercased; the label is always lowercase |
| Classify.ClassifyTable | generate-data.mjs:139-153 | each of the thirteen listed event kinds gets its fixed label |
| Classify.ClassifyFallback | generate-data.mjs:154 | any other kind loses one trailing `Event` and is lowercased; the label's length follows |
| Classify.ClassifyIsLower | app.js:383-400 | every label is lowercase, so it can match a lowercased include list |
| Classify.StripEventSuffix | gh-summary.mjs:143 | a trailing `Event` is removed exactly when present, and nothing else changes |
| LinkHeader.ParseLinkHeader | generate-data.mjs:105-110 | every relation read is non-empty without `"` and bound to a non-empty URL without `>`; a header with no matching part reads as empty |
| LinkHeader.MatchPart | generate-data.mjs:107 | a match yields a non-empty relation without `"` and a non-empty URL without `>` |
| LinkHeader.ParseConcat | generate-data.mjs:105-110 | parts are read independently: the header of two comma-joined halves is the right-biased union of theirs |
| LinkHeader.ParseRenderedPart | gh-summary.mjs:93-98 | a part written as `<url>; rel="name"` is read back as exactly that one relation |
| LinkHeader.ParseRenderedLinks | gh-org-summary.mjs:130-135 | round trip: a header written from name/URL pairs reads back as `Object.fromEntries` of them, a later name winning |
| LinkHeader.ParseLeadingSpace | generate-data.mjs:106 | a space before the header does not change what is read |
| Events.RepoName | generate-data.mjs:180 | the repository is never empty: its name when it has one, else `unknown` |
| Events.IsPrivate | generate-data.mjs:181 | an event is private exactly when its repository name holds `/` and `public` is `false`; an absent `public` counts as public |
| Paging.FetchUserEvents | generate-data.mjs:112-137 | the loop requests exactly the pages up to the first stop and returns the events of those pages since the cutoff, or the failing page's error |
| Paging.UserFetchBounds | gh-summary.mjs:104-119 | at most 20 pages; every page before the last one requested was a non-empty array, reached no further back than the cutoff, and linked a next page |
| Paging.UserFetchStopsAtCutoff | generate-data.mjs:127-128 | a page whose oldest event is before the cutoff is the last one requested |
| Paging.UserFetchWithinWindow | gh-summary.mjs:121 | every event returned is not older than the cutoff |
| Paging.SinceFilterMembers | generate-data.mjs:136 | the filter keeps exactly the events not older than the cutoff |
| Paging.FirstStopIsFirst | generate-data.mjs:118-134 | the loop goes on through every page that lets it and stops below the ceiling only on one that does not |
| Paging.FetchPublicEvents | app.js:306-346 | the loop requests one to three pages, up to the first stop, and returns the fetched events inside the window; it fails exactly when the last page requested failed, as "User not found" for a 404 and with that page's status otherwise |
| Paging.AppFetchContract | app.js:311-345 | at most three pages; a 404 is "User not found" and any other failure carries its status; results lie between the two dates |
| Paging.WindowFilterMembers | app.js:342-345 | the filter keeps exactly the events between the two dates, inclusive |
| Paging.FetchEndpoint | gh-org-summary.mjs:285-307 | one endpoint's loop, failures read as empty pages: the pages up to the first stop (at most 30), their events since the cutoff, and whether the cutoff was reached |
| Paging.FetchOrgUserEvents | gh-org-summary.mjs:268-312 | the endpoints are tried in turn until one reaches the cutoff; the events are the chain's, sorted newest first |
| Paging.OrgFetchContract | gh-org-summary.mjs:284-311 | no more endpoints than given, at most 30 pages each; the result is sorted newest first, a permutation of what was collected, all since the cutoff |
| Paging.OrgStopsOnlyAtCutoff | gh-org-summary.mjs:297-300 | an endpoint chain stops before its end only after an endpoint reached the cutoff |
| Paging.Endpoints | gh-org-summary.mjs:275-282 | two endpoints, or three when private events are wanted |
| Aggregate.ProcessEvents | generate-data.mjs:168-268 | the loop's result is the report function of the events and configuration |
| Aggregate.CountEvent | generate-data.mjs:194-235 | one kept event raises its day's total and type count, then counts it under `private-repos` when redacted, or under its repository with a detail entry appended; the bucket returned is the one counted |
| Aggregate.TouchEffect | generate-data.mjs:179-235 | one kept event adds one to its day's total (a new bucket when the day is new) and to its type's and repository's counts, `private-repos` when redacted; only an unredacted event appends a detail; other days unchanged |
| Aggregate.DetailOf | generate-data.mjs:210-232 | a push lists its commits; otherwise title, number and URL come from the issue, pull request and discussion, each written over the one before |
| Aggregate.MessageLineIsFirstLine | generate-data.mjs:214 | a commit's line is never empty and holds no line feed: its message's first line, or `(no message)` |
| Aggregate.ShortSha | generate-data.mjs:215 | the short hash is present exactly when the hash is, and is its first seven characters |
| Aggregate.DayBucketsValid | generate-data.mjs:184-207 | every bucket's total is the sum of its type counts and of its repository counts, and the totals add up to the number of kept events |
| Aggregate.CountsWellFormed | generate-data.mjs:199-207 | each counter holds each key once with positive counts, and both add up to the number of kept events |
| Aggregate.StatsCount | generate-data.mjs:197-207 | a type's count is the number of kept events of that type; a repository's the number of kept events in its bucket |
| Aggregate.FilteredIsNoOp | generate-data.mjs:175-177 | an event the allowlist rejects changes nothing but `totalEvents` |
| Aggregate.DailyTotalsAgree | generate-data.mjs:195-207 | in every reported day, the total equals both the sum by type and the sum by repository |
| Aggregate.DailyActivityOrdered | generate-data.mjs:239-240 | daily activity is in ascending day order and holds every bucket once |
| Aggregate.SummaryTotals | generate-data.mjs:259-261 | `totalEvents` counts every event, filtered or not; `totalDaysWithActivity` is the number of distinct days among kept events |
| Aggregate.Rankings | generate-data.mjs:242-249 | at most ten repositories in non-increasing order, none left out outnumbering one shown; every counted type listed once, in non-increasing order |
| Display.ProcessEventsForDisplay | app.js:349-381 | the loop's result is the overview function of the events |
| Display.DisplayMatchesReport | app.js:353-359 | the page counts exactly as `processEvents` does with no allowlist and no redaction |
| Display.DisplayTotals | app.js:370-374 | both counters add up to the number of events, which is `totalEvents` |
| Display.DisplayCounts | app.js:355-358 | a repository's count is the number of events naming it; a type's the number of events of that type |
| Display.DisplayRankings | app.js:361-368 | at most ten repositories, non-increasing, none left out outnumbering one shown; every type listed once, non-increasing |
| Display.DayKeysCount | app.js:374 | the active days are exactly the days of the events, never more than the events |
| Display.DayHighlights | app.js:153-164 | a day shows as many types as it has up to three and as many repositories up to two, each a type it counted or a repository it touched |
| Display.TimelineHighlights | app.js:153-164 | each day shows at most three types and two repositories, each non-increasing, none passed over for a smaller count |
| Summaries.SummarizeEvents | gh-summary.mjs:147-159 | the loop's result is the summary function of the events |
| Summaries.SummarizeCounts | gh-org-summary.mjs:337-350 | under each day, a key's count is the number of listed events of that day with that key, and no key appears twice; days are distinct and present exactly when a listed event falls on them |
| Summaries.SummarizeSkipsUnlisted | gh-summary.mjs:151 | events whose type is not listed leave the result unchanged |
| Summaries.CountInEffect | gh-summary.mjs:153-156 | counting under one day changes that day's count of that key only, creating the day if missing |
| Summaries.KeyRoundTrip | gh-summary.mjs:207 | `repo::type` splits back into repository and type when neither `repo:` nor the type holds `::` |
| Summaries.KeyRoundTripFails | gh-org-summary.mjs:480 | when the repository followed by one colon holds `::`, the first part is not the repository |
| Summaries.KeyTypeCut | gh-org-summary.mjs:480 | when only the type holds `::`, the first part is the repository and the second the type up to its first `::` |
| Summaries.KeyRoundTripCounterexample | gh-summary.mjs:155-207 | repository `a:` with type `push` splits into `a` and `:push` |
| Summaries.PrintOrder | gh-summary.mjs:203-208 | for the summary of any events, days print in strictly ascending order, each once; within a day every counted key prints exactly once, in code-unit order |
| Details.DetailedEvents | gh-org-summary.mjs:352-392 | the loop's result is the detailed-lines function of the events |
| Details.DescribeInto | gh-summary.mjs:170-181 | one event's lines are pushed onto the list after what it held |
| Details.PushCommits | gh-summary.mjs:172-175 | a push pushes one line per commit, in commit order, after what the list held |
| Details.RecordEffect | gh-summary.mjs:167-169 | recording appends lines only under that day and repository, creating the list when missing |
| Details.DetailedLines | gh-summary.mjs:161-184 | under each day and repository are exactly the lines of the listed events of that day and repository, in event order |
| Details.DetailedHasList | gh-summary.mjs:167-169 | a list exists exactly when a listed event falls on the day and names the repository, even a push with no commits |
| Details.DescribeShape | gh-summary.mjs:171-181 | a push gives one `commit: <first line>` line per commit; any other event one line starting with its type |
| Details.UserLineBare | gh-summary.mjs:178-180 | in the user script the line is the bare type exactly when no object has a non-empty title |
| Details.OrgLineUrl | gh-org-summary.mjs:375-389 | in the org script the line ends with the URL of the last object present |
| Details.DetailedKeysOnce | gh-summary.mjs:161-169 | the detailed map never holds a day twice, nor a repository twice within a day |
| Details.DetailedPrintOrder | gh-summary.mjs:192-194 | for the detailed lines of any events, days print in strictly ascending order, each once; a day's repositories print sorted by their entry strings, each once; nothing dropped or repeated |
| Details.EntryOrderFollowsNames | gh-summary.mjs:194 | for names whose characters sort after the comma, entries print in name order |
| Details.EntryOrderCounterexample | gh-org-summary.mjs:467 | `a+` sorts after `a` as a name but its entry prints first |
| OrgTotals.Tallies | gh-org-summary.mjs:445-461 | the loops' result is the totals function of the members' fetches |
| OrgTotals.TotalsMeaning | gh-org-summary.mjs:449-461 | the total is the number of events; a member's count is its events and a repository's the events in it; both counters add up to the total, each key once |
| OrgTotals.ProjectCountsEffect | gh-org-summary.mjs:458-461 | counting a member's events adds each to its repository once |
| OrgTotals.TopContributorsMeaning | gh-org-summary.mjs:494-500 | the top list has min(distinct logins, 10) entries; each count is that login's total over every member entry; non-increasing; none left out outnumbers one printed |
| OrgTotals.TopProjectsMeaning | gh-org-summary.mjs:502-508 | the same for repositories and their event counts |
| Tally.Rank | generate-data.mjs:247-249 | the ranking holds exactly the counter's entries, in non-increasing count order |
| Tally.Top | generate-data.mjs:242-245 | the top list has min(entries, n) entries of the counter, in non-increasing count order |
| Tally.RankKeepsTieOrder | generate-data.mjs:243 | the descending sort is stable: equal counts keep their first-seen order |
| Tally.TopSelectsLargest | app.js:361-363 | top-n keeps at most n entries, all from the counter, none outnumbered by one left out |
| Tally.AddGet | generate-data.mjs:199 | `m.set(k, (m.get(k) \|\| 0) + n)` adds n to k's count and to no other |
| Sorting.SortByStable | generate-data.mjs:239-240 | sorting keeps the relative order of elements with equal keys |
| Args.ParseArgs | gh-summary.mjs:19-36 | the loop's result is the bindings function of the normalized tokens |
| Args.BindingsMeaning | gh-summary.mjs:22-34 | a key is bound exactly when some token is `--key`, to the value of the last such token: the next token when non-empty and not starting with `-`, else `true` |
| Args.NormalizeDashes | gh-summary.mjs:15-17 | no dash look-alike survives, every other character stays, length is kept; a character becomes `-` exactly when it was `-` or a look-alike |
| Args.OrgNormalizeAsWritten | gh-org-summary.mjs:15-17 | as written, `3`, `8`, `D` and the controls U+0010 to U+0016 all become `-`, and no character of that class survives |
| Args.NormalizeIdempotent | gh-summary.mjs:16 | normalizing twice changes nothing more |
| Args.PairBindsValue | gh-summary.mjs:26-31 | `--key value` binds the key to the normalized value when the value starts with neither `-` nor a look-alike |
| Args.OrgPairDropsValue | gh-org-summary.mjs:15-31 | as written, a value starting with `8`, `3`, `D` or a control U+0010 to U+0016 is taken for an option, and its key becomes `true` |
| Args.OrgDaysCounterexample | gh-org-summary.mjs:16 | as written, `--days 30` reads `days` as `true` |
| Args.OrgControlCounterexample | gh-org-summary.mjs:16 | as written, `--org` followed by U+0013 and `x` reads `org` as `true` |
| Args.OrgDaysIntended | gh-summary.mjs:16 | with the Unicode dash class, `--days 30` reads `"30"` |
| OrgName.CleanOrgName | gh-org-summary.mjs:51-70 | after the host, `orgs/` and one trailing slash are removed, the name kept is the first non-empty `/` part (written `usds` for any spelling of `usds`), or the whole remainder when every part is empty; the lowercase name is the lowercase of the displayed one; a slash survives only in a name made of slashes alone |
| OrgName.FirstNonEmpty | gh-org-summary.mjs:59 | the first part that is not empty, preceded only by empty parts; none when every part is empty |
| OrgName.CleanOrgUrl | gh-org-summary.mjs:53-68 | `http(s)://host/orgs/<org>/` cleans to the org as written and its lowercase (for an org other than `usds`) |
| OrgName.CleanOrgFirstSegment | gh-org-summary.mjs:51-70 | `http(s)://host/<org>` followed by nothing or by `/...`, such as a repository URL, cleans to `<org>` and its lowercase (for an org other than `orgs`; `usds` in any spelling gives `usds`) |
| OrgName.StripHostOf | gh-org-summary.mjs:54 | `http(s)://`, a non-empty slash-free host and the slash after it are removed, leaving the rest |
| OrgName.UsdsExample | gh-org-summary.mjs:62-64 | `USDS` becomes `usds` in both fields |
| OrgName.SegmentShape | gh-org-summary.mjs:59 | the segment holds a slash only when the name is all slashes (and is then the name); a slash-free name is its own segment |
| OrgName.CleanOrgNameIdempotent | gh-org-summary.mjs:51-70 | cleaning a slash-free cleaned name again gives it back |
| Yaml.ParseYaml | generate-data.mjs:12-54 | the loop's result is the line-by-line parse function of the text |
| Yaml.ApplyLine | generate-data.mjs:29-49 | popping the frames not shallower than the line and then setting the key is the line's effect on the store and the stack |
| Yaml.Pop | generate-data.mjs:30-32 | the stack keeps a prefix whose top is shallower than the line, or the root alone; the first frame popped was not shallower |
| Yaml.PopKeepsShallower | generate-data.mjs:30-32 | the root stays and a frame stays exactly when it is shallower than the line |
| Yaml.ApplyEffect | generate-data.mjs:34-49 | an empty value opens a new object under its key in the parent and pushes its frame; any other value sets the typed value; no other object changes |
| Yaml.IgnoredLines | generate-data.mjs:19-24 | blank lines, comments and lines without a colon change nothing |
| Yaml.ValueKeepsColons | generate-data.mjs:25-27 | the key is the text before the first colon and the value everything after it, colons kept, both trimmed |
| Yaml.Typed | generate-data.mjs:44-48 | `true`/`false` become booleans, numerals numbers, `[]` an array, and other text stays itself; no text is lost, since every typed value is written as the text it was read from |
| Yaml.Step | generate-data.mjs:17-51 | one line keeps the stack well formed: root first, indentations increasing, every object existing |

## Left out

- The network, `fetch`, status texts and console output are left out. Each endpoint is a sequence of responses, and a page's `Link` header is read by `parseLinkHeader` as it arrives.
- Clocks are left out. The cutoff `since`, the window dates and `Date.now()` are parameters, and `generated`/`period` of the report are not modelled.
- Time zones and `Intl.DateTimeFormat`/`toDateString` are left out. The day formatter is a parameter `dayOf` from timestamp to day key, and sorting by `new Date(key)` is taken to order days as their keys do.
- `averagePerDay` is left out because it is floating point with `toFixed`.
- Missing `created_at` is not modelled: every event has an integer timestamp.
- Object key order in JavaScript (integer-like keys first) is not modelled. Counters keep insertion order.
- Keys inherited from `Object.prototype` (`__proto__`, `constructor`, `toString`, …) are not modelled. Every object is a plain map, so a `--__proto__` argument, a `__proto__:` YAML key or a `ConstructorEvent` type is stored and counted like any other key. In JavaScript the first two are swallowed, and the count for `constructor` starts from the inherited function. GitHub does not produce such event types, and the model assumes no argument or configuration key takes such a name.
- `toLowerCase` is modelled on ASCII letters only.
- Strings compare by Unicode scalar, not UTF-16 code unit. The two agree inside the Basic Multilingual Plane.
- Yaml.Typed: `Number(value)` is not evaluated. Numbers keep their text, and only plain decimal numerals count as numeric. Hexadecimal, exponents, `Infinity` and `isNaN`'s whitespace rules are not covered.
- The org script's member discovery, web-page scraping and `Set` merge are left out. They are I/O over HTML with no logic beyond it.
- The org script's user details, the organization existence check and the per-member summary print format are left out because they are console output.
- The top-level argument handling is left out: `String(args.org)`, `Number(args.days)`, `--help`, the include list split and the exits.
- Aggregate.Included: `include_types` that is not an array behaves as absent.
- In the org script's detailed lines, an absent title is the text `undefined`. Null and absent are not told apart.
- DOM rendering, `escapeHtml` and the scheduling helper of app.js are left out because they are display only.
- Args.OrgPairDropsValue: states only that the key becomes `true`. What the value token then binds depends on its later characters.

## Findings

| source | as written | input that shows it | evidently intended | confidence | as-written member | corrected member |
|---|---|---|---|---|---|---|
| gh-org-summary.mjs:15-17 | the class holds raw control characters where the `\u` escapes of gh-summary.mjs:16 belong: the range U+0010 to U+0015, then U+0012, U+0015, `8`, U+0016, `3`, U+0010 and `D`. So `8`, `3`, `D` and U+0010 to U+0016 become `-` | `--days 30` becomes `--days -0`, so `days` is `true` (one day back); `--org` followed by U+0013 and `x` becomes `--org -x`, so `org` is `true` (Args.OrgControlCounterexample) | the Unicode dash class of gh-summary.mjs:15-17, leaving `30` intact | high, not executed | Args.OrgDaysCounterexample | Args.OrgDaysIntended |

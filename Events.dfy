/** The GitHub event records the scripts read, reduced to the fields they touch.
    Timestamps (`created_at`) are integers; an absent or empty `repo.name` is the
    empty string; absent optional payload fields are `None`. */
module Events {
  import opened Wrappers
  import opened Strings

  /** One entry of `payload.commits` of a push. */
  datatype Commit = Commit(message: Option<string>, sha: Option<string>, url: Option<string>)

  /** `payload.issue`, `payload.pull_request` or `payload.discussion`. */
  datatype Item = Item(title: Option<string>, number: Option<int>, htmlUrl: Option<string>)

  datatype Payload = Payload(
    commits: Option<seq<Commit>>,
    issue: Option<Item>,
    pullRequest: Option<Item>,
    discussion: Option<Item>)

  datatype RawEvent = RawEvent(
    kind: string,          // `type`, e.g. "PushEvent"
    createdAt: int,        // `created_at`
    repoName: string,      // `repo.name`, "" when absent
    isPublic: Option<bool>,// `public`
    payload: Payload)

  const Unknown: string := "unknown"

  /** `e.repo?.name || 'unknown'`. */
  function RepoName(e: RawEvent): (r: string)
    ensures r != ""
    ensures e.repoName != "" ==> r == e.repoName
    ensures e.repoName == "" ==> r == Unknown
  {
    if e.repoName == "" then Unknown else e.repoName
  }

  /** `e.repo?.name?.includes('/') && e.public === false`: a repository with an
      owner that is marked non-public; an absent `public` counts as public. */
  predicate IsPrivate(e: RawEvent)
    ensures IsPrivate(e) <==> '/' in e.repoName && e.isPublic == Some(false)
  {
    ContainsChar(e.repoName, '/');
    Contains(e.repoName, "/") && e.isPublic == Some(false)
  }

  /** The `created_at` of every event lies in the half-open window from `since`. */
  predicate AllSince(events: seq<RawEvent>, since: int) {
    forall i :: 0 <= i < |events| ==> events[i].createdAt >= since
  }
}

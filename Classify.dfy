/** `classifyEvent`, identical in all four scripts: a thirteen-entry table from
    GitHub event kind to activity label, with a fallback for any other kind. */
module Classify {
  import opened Strings
  import opened Events

  /** The kinds of the table, in the order of the `switch`. */
  const Kinds: seq<string> := [
    "PushEvent", "IssuesEvent", "IssueCommentEvent", "PullRequestEvent",
    "PullRequestReviewEvent", "PullRequestReviewCommentEvent", "CommitCommentEvent",
    "DiscussionEvent", "DiscussionCommentEvent", "GollumEvent", "CreateEvent",
    "DeleteEvent", "ReleaseEvent"]

  /** The label of each kind of `Kinds`, position by position. */
  const Labels: seq<string> := [
    "commit", "issue", "issue comment", "pull request",
    "pr review", "pr review comment", "commit comment",
    "discussion", "discussion comment", "wiki", "create",
    "delete", "release"]

  /** `kind.replace(/Event$/, '')`. */
  function StripEventSuffix(kind: string): (r: string)
    ensures EndsWith(kind, "Event") ==> |r| == |kind| - 5 && kind == r + "Event"
    ensures !EndsWith(kind, "Event") ==> r == kind
  {
    if EndsWith(kind, "Event") then kind[..|kind| - 5] else kind
  }

  /** The `switch`: the label of the first kind of the table, from position `i`
      on, equal to `kind`, or the fallback when there is none. */
  function LabelFrom(kind: string, i: nat): string
    requires i <= |Kinds|
    decreases |Kinds| - i
  {
    if i == |Kinds| then ToLower(StripEventSuffix(kind))
    else if Kinds[i] == kind then Labels[i]
    else LabelFrom(kind, i + 1)
  }

  /** The label of an event kind. */
  function ClassifyKind(kind: string): string {
    LabelFrom(kind, 0)
  }

  /** `classifyEvent(e)`: depends on `e.type` and nothing else. A kind of the table
      gets the label at its position, any other kind loses one trailing `Event`
      and is lowercased; either way the label is lowercase. */
  function ClassifyEvent(e: RawEvent): (r: string)
    ensures forall i :: 0 <= i < |Kinds| && Kinds[i] == e.kind ==> r == Labels[i]
    ensures e.kind !in Kinds ==> r == ToLower(StripEventSuffix(e.kind))
    ensures IsLower(r)
  {
    ClassifyTable();
    ClassifyIsLower(e.kind);
    if e.kind in Kinds then ClassifyKind(e.kind)
    else ClassifyFallback(e.kind); ClassifyKind(e.kind)
  }

  /** Each of the thirteen kinds gets its fixed label. */
  lemma ClassifyTable()
    ensures |Kinds| == |Labels| == 13
    ensures forall i :: 0 <= i < 13 ==> ClassifyKind(Kinds[i]) == Labels[i]
  {
    forall i | 0 <= i < 13 ensures ClassifyKind(Kinds[i]) == Labels[i] {
      if i < 4 {
        IssueAndPushLabels();
      } else if i < 6 {
        ReviewLabels();
      } else if i < 9 {
        CommentLabels();
      } else if i < 11 {
        WikiAndCreateLabels();
      } else {
        DeleteAndReleaseLabels();
      }
    }
  }

  lemma IssueAndPushLabels()
    ensures ClassifyKind("PushEvent") == "commit"
    ensures ClassifyKind("IssuesEvent") == "issue"
    ensures ClassifyKind("IssueCommentEvent") == "issue comment"
    ensures ClassifyKind("PullRequestEvent") == "pull request"
  {
  }

  lemma ReviewLabels()
    ensures ClassifyKind("PullRequestReviewEvent") == "pr review"
    ensures ClassifyKind("PullRequestReviewCommentEvent") == "pr review comment"
  {
    assert LabelFrom("PullRequestReviewEvent", 4) == "pr review";
    assert LabelFrom("PullRequestReviewCommentEvent", 5) == "pr review comment";
  }

  lemma CommentLabels()
    ensures ClassifyKind("CommitCommentEvent") == "commit comment"
    ensures ClassifyKind("DiscussionEvent") == "discussion"
    ensures ClassifyKind("DiscussionCommentEvent") == "discussion comment"
  {
    assert LabelFrom("CommitCommentEvent", 6) == "commit comment";
    assert LabelFrom("DiscussionEvent", 7) == "discussion";
    assert LabelFrom("DiscussionCommentEvent", 8) == "discussion comment";
    assert LabelFrom("DiscussionCommentEvent", 4) == "discussion comment";
  }

  lemma WikiAndCreateLabels()
    ensures ClassifyKind("GollumEvent") == "wiki"
    ensures ClassifyKind("CreateEvent") == "create"
  {
    assert LabelFrom("GollumEvent", 9) == "wiki";
    assert LabelFrom("GollumEvent", 4) == "wiki";
    assert LabelFrom("CreateEvent", 10) == "create";
    assert LabelFrom("CreateEvent", 5) == "create";
  }

  lemma DeleteAndReleaseLabels()
    ensures ClassifyKind("DeleteEvent") == "delete"
    ensures ClassifyKind("ReleaseEvent") == "release"
  {
    assert LabelFrom("DeleteEvent", 11) == "delete";
    assert LabelFrom("DeleteEvent", 5) == "delete";
    assert LabelFrom("ReleaseEvent", 12) == "release";
    assert LabelFrom("ReleaseEvent", 6) == "release";
  }

  /** A kind that is not in the table from position `i` on gets the fallback. */
  lemma {:induction false} FallbackFrom(kind: string, i: nat)
    requires i <= |Kinds| && forall j :: i <= j < |Kinds| ==> Kinds[j] != kind
    ensures LabelFrom(kind, i) == ToLower(StripEventSuffix(kind))
    decreases |Kinds| - i
  {
    if i < |Kinds| {
      FallbackFrom(kind, i + 1);
    }
  }

  /** Any other kind loses one trailing "Event" and is lowercased. */
  lemma ClassifyFallback(kind: string)
    requires kind !in Kinds
    ensures ClassifyKind(kind) == ToLower(StripEventSuffix(kind))
    ensures |ClassifyKind(kind)| == if EndsWith(kind, "Event") then |kind| - 5 else |kind|
  {
    FallbackFrom(kind, 0);
  }

  lemma LabelsAreLower()
    ensures forall i :: 0 <= i < |Labels| ==> IsLower(Labels[i])
  {
    FirstLabelsLower();
    MiddleLabelsLower();
    LastLabelsLower();
  }

  lemma FirstLabelsLower()
    ensures IsLower("commit") && IsLower("issue") && IsLower("issue comment") && IsLower("pull request")
  {
  }

  lemma MiddleLabelsLower()
    ensures IsLower("pr review") && IsLower("pr review comment") && IsLower("commit comment")
  {
  }

  lemma LastLabelsLower()
    ensures IsLower("discussion") && IsLower("discussion comment") && IsLower("wiki")
    ensures IsLower("create") && IsLower("delete") && IsLower("release")
  {
  }

  /** Every label is lowercase, so it can match an include list that was lowercased. */
  lemma ClassifyIsLower(kind: string)
    ensures IsLower(ClassifyKind(kind))
  {
    if kind in Kinds {
      ClassifyTable();
      LabelsAreLower();
      var i :| 0 <= i < 13 && Kinds[i] == kind;
      assert ClassifyKind(kind) == Labels[i];
    } else {
      var r := ToLower(StripEventSuffix(kind));
      assert forall i :: 0 <= i < |r| ==> !IsUpper(r[i]);
    }
  }
}

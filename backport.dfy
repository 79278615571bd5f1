/**
 * One backport task from start to end (src/backport.ts): the fatal steps
 * up to the creation of the pull request, the non-fatal follow-ups after
 * it, the failure comment and the removal of the work directory.  Every
 * answer of git, of the file system and of the GitHub API is an input.
 */
module Backport {
  import opened Wrappers
  import opened Seqs
  import opened JsString
  import opened Constants
  import opened NextcloudUtils
  import opened GithubUtils

  const BACKPORT_PREFIX: string := "backport/"

  /** `backport/<prNumber>/<branch>`: the digits between the two slashes
      read back as the pull request number. */
  function BackportBranch(task: Task): (b: string)
    ensures var digits := NatToString(task.prNumber);
            && StartsWith(b, BACKPORT_PREFIX)
            && EndsWith(b, "/" + task.branch)
            && |b| == |BACKPORT_PREFIX| + |digits| + 1 + |task.branch|
            && b[|BACKPORT_PREFIX|..|BACKPORT_PREFIX| + |digits|] == digits
            && IsNumeral(digits) && DigitsValue(digits) == task.prNumber
  {
    var digits := NatToString(task.prNumber);
    var b := BACKPORT_PREFIX + digits + "/" + task.branch;
    NatToStringRoundTrip(task.prNumber);
    assert b == BACKPORT_PREFIX + (digits + ("/" + task.branch));
    StartsWithConcat(BACKPORT_PREFIX, digits + ("/" + task.branch));
    assert b == (BACKPORT_PREFIX + digits) + ("/" + task.branch);
    EndsWithConcat(BACKPORT_PREFIX + digits, "/" + task.branch);
    assert b[|BACKPORT_PREFIX|..|BACKPORT_PREFIX| + |digits|] == (BACKPORT_PREFIX + digits)[|BACKPORT_PREFIX|..];
    b
  }

  /** The steps whose failure ends the task, in the order they run. */
  datatype Stage = Clone | CherryPick | CheckChanges | Push | OpenPullRequest

  const STAGES: seq<Stage> := [Clone, CherryPick, CheckChanges, Push, OpenPullRequest]

  /** The answers the fatal steps get: the work directory of the clone, the
      cherry-pick result, whether the branch differs from `origin/<branch>`,
      the push error if any, the reviews of the original and the number of
      the created pull request. */
  datatype FatalAnswers = FatalAnswers(
    clone: Result<string, string>,
    cherryPick: Result<CherryPickResult, string>,
    hasChanges: Result<bool, string>,
    pushError: Option<string>,
    reviews: Result<seq<Review>, string>,
    created: Result<nat, string>)

  /** Every stage succeeds. */
  predicate AllStagesOk(a: FatalAnswers) {
    a.clone.Success? && a.cherryPick.Success? && a.hasChanges == Success(true)
    && a.pushError.None? && a.reviews.Success? && a.created.Success?
  }

  predicate StageOk(stage: Stage, a: FatalAnswers) {
    match stage
    case Clone => a.clone.Success?
    case CherryPick => a.cherryPick.Success?
    case CheckChanges => a.hasChanges == Success(true)
    case Push => a.pushError.None?
    case OpenPullRequest => a.reviews.Success? && a.created.Success?
  }

  const NO_CHANGES: string := "No changes found in backport branch"

  /** The message a failed stage rethrows. */
  function StageError(stage: Stage, task: Task, a: FatalAnswers): string
    requires !StageOk(stage, a)
  {
    match stage
    case Clone => "Failed to clone repository: " + a.clone.error
    case CherryPick => "Failed to cherry pick commits: " + a.cherryPick.error
    case CheckChanges =>
      "Failed to check for changes with origin/" + task.branch + ": "
      + (if a.hasChanges.Failure? then a.hasChanges.error else NO_CHANGES)
    case Push => "Failed to push branch " + BackportBranch(task) + ": " + a.pushError.value
    case OpenPullRequest =>
      "Failed to create pull request: " + (if a.reviews.Failure? then a.reviews.error else a.created.error)
  }

  /** The change counts of the original and of the backport, whether the
      picked commits carry `[skip ci]` and whether some of them are empty. */
  datatype Comparison = Comparison(original: PrChanges, backport: PrChanges, skipCi: bool, emptyCommits: bool)

  /** The answers the non-fatal steps get.  `commitTitle` is the title of the
      single picked commit (`''` when git gives none). */
  datatype OtherAnswers = OtherAnswers(
    commitTitle: string,
    reviewRequestOk: bool,
    repoLabels: Result<seq<string>, string>,
    prLabels: Result<seq<string>, string>,
    milestones: Result<seq<Milestone>, string>,
    comparison: Result<Comparison, string>,
    dirExists: bool)

  /** `diffChanges`: some change count differs. */
  predicate DiffChanges(original: PrChanges, backport: PrChanges)
    ensures DiffChanges(original, backport) <==> original != backport
  {
    original.additions != backport.additions
    || original.deletions != backport.deletions
    || original.changedFiles != backport.changedFiles
  }

  /** The body is rewritten when anything needs the reader's attention. */
  predicate NeedsBodyUpdate(hasConflicts: bool, diffChanges: bool, emptyCommits: bool, skipCi: bool) {
    hasConflicts || diffChanges || emptyCommits || skipCi
  }

  /** The title of the backport: the commit title for a partial request of
      exactly one commit, unless git gives an empty one. */
  function ChosenTitle(task: Task, isFullRequest: bool, commitTitle: string): (r: string)
    ensures r != task.prTitle ==> !isFullRequest && |task.commits| == 1 && r == commitTitle
    ensures !isFullRequest && |task.commits| == 1 && commitTitle != "" ==> r == commitTitle
    ensures isFullRequest || |task.commits| != 1 || commitTitle == "" ==> r == task.prTitle
  {
    if !isFullRequest && |task.commits| == 1 then
      if commitTitle != "" then commitTitle else task.prTitle
    else task.prTitle
  }

  /** The API calls that change something on GitHub. */
  datatype Call =
    | CreatePullRequest(fields: PullRequestFields)
    | RequestReviewers(prNumber: nat, logins: seq<string>)
    | SetLabels(prNumber: nat, labels: seq<string>)
    | SetMilestone(prNumber: nat, milestone: int)
    | AssignToPR(prNumber: nat, assignees: seq<string>)
    | UpdatePRBody(prNumber: nat, body: string)
    /** The failure comment on the original pull request, whose body is
        `GetFailureCommentBody(task, target, error)`; the call keeps the
        arguments rather than the text. */
    | CommentFailure(task: Task, target: string, error: Option<string>)

  /** The review requests: the reviewers of the original when there are
      any, then the author, unless the first request failed. */
  function ReviewRequests(prNumber: nat, reviewers: seq<string>, author: string, firstOk: bool): (r: seq<Call>)
    ensures AllOfRank(r, 0) && AllFor(r, prNumber)
  {
    (if reviewers != [] then [RequestReviewers(prNumber, reviewers)] else [])
    + (if reviewers == [] || firstOk then [RequestReviewers(prNumber, [author])] else [])
  }

  /** The labels, set when both label listings answered. */
  function LabelRequests(prNumber: nat, other: OtherAnswers): (r: seq<Call>)
    ensures |r| <= 1 && AllOfRank(r, 1) && AllFor(r, prNumber)
  {
    if other.repoLabels.Success? && other.prLabels.Success? then
      [SetLabels(prNumber, Dedup(ReviewHead(other.repoLabels.value) + CarriedLabels(other.prLabels.value)))]
    else []
  }

  /** A milestone is set only when one is found; a failed search or none
      found ends this step. */
  function MilestoneRequests(prNumber: nat, found: Option<int>): (r: seq<Call>)
    ensures |r| <= 1 && AllOfRank(r, 2) && AllFor(r, prNumber)
  {
    match found
    case Some(number) => [SetMilestone(prNumber, number)]
    case None => []
  }

  /** The number of the milestone found for the branch, if any. */
  function FoundMilestone(branch: string, other: OtherAnswers): Option<int> {
    if other.milestones.Success? then
      var found := GetMilestoneFromBase(branch, other.milestones.value);
      if found.Success? && found.value.Some? then Some(found.value.value.number) else None
    else None
  }

  /** On every branch name with a digit, the milestone the pipeline sets is
      the one the lookup as written at src/nextcloudUtils.ts:28 selects. */
  lemma FoundMilestoneAsWritten(branch: string, other: OtherAnswers)
    requires exists i :: 0 <= i < |branch| && IsDigit(branch[i])
    ensures FoundMilestone(branch, other)
            == if other.milestones.Success? then
                 var found := GetMilestoneFromBaseAsWritten(branch, other.milestones.value);
                 if found.Success? && found.value.Some? then Some(found.value.value.number) else None
               else None
  {
    if other.milestones.Success? {
      MilestoneAsWrittenAgrees(branch, other.milestones.value);
    }
  }

  /** The body update the comparison may call for. */
  function BodyRequests(prNumber: nat, task: Task, isFullRequest: bool, hasConflicts: bool, other: OtherAnswers): (r: seq<Call>)
    ensures |r| <= 1 && AllOfRank(r, 4) && AllFor(r, prNumber)
  {
    match other.comparison
    case Failure(_) => []
    case Success(c) =>
      var diff := DiffChanges(c.original, c.backport);
      if NeedsBodyUpdate(hasConflicts, diff, c.emptyCommits, c.skipCi) then
        [UpdatePRBody(prNumber, BackportBody(task.prNumber, hasConflicts, diff, c.emptyCommits, c.skipCi, isFullRequest))]
      else []
  }

  /** The calls after the pull request `prNumber` exists, in order. */
  function FollowUpCalls(task: Task, isFullRequest: bool, prNumber: nat, reviewers: seq<string>,
                         hasConflicts: bool, other: OtherAnswers): seq<Call> {
    ReviewRequests(prNumber, reviewers, task.author, other.reviewRequestOk)
    + LabelRequests(prNumber, other)
    + MilestoneRequests(prNumber, FoundMilestone(task.branch, other))
    + [AssignToPR(prNumber, [task.author])]
    + BodyRequests(prNumber, task, isFullRequest, hasConflicts, other)
  }

  /** The place of a follow-up call in the order of the steps: review
      requests, labels, milestone, assignment, body. */
  function Rank(c: Call): nat {
    match c
    case RequestReviewers(_, _) => 0
    case SetLabels(_, _) => 1
    case SetMilestone(_, _) => 2
    case AssignToPR(_, _) => 3
    case UpdatePRBody(_, _) => 4
    case _ => 5
  }

  /** The calls of one step, in their order. */
  function OfRank(calls: seq<Call>, k: nat): (r: seq<Call>)
    ensures forall i :: 0 <= i < |r| ==> Rank(r[i]) == k
    ensures |r| <= |calls|
  {
    if calls == [] then []
    else (if Rank(calls[0]) == k then [calls[0]] else []) + OfRank(calls[1..], k)
  }

  predicate RanksOrdered(calls: seq<Call>) {
    forall i, j :: 0 <= i < j < |calls| ==> Rank(calls[i]) <= Rank(calls[j])
  }

  predicate AllOfRank(calls: seq<Call>, k: nat) {
    forall i :: 0 <= i < |calls| ==> Rank(calls[i]) == k
  }

  lemma {:induction false} OfRankConcat(a: seq<Call>, b: seq<Call>, k: nat)
    ensures OfRank(a + b, k) == OfRank(a, k) + OfRank(b, k)
    decreases |a|
  {
    if a == [] {
      assert a + b == b;
    } else {
      var head := if Rank(a[0]) == k then [a[0]] else [];
      assert (a + b)[0] == a[0];
      assert (a + b)[1..] == a[1..] + b;
      OfRankConcat(a[1..], b, k);
      calc {
        OfRank(a + b, k);
        head + OfRank(a[1..] + b, k);
        head + (OfRank(a[1..], k) + OfRank(b, k));
        (head + OfRank(a[1..], k)) + OfRank(b, k);
        OfRank(a, k) + OfRank(b, k);
      }
    }
  }

  lemma {:induction false} OfRankAll(a: seq<Call>, j: nat, k: nat)
    requires AllOfRank(a, j)
    ensures OfRank(a, k) == if j == k then a else []
    decreases |a|
  {
    if a != [] {
      OfRankAll(a[1..], j, k);
      assert a == [a[0]] + a[1..];
    }
  }

  /** The assignment is a part of rank 3. */
  lemma AssignmentPart(prNumber: nat, assignees: seq<string>)
    ensures AllOfRank([AssignToPR(prNumber, assignees)], 3) && AllFor([AssignToPR(prNumber, assignees)], prNumber)
  {
  }

  /** Concatenating parts of increasing rank keeps the order. */
  lemma RanksOrderedConcat(a: seq<Call>, b: seq<Call>, k: nat)
    requires RanksOrdered(a) && forall i :: 0 <= i < |a| ==> Rank(a[i]) <= k
    requires AllOfRank(b, k)
    ensures RanksOrdered(a + b)
  {
  }

  /** The calls of one rank in five parts of ranks 0 to 4. */
  lemma OfRankParts(r: seq<Call>, l: seq<Call>, m: seq<Call>, a: seq<Call>, b: seq<Call>, k: nat)
    requires AllOfRank(r, 0) && AllOfRank(l, 1) && AllOfRank(m, 2) && AllOfRank(a, 3) && AllOfRank(b, 4)
    ensures OfRank(r + l + m + a + b, k)
            == (if k == 0 then r else []) + (if k == 1 then l else []) + (if k == 2 then m else [])
               + (if k == 3 then a else []) + (if k == 4 then b else [])
  {
    OfRankConcat(r + l + m + a, b, k);
    OfRankConcat(r + l + m, a, k);
    OfRankConcat(r + l, m, k);
    OfRankConcat(r, l, k);
    OfRankAll(r, 0, k);
    OfRankAll(l, 1, k);
    OfRankAll(m, 2, k);
    OfRankAll(a, 3, k);
    OfRankAll(b, 4, k);
  }

  /** The calls are all addressed to the pull request `p`. */
  predicate AllFor(calls: seq<Call>, p: nat) {
    forall i :: 0 <= i < |calls| ==>
      && (calls[i].RequestReviewers? || calls[i].SetLabels? || calls[i].SetMilestone?
          || calls[i].AssignToPR? || calls[i].UpdatePRBody?)
      && calls[i].prNumber == p
  }

  /** Five parts of ranks 0 to 4, put together, are in rank order. */
  lemma PartsInOrder(r: seq<Call>, l: seq<Call>, m: seq<Call>, a: seq<Call>, b: seq<Call>, p: nat)
    requires AllOfRank(r, 0) && AllOfRank(l, 1) && AllOfRank(m, 2) && AllOfRank(a, 3) && AllOfRank(b, 4)
    requires AllFor(r, p) && AllFor(l, p) && AllFor(m, p) && AllFor(a, p) && AllFor(b, p)
    ensures var calls := r + l + m + a + b;
            && RanksOrdered(calls)
            && (forall i :: 0 <= i < |calls| ==> Rank(calls[i]) <= 4)
            && AllFor(calls, p)
            && (b != [] ==> calls[|calls| - 1] == b[|b| - 1])
  {
    RanksOrderedConcat(r, l, 1);
    RanksOrderedConcat(r + l, m, 2);
    RanksOrderedConcat(r + l + m, a, 3);
    RanksOrderedConcat(r + l + m + a, b, 4);
  }

  /** The calls of each rank in five parts of ranks 0 to 4 are exactly
      that part. */
  lemma PartsOfRank(r: seq<Call>, l: seq<Call>, m: seq<Call>, a: seq<Call>, b: seq<Call>)
    requires AllOfRank(r, 0) && AllOfRank(l, 1) && AllOfRank(m, 2) && AllOfRank(a, 3) && AllOfRank(b, 4)
    ensures var calls := r + l + m + a + b;
            && OfRank(calls, 0) == r && OfRank(calls, 1) == l && OfRank(calls, 2) == m
            && OfRank(calls, 3) == a && OfRank(calls, 4) == b
            && (forall k: nat :: k > 4 ==> OfRank(calls, k) == [])
  {
    OfRankParts(r, l, m, a, b, 0);
    OfRankParts(r, l, m, a, b, 1);
    OfRankParts(r, l, m, a, b, 2);
    OfRankParts(r, l, m, a, b, 3);
    OfRankParts(r, l, m, a, b, 4);
    forall k: nat | k > 4
      ensures OfRank(r + l + m + a + b, k) == []
    {
      OfRankParts(r, l, m, a, b, k);
    }
  }

  /** The follow-up calls come in the order of the steps: the review
      requests (at most two), at most one label call, at most one milestone
      call, exactly one assignment of the author, at most one body update,
      last; the calls of each step are exactly those the step's own function
      gives, so each depends only on the answers that step reads. */
  lemma FollowUpOrder(task: Task, isFullRequest: bool, prNumber: nat, reviewers: seq<string>,
                      hasConflicts: bool, other: OtherAnswers)
    ensures var calls := FollowUpCalls(task, isFullRequest, prNumber, reviewers, hasConflicts, other);
            && RanksOrdered(calls)
            && (forall i :: 0 <= i < |calls| ==> Rank(calls[i]) <= 4)
            && AllFor(calls, prNumber)
            && OfRank(calls, 0) == ReviewRequests(prNumber, reviewers, task.author, other.reviewRequestOk)
            && OfRank(calls, 1) == LabelRequests(prNumber, other)
            && OfRank(calls, 2) == MilestoneRequests(prNumber, FoundMilestone(task.branch, other))
            && OfRank(calls, 3) == [AssignToPR(prNumber, [task.author])]
            && OfRank(calls, 4) == BodyRequests(prNumber, task, isFullRequest, hasConflicts, other)
            && (forall k: nat :: k > 4 ==> OfRank(calls, k) == [])
            && |OfRank(calls, 0)| <= 2 && |OfRank(calls, 1)| <= 1 && |OfRank(calls, 2)| <= 1
            && |OfRank(calls, 4)| <= 1
            && (OfRank(calls, 4) != [] ==> calls[|calls| - 1] == OfRank(calls, 4)[0])
  {
    var r := ReviewRequests(prNumber, reviewers, task.author, other.reviewRequestOk);
    var l := LabelRequests(prNumber, other);
    var m := MilestoneRequests(prNumber, FoundMilestone(task.branch, other));
    var a := [AssignToPR(prNumber, [task.author])];
    var b := BodyRequests(prNumber, task, isFullRequest, hasConflicts, other);
    assert FollowUpCalls(task, isFullRequest, prNumber, reviewers, hasConflicts, other) == r + l + m + a + b;
    assert |r| <= 2;
    AssignmentPart(prNumber, [task.author]);
    PartsInOrder(r, l, m, a, b, prNumber);
    PartsOfRank(r, l, m, a, b);
  }

  /** Changing only the milestone listing changes only the milestone call. */
  lemma MilestoneOnlyChangesItsStep(task: Task, isFullRequest: bool, prNumber: nat, reviewers: seq<string>,
                                    hasConflicts: bool, other: OtherAnswers, milestones: Result<seq<Milestone>, string>)
    ensures var before := FollowUpCalls(task, isFullRequest, prNumber, reviewers, hasConflicts, other);
            var after := FollowUpCalls(task, isFullRequest, prNumber, reviewers, hasConflicts, other.(milestones := milestones));
            forall k: nat :: k != 2 ==> OfRank(after, k) == OfRank(before, k)
  {
    var other' := other.(milestones := milestones);
    FollowUpOrder(task, isFullRequest, prNumber, reviewers, hasConflicts, other);
    FollowUpOrder(task, isFullRequest, prNumber, reviewers, hasConflicts, other');
    assert LabelRequests(prNumber, other') == LabelRequests(prNumber, other);
    assert BodyRequests(prNumber, task, isFullRequest, hasConflicts, other')
        == BodyRequests(prNumber, task, isFullRequest, hasConflicts, other);
    var before := FollowUpCalls(task, isFullRequest, prNumber, reviewers, hasConflicts, other);
    var after := FollowUpCalls(task, isFullRequest, prNumber, reviewers, hasConflicts, other');
    forall k: nat | k != 2
      ensures OfRank(after, k) == OfRank(before, k)
    {
      if k == 0 {
      } else if k == 1 {
      } else if k == 3 {
      } else if k == 4 {
      } else {
        assert k > 4;
      }
    }
  }

  /** Changing only the comparison changes only the body update, the last
      call. */
  lemma ComparisonOnlyChangesBody(task: Task, isFullRequest: bool, prNumber: nat, reviewers: seq<string>,
                                  hasConflicts: bool, other: OtherAnswers, comparison: Result<Comparison, string>)
    ensures var before := FollowUpCalls(task, isFullRequest, prNumber, reviewers, hasConflicts, other);
            var after := FollowUpCalls(task, isFullRequest, prNumber, reviewers, hasConflicts, other.(comparison := comparison));
            forall k: nat :: k != 4 ==> OfRank(after, k) == OfRank(before, k)
  {
    var other' := other.(comparison := comparison);
    FollowUpOrder(task, isFullRequest, prNumber, reviewers, hasConflicts, other);
    FollowUpOrder(task, isFullRequest, prNumber, reviewers, hasConflicts, other');
    assert LabelRequests(prNumber, other') == LabelRequests(prNumber, other);
    assert FoundMilestone(task.branch, other') == FoundMilestone(task.branch, other);
    var before := FollowUpCalls(task, isFullRequest, prNumber, reviewers, hasConflicts, other);
    var after := FollowUpCalls(task, isFullRequest, prNumber, reviewers, hasConflicts, other');
    forall k: nat | k != 4
      ensures OfRank(after, k) == OfRank(before, k)
    {
      if k == 0 {
      } else if k == 1 {
      } else if k == 2 {
      } else if k == 3 {
      } else {
        assert k > 4;
      }
    }
  }

  /** The comparison of the original and the backport pull request and
      the body update it may call for: the body is rewritten, once, exactly
      when the comparison answered and there are conflicts, changed counts,
      empty commits or `[skip ci]` commits; the new body is the one
      `getBackportBody` builds from those flags. */
  method BodyUpdate(prNumber: nat, task: Task, isFullRequest: bool, hasConflicts: bool, other: OtherAnswers)
    returns (update: seq<Call>)
    ensures |update| <= 1
    ensures update != [] <==>
              other.comparison.Success?
              && (hasConflicts || DiffChanges(other.comparison.value.original, other.comparison.value.backport)
                  || other.comparison.value.emptyCommits || other.comparison.value.skipCi)
    ensures update != [] ==>
              var c := other.comparison.value;
              update == [UpdatePRBody(prNumber, BackportBody(task.prNumber, hasConflicts, DiffChanges(c.original, c.backport),
                                                              c.emptyCommits, c.skipCi, isFullRequest))]
    ensures update == BodyRequests(prNumber, task, isFullRequest, hasConflicts, other)
  {
    update := [];
    if other.comparison.Success? {
      var c := other.comparison.value;
      var diffChanges := DiffChanges(c.original, c.backport);
      if hasConflicts || diffChanges || c.emptyCommits || c.skipCi {
        var body := GetBackportBody(task.prNumber, hasConflicts, diffChanges, c.emptyCommits, c.skipCi, isFullRequest);
        update := [UpdatePRBody(prNumber, body)];
      }
    }
  }

  /** The review requests: the reviewers of the original when there are
      any, then its author unless that first request failed; both sit in
      one `try`, so a failure skips the rest and ends only this step. */
  method RequestReviews(prNumber: nat, reviewers: seq<string>, author: string, firstOk: bool)
    returns (calls: seq<Call>)
    ensures |calls| == (if reviewers != [] then 1 else 0) + (if reviewers == [] || firstOk then 1 else 0)
    ensures reviewers != [] ==> calls[0] == RequestReviewers(prNumber, reviewers)
    ensures reviewers == [] || firstOk ==> calls[|calls| - 1] == RequestReviewers(prNumber, [author])
    ensures forall i :: 0 <= i < |calls| ==> calls[i].RequestReviewers? && calls[i].logins != []
    ensures calls == ReviewRequests(prNumber, reviewers, author, firstOk)
  {
    calls := [];
    if reviewers != [] {
      calls := calls + [RequestReviewers(prNumber, reviewers)];
    }
    if reviewers == [] || firstOk {
      calls := calls + [RequestReviewers(prNumber, [author])];
    }
  }

  /** The labels are set, once, exactly when both listings answered; the
      set holds the to-review column label when the repository has it and
      the carried labels of the original, each once, never the backport
      request label. */
  method LabelUpdate(prNumber: nat, other: OtherAnswers) returns (calls: seq<Call>)
    ensures |calls| <= 1
    ensures calls != [] <==> other.repoLabels.Success? && other.prLabels.Success?
    ensures forall i :: 0 <= i < |calls| ==> calls[i].SetLabels?
    ensures calls != [] ==>
              var labels := calls[0].labels;
              && Distinct(labels) && LABEL_BACKPORT !in labels
              && (LABEL_TO_REVIEW in labels <==> LABEL_TO_REVIEW in other.repoLabels.value)
              && (forall i :: 0 <= i < |labels| ==>
                    labels[i] == LABEL_TO_REVIEW || (labels[i] in other.prLabels.value && IsCarriedLabel(labels[i])))
              && (forall i :: 0 <= i < |other.prLabels.value| && IsCarriedLabel(other.prLabels.value[i]) ==>
                    other.prLabels.value[i] in labels)
    ensures calls == LabelRequests(prNumber, other)
  {
    calls := [];
    if other.repoLabels.Success? && other.prLabels.Success? {
      var labels := GetLabelsForPR(other.prLabels.value, other.repoLabels.value);
      calls := [SetLabels(prNumber, labels)];
    }
  }

  /** The milestone, set when one is found for the target branch: a listed
      milestone whose title holds the version of the branch and sorts first
      among those; nothing is set when the listing failed, the branch has
      no version or no title holds it. */
  method MilestoneUpdate(prNumber: nat, branch: string, other: OtherAnswers) returns (calls: seq<Call>)
    ensures |calls| <= 1
    ensures calls == [] <==> other.milestones.Failure? || ExtractVersion(branch).None?
                             || forall j :: 0 <= j < |other.milestones.value| ==>
                                  !Includes(other.milestones.value[j].title, ExtractVersion(branch).value)
    ensures calls != [] ==>
              && calls[0].SetMilestone?
              && exists m :: m in other.milestones.value && calls[0].milestone == m.number
                   && Includes(m.title, ExtractVersion(branch).value)
                   && forall j :: (0 <= j < |other.milestones.value|
                                   && Includes(other.milestones.value[j].title, ExtractVersion(branch).value)) ==>
                        CompareTitles(m.title, other.milestones.value[j].title) <= 0
    ensures calls == MilestoneRequests(prNumber, FoundMilestone(branch, other))
  {
    calls := [];
    if other.milestones.Success? {
      var milestone := GetMilestoneFromBase(branch, other.milestones.value);
      if milestone.Success? && milestone.value.Some? {
        calls := [SetMilestone(prNumber, milestone.value.value.number)];
      } else if milestone.Success? {
        assert forall j :: 0 <= j < |other.milestones.value| ==>
                 !Includes(other.milestones.value[j].title, ExtractVersion(branch).value);
      }
    }
  }

  /** The steps after the creation of the pull request; none of their
      failures ends the task. */
  method FollowUp(task: Task, isFullRequest: bool, prNumber: nat, reviewers: seq<string>,
                  hasConflicts: bool, other: OtherAnswers) returns (calls: seq<Call>)
    ensures calls == FollowUpCalls(task, isFullRequest, prNumber, reviewers, hasConflicts, other)
  {
    calls := RequestReviews(prNumber, reviewers, task.author, other.reviewRequestOk);
    var labels := LabelUpdate(prNumber, other);
    calls := calls + labels;
    var milestone := MilestoneUpdate(prNumber, task.branch, other);
    calls := calls + milestone;
    calls := calls + [AssignToPR(prNumber, [task.author])];
    var update := BodyUpdate(prNumber, task, isFullRequest, hasConflicts, other);
    calls := calls + update;
  }

  /** The stages run so far: a prefix of `STAGES` whose members before the
      last succeeded; `failed` holds the message of the last one if it failed. */
  predicate StagesSoFar(attempted: seq<Stage>, failed: Option<string>, task: Task, fatal: FatalAnswers) {
    1 <= |attempted| <= |STAGES| && attempted == STAGES[..|attempted|]
    && (forall i :: 0 <= i < |attempted| - 1 ==> StageOk(attempted[i], fatal))
    && (failed.None? <==> StageOk(attempted[|attempted| - 1], fatal))
    && (failed.Some? ==> failed.value == StageError(attempted[|attempted| - 1], task, fatal))
  }

  /** A run that went through all the stages without a failure is exactly
      one in which every stage succeeds. */
  lemma StagesComplete(attempted: seq<Stage>, failed: Option<string>, task: Task, fatal: FatalAnswers)
    requires StagesSoFar(attempted, failed, task, fatal)
    requires failed.None? ==> attempted == STAGES
    ensures failed.None? <==> AllStagesOk(fatal)
  {
    if failed.None? {
      assert forall i :: 0 <= i < |STAGES| ==> StageOk(STAGES[i], fatal);
      assert StageOk(STAGES[0], fatal) && StageOk(STAGES[1], fatal) && StageOk(STAGES[2], fatal);
      assert StageOk(STAGES[3], fatal) && StageOk(STAGES[4], fatal);
    } else {
      var last := attempted[|attempted| - 1];
      assert !StageOk(last, fatal);
      assert forall stage :: AllStagesOk(fatal) ==> StageOk(stage, fatal);
    }
  }

  /** The failure comment does not depend on the title of the task. */
  lemma FailureCommentIgnoresTitle(task: Task, title: string, target: string, error: Option<string>)
    ensures GetFailureCommentBody(task.(prTitle := title), target, error) == GetFailureCommentBody(task, target, error)
  {
    var t := task.(prTitle := title);
    assert t.branch == task.branch && t.commits == task.commits;
  }

  /** The stages before the pull request is opened: clone, cherry-pick,
      the check for changes and the push; the first failure stops them. */
  method RunStages(task: Task, fatal: FatalAnswers)
    returns (attempted: seq<Stage>, failed: Option<string>, tmpDir: string, conflicts: CherryPickResult)
    ensures StagesSoFar(attempted, failed, task, fatal)
    ensures |attempted| <= 4 && (failed.None? ==> attempted == STAGES[..4])
    ensures tmpDir == (if fatal.clone.Success? then fatal.clone.value else "")
    ensures failed.None? ==> fatal.cherryPick.Success? && conflicts == fatal.cherryPick.value
  {
    var backportBranch := BackportBranch(task);
    tmpDir := "";
    failed := None;

    attempted := [Clone];
    match fatal.clone {
      case Failure(e) => failed := Some("Failed to clone repository: " + e);
      case Success(dir) => tmpDir := dir;
    }
    assert StagesSoFar(attempted, failed, task, fatal);

    conflicts := OK;
    if failed.None? {
      attempted := attempted + [CherryPick];
      match fatal.cherryPick {
        case Failure(e) => failed := Some("Failed to cherry pick commits: " + e);
        case Success(result) => conflicts := result;
      }
      assert attempted == STAGES[..2];
    }
    assert StagesSoFar(attempted, failed, task, fatal);
    assert failed.None? ==> conflicts == fatal.cherryPick.value;

    if failed.None? {
      attempted := attempted + [CheckChanges];
      match fatal.hasChanges {
        case Failure(e) =>
          failed := Some("Failed to check for changes with origin/" + task.branch + ": " + e);
        case Success(hasChanges) =>
          if !hasChanges {
            failed := Some("Failed to check for changes with origin/" + task.branch + ": " + NO_CHANGES);
          }
      }
      assert attempted == STAGES[..3];
    }
    assert StagesSoFar(attempted, failed, task, fatal);

    if failed.None? {
      attempted := attempted + [Push];
      if fatal.pushError.Some? {
        failed := Some("Failed to push branch " + backportBranch + ": " + fatal.pushError.value);
      }
      assert attempted == STAGES[..4];
    }
    assert StagesSoFar(attempted, failed, task, fatal);
  }

  /** The last stage: the title change for a single-commit request, the
      reviews of the original pull request, the creation of the backport
      pull request and the follow-ups. */
  method OpenStage(task: Task, isFullRequest: bool, conflicts: bool, fatal: FatalAnswers, other: OtherAnswers)
    returns (failed: Option<string>, calls: seq<Call>, current: Task)
    ensures current == task.(prTitle := ChosenTitle(task, isFullRequest, other.commitTitle))
    ensures failed.None? <==> StageOk(OpenPullRequest, fatal)
    ensures failed.Some? ==> failed.value == StageError(OpenPullRequest, task, fatal) && calls == []
    ensures failed.None? ==>
              calls == [CreatePullRequest(BackportPullRequest(current, BackportBranch(task), conflicts))]
                       + FollowUpCalls(task, isFullRequest, fatal.created.value,
                                       GetReviewers(fatal.reviews.value), conflicts, other)
  {
    current := task;
    if !isFullRequest && |current.commits| == 1 {
      current := current.(prTitle := if other.commitTitle != "" then other.commitTitle else current.prTitle);
    }
    calls := [];
    failed := None;
    match fatal.reviews {
      case Failure(e) => failed := Some("Failed to create pull request: " + e);
      case Success(reviews) =>
        var reviewers := GetReviewers(reviews);
        var fields := BackportPullRequest(current, BackportBranch(task), conflicts);
        match fatal.created {
          case Failure(e) => failed := Some("Failed to create pull request: " + e);
          case Success(prNumber) =>
            var more := FollowUp(task, isFullRequest, prNumber, reviewers, conflicts, other);
            calls := [CreatePullRequest(fields)] + more;
        }
    }
  }

  /** What a backport run ends with: the attempted stages are a prefix of
      `STAGES` whose stages all succeeded but the last, the run succeeds iff
      every stage does, a failure posts only the failure comment (with the
      chosen title once the pull request stage was reached), and a success
      opens the pull request and runs the follow-ups. */
  predicate BackportOutcome(task: Task, isFullRequest: bool, fatal: FatalAnswers, other: OtherAnswers,
                            error: Option<string>, attempted: seq<Stage>, calls: seq<Call>) {
    1 <= |attempted| <= |STAGES| && attempted == STAGES[..|attempted|]
    && (forall i :: 0 <= i < |attempted| - 1 ==> StageOk(attempted[i], fatal))
    && (error.None? <==> StageOk(attempted[|attempted| - 1], fatal))
    && (error.None? ==> attempted == STAGES)
    && (error.None? <==> AllStagesOk(fatal))
    && (error.Some? ==>
          var failed := StageError(attempted[|attempted| - 1], task, fatal);
          error.value == "Failed to backport: " + failed
          && var commented := if |attempted| == |STAGES|
                              then task.(prTitle := ChosenTitle(task, isFullRequest, other.commitTitle))
                              else task;
             calls == [CommentFailure(commented, BackportBranch(task), Some(failed))])
    && (error.None? ==>
          var titled := task.(prTitle := ChosenTitle(task, isFullRequest, other.commitTitle));
          var conflicts := fatal.cherryPick.value == CONFLICTS;
          calls == [CreatePullRequest(BackportPullRequest(titled, BackportBranch(task), conflicts))]
                   + FollowUpCalls(task, isFullRequest, fatal.created.value,
                                   GetReviewers(fatal.reviews.value), conflicts, other))
  }

  /** A failure before the pull request stage ends the run with the failure
      comment for the task as it came. */
  lemma EarlyFailureOutcome(task: Task, isFullRequest: bool, fatal: FatalAnswers, other: OtherAnswers,
                            attempted: seq<Stage>, failed: Option<string>)
    requires StagesSoFar(attempted, failed, task, fatal) && |attempted| <= 4 && failed.Some?
    ensures BackportOutcome(task, isFullRequest, fatal, other, Some("Failed to backport: " + failed.value),
                            attempted, [CommentFailure(task, BackportBranch(task), failed)])
  {
    StagesComplete(attempted, failed, task, fatal);
    assert |attempted| < |STAGES|;
  }

  /** Once the first four stages succeeded, a failure to open the pull
      request posts the failure comment with the chosen title. */
  lemma OpenFailureOutcome(task: Task, isFullRequest: bool, fatal: FatalAnswers, other: OtherAnswers,
                           failed: Option<string>)
    requires StagesSoFar(STAGES[..4], None, task, fatal)
    requires failed.Some? && !StageOk(OpenPullRequest, fatal)
    requires failed.value == StageError(OpenPullRequest, task, fatal)
    ensures var current := task.(prTitle := ChosenTitle(task, isFullRequest, other.commitTitle));
            BackportOutcome(task, isFullRequest, fatal, other, Some("Failed to backport: " + failed.value),
                            STAGES, [CommentFailure(current, BackportBranch(task), failed)])
  {
    AllFourStages(task, fatal, failed);
    StagesComplete(STAGES, failed, task, fatal);
  }

  /** Once the first four stages succeeded, opening the pull request makes
      the run a success. */
  lemma OpenSuccessOutcome(task: Task, isFullRequest: bool, fatal: FatalAnswers, other: OtherAnswers,
                           calls: seq<Call>)
    requires StagesSoFar(STAGES[..4], None, task, fatal)
    requires StageOk(OpenPullRequest, fatal) && fatal.cherryPick.Success?
    requires calls == [CreatePullRequest(BackportPullRequest(task.(prTitle := ChosenTitle(task, isFullRequest, other.commitTitle)),
                                                             BackportBranch(task), fatal.cherryPick.value == CONFLICTS))]
                      + FollowUpCalls(task, isFullRequest, fatal.created.value,
                                      GetReviewers(fatal.reviews.value), fatal.cherryPick.value == CONFLICTS, other)
    ensures BackportOutcome(task, isFullRequest, fatal, other, None, STAGES, calls)
  {
    AllFourStages(task, fatal, None);
    StagesComplete(STAGES, None, task, fatal);
  }

  /** The pull request stage extends a run of the first four stages. */
  lemma AllFourStages(task: Task, fatal: FatalAnswers, failed: Option<string>)
    requires StagesSoFar(STAGES[..4], None, task, fatal)
    requires failed.None? <==> StageOk(OpenPullRequest, fatal)
    requires failed.Some? ==> failed.value == StageError(OpenPullRequest, task, fatal)
    ensures StagesSoFar(STAGES, failed, task, fatal)
  {
    assert STAGES[..4] + [OpenPullRequest] == STAGES;
  }

  /** `backport`: runs the stages until one fails.  On success the pull
      request is opened and the follow-ups run; on failure only the failure
      comment is posted and the error is rethrown.  `removed` is the work
      directory removed at the end. */
  method Backport(task: Task, isFullRequest: bool, fatal: FatalAnswers, other: OtherAnswers)
    returns (error: Option<string>, attempted: seq<Stage>, calls: seq<Call>, removed: Option<string>)
    ensures BackportOutcome(task, isFullRequest, fatal, other, error, attempted, calls)
    ensures removed == (if fatal.clone.Success? && fatal.clone.value != "" && other.dirExists
                        then Some(fatal.clone.value) else None)
  {
    var backportBranch := BackportBranch(task);
    var failed: Option<string>;
    var tmpDir: string;
    var conflicts: CherryPickResult;
    attempted, failed, tmpDir, conflicts := RunStages(task, fatal);

    if failed.Some? {
      EarlyFailureOutcome(task, isFullRequest, fatal, other, attempted, failed);
      calls := [CommentFailure(task, backportBranch, failed)];
      error := Some("Failed to backport: " + failed.value);
    } else {
      var current;
      failed, calls, current := OpenStage(task, isFullRequest, conflicts == CONFLICTS, fatal, other);
      attempted := STAGES;
      if failed.Some? {
        OpenFailureOutcome(task, isFullRequest, fatal, other, failed);
        calls := [CommentFailure(current, backportBranch, failed)];
        error := Some("Failed to backport: " + failed.value);
      } else {
        OpenSuccessOutcome(task, isFullRequest, fatal, other, calls);
        error := None;
      }
    }

    removed := if tmpDir != "" && other.dirExists then Some(tmpDir) else None;
  }
}

/**
 * The post-processing of GitHub API answers (src/githubUtils.ts): which
 * reviewers to request again, which comments are backport requests, the
 * fields of the backport pull request and the commit list of a pull
 * request.  The API calls themselves are outside the model; their answers
 * are the inputs.
 */
module GithubUtils {
  import opened Wrappers
  import opened Seqs
  import opened JsString
  import opened Constants

  /** A pull request review as the API lists it; `login` is absent when the
      review has no user. */
  datatype Review = Review(state: string, authorAssociation: string, login: Option<string>)

  /** An approved review by someone associated with the repository, with a
      login that is not empty (`filter(Boolean)` drops `undefined` and `''`). */
  predicate IsCountedReview(r: Review) {
    r.state == "APPROVED" && r.authorAssociation != "NONE" && r.login.Some? && r.login.value != ""
  }

  /** The logins of the counted reviews, in the order the API lists them. */
  function ApprovedLogins(reviews: seq<Review>): (r: seq<string>)
    ensures |r| == |Filter(IsCountedReview, reviews)|
    ensures forall i :: 0 <= i < |r| ==> Filter(IsCountedReview, reviews)[i].login == Some(r[i])
  {
    var kept := Filter(IsCountedReview, reviews);
    seq(|kept|, i requires 0 <= i < |kept| => kept[i].login.value)
  }

  /** `getReviewers`: the counted logins, each once, first occurrence first. */
  function GetReviewers(reviews: seq<Review>): (r: seq<string>)
    ensures Distinct(r)
    ensures IsSubsequence(r, ApprovedLogins(reviews))
    ensures forall i :: 0 <= i < |r| ==> r[i] != ""
  {
    Dedup(ApprovedLogins(reviews))
  }

  /** A login is requested exactly when some counted review carries it. */
  lemma ReviewersMembers(reviews: seq<Review>, login: string)
    ensures login in GetReviewers(reviews)
            <==> exists i :: 0 <= i < |reviews| && IsCountedReview(reviews[i]) && reviews[i].login == Some(login)
  {
    DedupMembers(ApprovedLogins(reviews), login);
    if login in ApprovedLogins(reviews) {
      LoginFromReview(reviews, login);
    }
    if exists i :: 0 <= i < |reviews| && IsCountedReview(reviews[i]) && reviews[i].login == Some(login) {
      var i :| 0 <= i < |reviews| && IsCountedReview(reviews[i]) && reviews[i].login == Some(login);
      ReviewGivesLogin(reviews, i);
    }
  }

  /** Every counted login comes from a counted review. */
  lemma LoginFromReview(reviews: seq<Review>, login: string)
    requires login in ApprovedLogins(reviews)
    ensures exists i :: 0 <= i < |reviews| && IsCountedReview(reviews[i]) && reviews[i].login == Some(login)
  {
    var kept := Filter(IsCountedReview, reviews);
    var logins := ApprovedLogins(reviews);
    var j :| 0 <= j < |logins| && logins[j] == login;
    assert kept[j] in reviews && IsCountedReview(kept[j]);
    var i :| 0 <= i < |reviews| && reviews[i] == kept[j];
  }

  /** The login of every counted review is counted. */
  lemma ReviewGivesLogin(reviews: seq<Review>, i: int)
    requires 0 <= i < |reviews| && IsCountedReview(reviews[i])
    ensures reviews[i].login.value in ApprovedLogins(reviews)
  {
    var kept := Filter(IsCountedReview, reviews);
    assert reviews[i] in kept;
    var j :| 0 <= j < |kept| && kept[j] == reviews[i];
    assert ApprovedLogins(reviews)[j] == reviews[i].login.value;
  }

  /** The reaction counts of a comment; only `confused` matters here. */
  datatype Reactions = Reactions(confused: int)

  /** An issue comment as the API lists it; `body` and `reactions` may be absent. */
  datatype IssueComment = IssueComment(
    id: int,
    body: Option<string>,
    authorAssociation: string,
    login: string,
    reactions: Option<Reactions>)

  /** The three filters of `getBackportRequestsFromPR`. */
  predicate IsBackportRequest(c: IssueComment) {
    c.body.Some? && StartsWith(Trim(c.body.value), COMMAND_PREFIX)
    && c.authorAssociation != "NONE"
    && c.reactions.Some? && c.reactions.value.confused == 0
  }

  /** `getBackportRequestsFromPR`: the comments that pass all three filters,
      in API order. */
  function GetBackportRequestsFromPR(comments: seq<IssueComment>): (r: seq<IssueComment>)
    ensures IsSubsequence(r, comments)
    ensures forall i :: 0 <= i < |r| ==> IsBackportRequest(r[i])
    ensures forall i :: 0 <= i < |comments| && IsBackportRequest(comments[i]) ==> comments[i] in r
  {
    Filter(IsBackportRequest, comments)
  }

  /** A comment without reactions, from a non-member or rejected with a
      `confused` reaction is never a request. */
  lemma RequestsExclude(comments: seq<IssueComment>, c: IssueComment)
    requires c.reactions.None? || c.authorAssociation == "NONE"
             || (c.reactions.Some? && c.reactions.value.confused != 0)
    ensures c !in GetBackportRequestsFromPR(comments)
  {
    var r := GetBackportRequestsFromPR(comments);
    assert !IsBackportRequest(c);
    forall i | 0 <= i < |r|
      ensures r[i] != c
    {
      assert IsBackportRequest(r[i]);
    }
  }

  /** The fields `createBackportPullRequest` sends. */
  datatype PullRequestFields = PullRequestFields(
    owner: string,
    repo: string,
    head: string,
    base: string,
    body: string,
    title: string,
    draft: bool,
    maintainerCanModify: bool)

  const BACKPORT_OF_PR: string := "Backport of PR #"

  /** `createBackportPullRequest` with `conflicts` defaulting to `false` at
      the call site: a draft exactly when there were conflicts, and the
      number, the branch and the title can be read back from the body and
      the title. */
  function BackportPullRequest(task: Task, head: string, conflicts: bool): (pr: PullRequestFields)
    ensures pr.owner == task.owner && pr.repo == task.repo
    ensures pr.base == task.branch && pr.head == head
    ensures (pr.draft <==> conflicts) && pr.maintainerCanModify
    ensures StartsWith(pr.body, BACKPORT_OF_PR) && IsNumeral(pr.body[|BACKPORT_OF_PR|..])
            && DigitsValue(pr.body[|BACKPORT_OF_PR|..]) == task.prNumber
    ensures |pr.title| == |task.branch| + |task.prTitle| + 3
            && pr.title[0] == '['
            && pr.title[1..|task.branch| + 1] == task.branch
            && pr.title[|task.branch| + 1..|task.branch| + 3] == "] "
            && pr.title[|task.branch| + 3..] == task.prTitle
  {
    var pr := PullRequestFields(
      task.owner, task.repo, head, task.branch,
      BACKPORT_OF_PR + NatToString(task.prNumber),
      "[" + task.branch + "] " + task.prTitle,
      conflicts, true);
    NatToStringRoundTrip(task.prNumber);
    assert pr.body[|BACKPORT_OF_PR|..] == NatToString(task.prNumber);
    assert pr.body[..|BACKPORT_OF_PR|] == BACKPORT_OF_PR;
    pr
  }

  /** A commit as `pulls.listCommits` returns it. */
  datatype PullCommit = PullCommit(sha: string)

  /** `getCommitsForPR`: the SHAs in API order. */
  function GetCommitsForPR(commits: seq<PullCommit>): (r: seq<string>)
    ensures |r| == |commits|
    ensures forall i :: 0 <= i < |r| ==> r[i] == commits[i].sha
  {
    seq(|commits|, i requires 0 <= i < |commits| => commits[i].sha)
  }
}

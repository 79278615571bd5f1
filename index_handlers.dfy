/**
 * The two webhook handlers of src/index.ts: which backport requests of a
 * merged pull request become tasks when it is closed, and what a new
 * comment on a pull request leads to.  The API answers (the comments, the
 * commits of the pull request, whether a queued backport rejects) are
 * inputs.
 */
module IndexHandlers {
  import opened Wrappers
  import opened Seqs
  import opened JsString
  import opened Constants
  import opened PayloadUtils
  import opened GithubUtils

  /** The two owners whose events are handled; every other one is ignored. */
  predicate IsHandledOwner(owner: string) {
    owner == "nextcloud" || owner == "skjnldsv"
  }

  /** What every task copies from the webhook payload; `title` is `""` when
      the payload has none. */
  datatype PullRequestInfo = PullRequestInfo(
    installationId: int,
    owner: string,
    repo: string,
    author: string,
    prNumber: nat,
    title: string)

  /** `title || \`Backport of PR #${prNumber}\``. */
  function TaskTitle(pr: PullRequestInfo): (r: string)
    ensures pr.title != "" ==> r == pr.title
    ensures pr.title == "" ==> StartsWith(r, BACKPORT_OF_PR) && IsNumeral(r[|BACKPORT_OF_PR|..])
                               && DigitsValue(r[|BACKPORT_OF_PR|..]) == pr.prNumber
  {
    if pr.title != "" then pr.title
    else
      var r := BACKPORT_OF_PR + NatToString(pr.prNumber);
      NatToStringRoundTrip(pr.prNumber);
      assert r[|BACKPORT_OF_PR|..] == NatToString(pr.prNumber);
      assert r[..|BACKPORT_OF_PR|] == BACKPORT_OF_PR;
      r
  }

  /** A request without commits before ` to `: all commits of the pull
      request are backported. */
  predicate IsFullRequest(body: string)
    ensures IsFullRequest(body) <==> exists rest :: Trim(body) == COMMAND_PREFIX + TO_SEPARATOR + rest
  {
    StartsWithIffPrefix(Trim(body), COMMAND_PREFIX + TO_SEPARATOR);
    StartsWith(Trim(body), COMMAND_PREFIX + TO_SEPARATOR)
  }

  function MakeTask(pr: PullRequestInfo, branch: string, commits: seq<string>, commentId: int): Task {
    Task(pr.installationId, pr.owner, pr.repo, branch, commits, pr.prNumber, TaskTitle(pr), commentId, pr.author)
  }

  // ---------------------------------------------------------------------
  // pull_request.closed

  /** The task one request comment yields in the closed handler: none when
      the commits or the branch cannot be extracted, or when the commits of
      the pull request cannot be listed for a full request. */
  function RequestTask(pr: PullRequestInfo, c: IssueComment, prCommits: Result<seq<string>, string>): (r: Option<Task>)
    ensures var body := c.body.GetOr("");
            r.Some? <==> ExtractCommitsFromPayload(body).Success? && ExtractBranchFromPayload(body).Success?
                         && (IsFullRequest(body) ==> prCommits.Success?)
    ensures r.Some? ==>
              var body := c.body.GetOr("");
              && r.value.branch == ExtractBranchFromPayload(body).value
              && IsBranchName(r.value.branch)
              && r.value.commits == (if IsFullRequest(body) then prCommits.value
                                     else ExtractCommitsFromPayload(body).value)
              && r.value.commentId == c.id
              && r.value.prNumber == pr.prNumber && r.value.author == pr.author
              && r.value.prTitle == TaskTitle(pr)
  {
    var body := c.body.GetOr("");
    match (ExtractCommitsFromPayload(body), ExtractBranchFromPayload(body))
    case (Success(commits), Success(branch)) =>
      if IsFullRequest(body) then
        if prCommits.Success? then Some(MakeTask(pr, branch, prCommits.value, c.id)) else None
      else Some(MakeTask(pr, branch, commits, c.id))
    case _ => None
  }

  /** `RequestTask` for one pull request and one answer of the commit
      listing, as a function of the comment. */
  function Parser(pr: PullRequestInfo, prCommits: Result<seq<string>, string>): IssueComment -> Option<Task> {
    c => RequestTask(pr, c, prCommits)
  }

  /** The task of each request, in order. */
  function ParseAll(parse: IssueComment -> Option<Task>, requests: seq<IssueComment>): (r: seq<Option<Task>>)
    ensures |r| == |requests|
    decreases |requests|
  {
    if requests == [] then []
    else ParseAll(parse, requests[..|requests| - 1]) + [parse(requests[|requests| - 1])]
  }

  lemma {:induction false} ParseAllIndex(parse: IssueComment -> Option<Task>, requests: seq<IssueComment>)
    ensures forall i :: 0 <= i < |requests| ==> ParseAll(parse, requests)[i] == parse(requests[i])
    decreases |requests|
  {
    if requests != [] {
      var front := requests[..|requests| - 1];
      ParseAllIndex(parse, front);
      forall i | 0 <= i < |front|
        ensures requests[i] == front[i]
      {
      }
    }
  }

  /** The branches of some tasks. */
  function Branches(tasks: seq<Task>): set<string> {
    set t | t in tasks :: t.branch
  }

  lemma BranchesAppend(tasks: seq<Task>, t: Task)
    ensures Branches(tasks + [t]) == Branches(tasks) + {t.branch}
  {
    var all := tasks + [t];
    forall b | b in Branches(all)
      ensures b in Branches(tasks) + {t.branch}
    {
      var u :| u in all && u.branch == b;
      if u != t {
        assert u in tasks;
      }
    }
    forall b | b in Branches(tasks)
      ensures b in Branches(all)
    {
      var u :| u in tasks && u.branch == b;
      assert u in all;
    }
    assert t in all;
  }

  /** The loop over the parsed requests: a request without a task, or whose
      branch already has one, is skipped. */
  function Admit(parsed: seq<Option<Task>>): (r: seq<Task>)
    ensures |r| <= |parsed|
    ensures r == [] <==> forall i :: 0 <= i < |parsed| ==> parsed[i].None?
    decreases |parsed|
  {
    if parsed == [] then []
    else
      var tasks := Admit(parsed[..|parsed| - 1]);
      assert forall i :: 0 <= i < |parsed| - 1 ==> parsed[..|parsed| - 1][i] == parsed[i];
      match parsed[|parsed| - 1]
      case Some(t) => if t.branch in Branches(tasks) then tasks else tasks + [t]
      case None => tasks
  }

  /** Request `j` is the first one that yields a task for its branch. */
  predicate FirstForBranch(parsed: seq<Option<Task>>, j: nat)
    requires j < |parsed|
  {
    parsed[j].Some?
    && forall i :: 0 <= i < j && parsed[i].Some? ==> parsed[i].value.branch != parsed[j].value.branch
  }

  /** No two tasks go to the same branch. */
  lemma {:induction false} AdmitDistinctBranches(parsed: seq<Option<Task>>)
    ensures forall i, j :: 0 <= i < j < |Admit(parsed)| ==> Admit(parsed)[i].branch != Admit(parsed)[j].branch
    decreases |parsed|
  {
    if parsed != [] {
      var front := parsed[..|parsed| - 1];
      AdmitDistinctBranches(front);
      var tasks := Admit(front);
      match parsed[|parsed| - 1]
      case Some(t) =>
        if t.branch !in Branches(tasks) {
          forall i | 0 <= i < |tasks|
            ensures tasks[i].branch != t.branch
          {
            assert tasks[i] in tasks;
          }
        } else {
          assert Admit(parsed) == tasks;
        }
      case None =>
        assert Admit(parsed) == tasks;
    }
  }

  /** Every request that yields a task has its branch covered. */
  lemma {:induction false} AdmitComplete(parsed: seq<Option<Task>>)
    ensures forall j :: 0 <= j < |parsed| && parsed[j].Some? ==> parsed[j].value.branch in Branches(Admit(parsed))
    decreases |parsed|
  {
    if parsed != [] {
      var front := parsed[..|parsed| - 1];
      AdmitComplete(front);
      var tasks := Admit(front);
      var all := Admit(parsed);
      assert forall t :: t in tasks ==> t in all;
      forall j | 0 <= j < |parsed| && parsed[j].Some?
        ensures parsed[j].value.branch in Branches(all)
      {
        if j < |front| {
          assert parsed[j] == front[j];
          var t :| t in tasks && t.branch == parsed[j].value.branch;
          assert t in all;
        } else {
          var t := parsed[j].value;
          if t.branch !in Branches(tasks) {
            assert all == tasks + [t];
            assert t in all;
          }
        }
      }
    }
  }

  /** Each task is the one of the first request naming its branch. */
  lemma {:induction false} AdmitFromFirstRequest(parsed: seq<Option<Task>>)
    ensures forall k :: 0 <= k < |Admit(parsed)| ==>
              exists j :: 0 <= j < |parsed| && FirstForBranch(parsed, j) && parsed[j] == Some(Admit(parsed)[k])
    decreases |parsed|
  {
    if parsed != [] {
      var n := |parsed| - 1;
      var front := parsed[..n];
      AdmitFromFirstRequest(front);
      var tasks := Admit(front);
      var all := Admit(parsed);
      forall k | 0 <= k < |all|
        ensures exists j :: 0 <= j < |parsed| && FirstForBranch(parsed, j) && parsed[j] == Some(all[k])
      {
        if k < |tasks| {
          assert all[k] == tasks[k];
          assert exists j :: 0 <= j < |front| && FirstForBranch(front, j) && front[j] == Some(tasks[k]);
          var j :| 0 <= j < |front| && FirstForBranch(front, j) && front[j] == Some(tasks[k]);
          assert parsed[j] == front[j];
          forall i | 0 <= i < j
            ensures parsed[i] == front[i]
          {
          }
          assert FirstForBranch(parsed, j);
        } else {
          var t := parsed[n].value;
          assert all == tasks + [t] && all[k] == t;
          AdmitComplete(front);
          forall i | 0 <= i < n && parsed[i].Some?
            ensures parsed[i].value.branch != t.branch
          {
            assert parsed[i] == front[i];
          }
          assert FirstForBranch(parsed, n);
        }
      }
      assert all == Admit(parsed);
    } else {
      assert Admit(parsed) == [];
    }
  }

  /** The first request for a branch in the reversed list is the last one
      for it in the original order. */
  lemma FirstInReverse(parsed: seq<Option<Task>>, t: Task)
    requires exists r :: 0 <= r < |parsed| && FirstForBranch(Reverse(parsed), r) && Reverse(parsed)[r] == Some(t)
    ensures exists j :: 0 <= j < |parsed| && parsed[j] == Some(t)
              && forall i :: j < i < |parsed| && parsed[i].Some? ==> parsed[i].value.branch != t.branch
  {
    var rev := Reverse(parsed);
    var n := |parsed|;
    var r :| 0 <= r < n && FirstForBranch(rev, r) && rev[r] == Some(t);
    var j := n - 1 - r;
    assert parsed[j] == Some(t);
    forall i | j < i < n && parsed[i].Some?
      ensures parsed[i].value.branch != t.branch
    {
      assert rev[n - 1 - i] == parsed[i];
    }
  }

  /** The closed handler reads the requests newest first, so the task of a
      branch comes from the LAST request (in API order) that yields one for
      it, every such branch has a task, and no branch has two. */
  lemma LastRequestWins(parsed: seq<Option<Task>>)
    ensures var tasks := Admit(Reverse(parsed));
            && (forall k :: 0 <= k < |tasks| ==>
                  exists j :: 0 <= j < |parsed| && parsed[j] == Some(tasks[k])
                    && forall i :: j < i < |parsed| && parsed[i].Some? ==> parsed[i].value.branch != tasks[k].branch)
            && (forall j :: 0 <= j < |parsed| && parsed[j].Some? ==> parsed[j].value.branch in Branches(tasks))
            && (forall i, j :: 0 <= i < j < |tasks| ==> tasks[i].branch != tasks[j].branch)
  {
    var rev := Reverse(parsed);
    AdmitFromFirstRequest(rev);
    AdmitComplete(rev);
    AdmitDistinctBranches(rev);
    ReversedAdmission(parsed, Admit(rev));
  }

  /** The facts about the tasks admitted from the reversed requests, read
      back in the original order. */
  lemma ReversedAdmission(parsed: seq<Option<Task>>, tasks: seq<Task>)
    requires forall k :: 0 <= k < |tasks| ==>
               exists j :: 0 <= j < |parsed| && FirstForBranch(Reverse(parsed), j) && Reverse(parsed)[j] == Some(tasks[k])
    requires forall j :: 0 <= j < |parsed| && Reverse(parsed)[j].Some? ==> Reverse(parsed)[j].value.branch in Branches(tasks)
    ensures forall k :: 0 <= k < |tasks| ==>
              exists j :: 0 <= j < |parsed| && parsed[j] == Some(tasks[k])
                && forall i :: j < i < |parsed| && parsed[i].Some? ==> parsed[i].value.branch != tasks[k].branch
    ensures forall j :: 0 <= j < |parsed| && parsed[j].Some? ==> parsed[j].value.branch in Branches(tasks)
  {
    var rev := Reverse(parsed);
    var n := |parsed|;
    forall k | 0 <= k < |tasks|
      ensures exists j :: 0 <= j < |parsed| && parsed[j] == Some(tasks[k])
                && forall i :: j < i < |parsed| && parsed[i].Some? ==> parsed[i].value.branch != tasks[k].branch
    {
      FirstInReverse(parsed, tasks[k]);
    }
    assert forall k :: 0 <= k < |tasks| ==>
              exists j :: 0 <= j < |parsed| && parsed[j] == Some(tasks[k])
                && forall i :: j < i < |parsed| && parsed[i].Some? ==> parsed[i].value.branch != tasks[k].branch;
    forall j | 0 <= j < n && parsed[j].Some?
      ensures parsed[j].value.branch in Branches(tasks)
    {
      assert rev[n - 1 - j] == parsed[j];
    }
  }

  /** One pass of the loop: the task of the next request is kept when its
      branch has none yet. */
  lemma AdmitStep(parse: IssueComment -> Option<Task>, requests: seq<IssueComment>, i: nat,
                  tasks: seq<Task>, task: Option<Task>)
    requires i < |requests|
    requires tasks == Admit(ParseAll(parse, requests[..i]))
    requires task == if parse(requests[i]).Some? && parse(requests[i]).value.branch !in Branches(tasks)
                     then parse(requests[i]) else None
    ensures Admit(ParseAll(parse, requests[..i + 1])) == if task.Some? then tasks + [task.value] else tasks
  {
    assert requests[..i + 1][..i] == requests[..i];
    assert ParseAll(parse, requests[..i + 1]) == ParseAll(parse, requests[..i]) + [parse(requests[i])];
  }

  /** The same three facts stated on the request comments in API order:
      the closed handler reads them newest first. */
  lemma ClosedTasksFromLastRequests(parse: IssueComment -> Option<Task>, requests: seq<IssueComment>)
    ensures var tasks := Admit(ParseAll(parse, Reverse(requests)));
            && (forall k :: 0 <= k < |tasks| ==>
                  exists j :: 0 <= j < |requests| && parse(requests[j]) == Some(tasks[k])
                    && forall i :: j < i < |requests| && parse(requests[i]).Some? ==>
                         parse(requests[i]).value.branch != tasks[k].branch)
            && (forall j :: 0 <= j < |requests| && parse(requests[j]).Some? ==>
                  parse(requests[j]).value.branch in Branches(tasks))
            && (forall i, j :: 0 <= i < j < |tasks| ==> tasks[i].branch != tasks[j].branch)
  {
    var parsed := ParseAll(parse, requests);
    ParseAllIndex(parse, requests);
    ParseAllIndex(parse, Reverse(requests));
    assert ParseAll(parse, Reverse(requests)) == Reverse(parsed);
    LastRequestWins(parsed);
  }

  /** One pass of the loop of the closed handler: the commits and the
      branch are extracted, a branch already handled is skipped, and a full
      request takes the commits of the pull request. */
  method ProcessRequest(pr: PullRequestInfo, c: IssueComment, processed: set<string>,
                        prCommits: Result<seq<string>, string>) returns (task: Option<Task>)
    ensures var t := Parser(pr, prCommits)(c);
            task == if t.Some? && t.value.branch !in processed then t else None
  {
    var body := c.body.GetOr("");
    var commits := ExtractCommitsFromPayload(body);
    var branch := ExtractBranchFromPayload(body);
    if commits.Failure? || branch.Failure? {
      return None;
    }
    if branch.value in processed {
      return None;
    }
    var taskCommits := commits.value;
    if IsFullRequest(body) {
      if prCommits.Failure? {
        return None;
      }
      taskCommits := prCommits.value;
    }
    return Some(MakeTask(pr, branch.value, taskCommits, c.id));
  }

  /** The loop of the closed handler over the requests, newest first,
      with the set of the branches handled so far. */
  method CollectTasks(pr: PullRequestInfo, requests: seq<IssueComment>, prCommits: Result<seq<string>, string>)
    returns (tasks: seq<Task>)
    ensures tasks == Admit(ParseAll(Parser(pr, prCommits), requests))
  {
    tasks := [];
    var processed: set<string> := {};
    var i := 0;
    while i < |requests|
      invariant 0 <= i <= |requests|
      invariant tasks == Admit(ParseAll(Parser(pr, prCommits), requests[..i]))
      invariant processed == Branches(tasks)
    {
      var task := ProcessRequest(pr, requests[i], processed, prCommits);
      AdmitStep(Parser(pr, prCommits), requests, i, tasks, task);
      if task.Some? {
        BranchesAppend(tasks, task.value);
        processed := processed + {task.value.branch};
        tasks := tasks + [task.value];
      }
      i := i + 1;
    }
    assert requests[..i] == requests;
  }

  /** The `pull_request.closed` handler.  `rejects(t)` says whether the
      queued backport of `t` rejects; the backport label is removed only
      when none does, and not at all when there was no request. */
  method HandleClosed(pr: PullRequestInfo, merged: bool, comments: seq<IssueComment>,
                      prCommits: Result<seq<string>, string>, rejects: Task -> bool)
    returns (tasks: seq<Task>, removeLabel: bool)
    ensures !IsHandledOwner(pr.owner) || !merged ==> tasks == [] && !removeLabel
    ensures IsHandledOwner(pr.owner) && merged ==>
              tasks == Admit(ParseAll(Parser(pr, prCommits), Reverse(GetBackportRequestsFromPR(comments))))
    ensures removeLabel <==> IsHandledOwner(pr.owner) && merged && GetBackportRequestsFromPR(comments) != []
                             && forall k :: 0 <= k < |tasks| ==> !rejects(tasks[k])
  {
    tasks := [];
    removeLabel := false;
    if !IsHandledOwner(pr.owner) {
      return;
    }
    if !merged {
      return;
    }
    var requests := Reverse(GetBackportRequestsFromPR(comments));
    if |requests| == 0 {
      return;
    }

    tasks := CollectTasks(pr, requests, prCommits);

    var hasFailedTasks := exists k :: 0 <= k < |tasks| && rejects(tasks[k]);
    removeLabel := !hasFailedTasks;
  }

  // ---------------------------------------------------------------------
  // issue_comment.created

  /** The comment fields the handler reads; `body` is `""` when absent. */
  datatype CommentEvent = CommentEvent(
    pr: PullRequestInfo,
    commentId: int,
    body: string,
    onPullRequest: bool,
    authorAssociation: Option<string>,
    closed: bool,
    merged: bool)

  /** What a new comment leads to. */
  datatype CommentOutcome =
    | Ignored                                 // not for this bot, or not from a collaborator
    | RejectedUnmerged                        // thumbs down: closed without a merge
    | Unparsable                              // confused: no commits or branch could be extracted
    | Failed(message: string)                 // thumbs down, nothing labelled or queued
    | Waiting(task: Task)                     // labelled; the closed handler will pick it up
    | Queued(task: Task, labelRemoved: bool)  // labelled and queued at once

  /** An association that is present, not empty and not `NONE`. */
  predicate IsCollaborator(association: Option<string>) {
    association.Some? && association.value != "" && association.value != "NONE"
  }

  /** The comment is one this bot acts on. */
  predicate IsCommand(e: CommentEvent) {
    IsHandledOwner(e.pr.owner) && e.onPullRequest && StartsWith(Trim(e.body), COMMAND_PREFIX)
    && IsCollaborator(e.authorAssociation)
  }

  /** The request parses and names commits, or is a full request whose
      commits could be listed. */
  predicate Accepted(e: CommentEvent, prCommits: Result<seq<string>, string>) {
    ExtractCommitsFromPayload(e.body).Success? && ExtractBranchFromPayload(e.body).Success?
    && (if IsFullRequest(e.body) then prCommits.Success? else ExtractCommitsFromPayload(e.body).value != [])
  }

  /** The `issue_comment.created` handler; `rejects` says whether the
      queued backport rejects. */
  function HandleComment(e: CommentEvent, prCommits: Result<seq<string>, string>, rejects: bool): (r: CommentOutcome)
    ensures r == Ignored <==> !IsCommand(e)
    ensures r == RejectedUnmerged <==> IsCommand(e) && e.closed && !e.merged
    ensures r == Unparsable <==>
              IsCommand(e) && !(e.closed && !e.merged)
              && (ExtractCommitsFromPayload(e.body).Failure? || ExtractBranchFromPayload(e.body).Failure?)
    ensures (r.Waiting? || r.Queued?) <==> IsCommand(e) && !(e.closed && !e.merged) && Accepted(e, prCommits)
    ensures r.Queued? <==> IsCommand(e) && e.merged && Accepted(e, prCommits)
    ensures r.Queued? ==> (r.labelRemoved <==> !rejects)
    ensures r.Failed? ==>
              if IsFullRequest(e.body) then r.message == prCommits.error
              else r.message == "No commits found in payload"
    ensures r.Waiting? || r.Queued? ==>
              && r.task.branch == ExtractBranchFromPayload(e.body).value
              && r.task.commits == (if IsFullRequest(e.body) then prCommits.value
                                    else ExtractCommitsFromPayload(e.body).value)
              && (r.task.commits != [] || IsFullRequest(e.body))
              && r.task.commentId == e.commentId
  {
    if !IsCommand(e) then Ignored
    else if e.closed && !e.merged then RejectedUnmerged
    else match (ExtractCommitsFromPayload(e.body), ExtractBranchFromPayload(e.body))
      case (Success(commits), Success(branch)) =>
        var full := IsFullRequest(e.body);
        if commits == [] && !full then Failed("No commits found in payload")
        else if full && prCommits.Failure? then Failed(prCommits.error)
        else
          var task := MakeTask(e.pr, branch, if full then prCommits.value else commits, e.commentId);
          if e.merged then Queued(task, !rejects) else Waiting(task)
      case _ => Unparsable
  }

  /** A request accepted while the pull request is open becomes, once it is
      merged and closed, the same task in the closed handler. */
  lemma WaitingRequestAdmittedOnClose(e: CommentEvent, c: IssueComment,
                                      prCommits: Result<seq<string>, string>, rejects: bool)
    requires HandleComment(e, prCommits, rejects).Waiting?
    requires c.body == Some(e.body) && c.id == e.commentId
    ensures RequestTask(e.pr, c, prCommits) == Some(HandleComment(e, prCommits, rejects).task)
  {
    var commits := ExtractCommitsFromPayload(e.body);
    var branch := ExtractBranchFromPayload(e.body);
    assert commits.Success? && branch.Success?;
    var full := IsFullRequest(e.body);
    assert full ==> prCommits.Success?;
    var task := MakeTask(e.pr, branch.value, if full then prCommits.value else commits.value, e.commentId);
    assert HandleComment(e, prCommits, rejects) == Waiting(task);
    assert c.body.GetOr("") == e.body;
  }
}

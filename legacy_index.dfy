/**
 * The two handlers of the first version of the bot (index.js): the
 * `/backport` command on a comment, and the closing of a pull request,
 * which collects one target per branch from all comments.  The outcome
 * says how the handler ends: waiting, label removed, confused reaction, or
 * rejected.  The call into lib/backport.js is modelled by its arguments;
 * what the run answers for a list of targets is an input.  The `+1` and
 * `eyes` reactions and the `addLabels` calls made on the way are not
 * modelled.
 */
module LegacyIndex {
  import opened Wrappers
  import opened Seqs
  import opened JsString
  import opened Constants
  import opened LegacyComment

  // ---------------------------------------------------------------------
  // The backport command

  /** `html_url.endsWith('pull/' + issueId)`: the issue is a pull request. */
  predicate IsPullRequestUrl(url: string, issueId: nat) {
    EndsWith(url, "pull/" + NatToString(issueId))
  }

  /** The three arguments after `context` of a call to lib/backport.js,
      whose signature is `(context, id, targets)`: a pull request number, a
      list of targets, or the logger object the handlers hold. */
  datatype RunArgument = PullNumber(number: int) | TargetList(targets: seq<Target>) | Logger

  const NOT_ITERABLE: string := "targets is not iterable"

  /** The promise lib/backport.js returns.  Its loop over `targets` needs a
      list; the logger object is not iterable, so the run rejects with a
      `TypeError`.  With a list, `run` answers for those targets: `Success`
      with the run's `success` flag, or `Failure` when one of the awaited
      calls before the loop rejects.  `getPR` is not part of this model, so
      `id` does not enter the answer. */
  function LegacyRun(id: RunArgument, targets: RunArgument, run: seq<Target> -> Result<bool, string>)
    : (r: Result<bool, string>)
    ensures !targets.TargetList? ==> r == Failure(NOT_ITERABLE)
    ensures targets.TargetList? ==> r == run(targets.targets)
  {
    match targets
    case TargetList(ts) => run(ts)
    case _ => Failure(NOT_ITERABLE)
  }

  /** The call at index.js:50 and index.js:96: `backport(context, targets,
      logger)`, the targets in the place of `id` and the logger in the place
      of `targets`.  It always rejects. */
  function RunAsWritten(targets: seq<Target>, run: seq<Target> -> Result<bool, string>): (r: Result<bool, string>)
    ensures r == Failure(NOT_ITERABLE)
  {
    LegacyRun(TargetList(targets), Logger, run)
  }

  /** The call lib/backport.js expects: `backport(context, issueId, targets)`.
      Its answer is the run's answer for those targets. */
  function RunCorrected(issueId: int, targets: seq<Target>, run: seq<Target> -> Result<bool, string>)
    : (r: Result<bool, string>)
    ensures r == run(targets)
  {
    LegacyRun(PullNumber(issueId), TargetList(targets), run)
  }

  /** How a started backport ends for the handler: the backport label is
      removed after a successful run; after an unsuccessful one the command
      handler reacts as confused and the closing handler does nothing; a
      rejected run ends the handler with neither. */
  datatype RunEnd = LabelRemoved | Confused | LabelKept | Rejected(error: string)

  /** What the command handler does after `await backport(...)`. */
  function CommandEnd(answer: Result<bool, string>): (e: RunEnd)
    ensures e == LabelRemoved <==> answer == Success(true)
    ensures e == Confused <==> answer == Success(false)
    ensures e.Rejected? <==> answer.Failure?
    ensures e.Rejected? ==> e.error == answer.error
  {
    match answer
    case Success(success) => if success then LabelRemoved else Confused
    case Failure(error) => Rejected(error)
  }

  /** What the closing handler does after `await backport(...)`. */
  function ClosedEnd(answer: Result<bool, string>): (e: RunEnd)
    ensures e == LabelRemoved <==> answer == Success(true)
    ensures e == LabelKept <==> answer == Success(false)
    ensures e.Rejected? <==> answer.Failure?
    ensures e.Rejected? ==> e.error == answer.error
  {
    match answer
    case Success(success) => if success then LabelRemoved else LabelKept
    case Failure(error) => Rejected(error)
  }

  /** What the command handler does.  `NotPullRequest`, `InvalidTarget`
      and `ClosedUnmerged` answer with a -1 reaction; `AwaitingMerge`
      reacts with eyes and adds the backport label; `Backported` reacts
      with +1, adds the label, runs the backport and then ends as `end`
      says. */
  datatype CommandOutcome =
    | NotPullRequest
    | InvalidTarget
    | ClosedUnmerged
    | AwaitingMerge(target: Target)
    | Backported(target: Target, end: RunEnd)

  /** The decisions of the command handler once the command text is
      parsed: the pull request check, the target, then merged or closed;
      `answer` is the answer of the backport run for the target. */
  function Decide(url: string, issueId: nat, parsed: Option<Target>, merged: bool, closed: bool,
                  answer: seq<Target> -> Result<bool, string>): CommandOutcome
  {
    if !IsPullRequestUrl(url, issueId) then NotPullRequest
    else if parsed.None? then InvalidTarget
    else if !merged then (if closed then ClosedUnmerged else AwaitingMerge(parsed.value))
    else Backported(parsed.value, CommandEnd(answer([parsed.value])))
  }

  /** The decisions with the backport call of index.js:50 as written: a
      merged pull request with a valid command never gets its label removed
      and never gets the confused reaction, because the run rejects. */
  function CommandDecisionAsWritten(url: string, issueId: nat, parsed: Option<Target>, merged: bool, closed: bool,
                                    run: seq<Target> -> Result<bool, string>): (r: CommandOutcome)
    ensures r.Backported? ==> r.end == Rejected(NOT_ITERABLE)
    ensures r.Backported? <==> IsPullRequestUrl(url, issueId) && parsed.Some? && merged
  {
    Decide(url, issueId, parsed, merged, closed, ts => RunAsWritten(ts, run))
  }

  /** The decisions with the backport call lib/backport.js expects. */
  function CommandDecision(url: string, issueId: nat, parsed: Option<Target>, merged: bool, closed: bool,
                           run: seq<Target> -> Result<bool, string>): (r: CommandOutcome)
    ensures r == NotPullRequest <==> !IsPullRequestUrl(url, issueId)
    ensures r == InvalidTarget <==> IsPullRequestUrl(url, issueId) && parsed.None?
    ensures r == ClosedUnmerged <==> IsPullRequestUrl(url, issueId) && parsed.Some? && !merged && closed
    ensures r.AwaitingMerge? <==> IsPullRequestUrl(url, issueId) && parsed.Some? && !merged && !closed
    ensures r.Backported? <==> IsPullRequestUrl(url, issueId) && parsed.Some? && merged
    ensures (r.AwaitingMerge? || r.Backported?) ==> parsed == Some(r.target)
    ensures r.Backported? ==> (r.end == LabelRemoved <==> run([r.target]) == Success(true))
    ensures r.Backported? ==> (r.end == Confused <==> run([r.target]) == Success(false))
    ensures r.Backported? ==> (r.end.Rejected? <==> run([r.target]).Failure?)
  {
    Decide(url, issueId, parsed, merged, closed, ts => RunCorrected(issueId, ts, run))
  }

  /** With the call as written, a merged pull request and a valid command
      end rejected, whatever the run would have answered; with the call
      corrected, a run that succeeds removes the label. */
  lemma RunArgumentsSwapped(url: string, issueId: nat, target: Target, closed: bool,
                                  run: seq<Target> -> Result<bool, string>)
    requires IsPullRequestUrl(url, issueId)
    requires run([target]) == Success(true)
    ensures CommandDecisionAsWritten(url, issueId, Some(target), true, closed, run) == Backported(target, Rejected(NOT_ITERABLE))
    ensures CommandDecision(url, issueId, Some(target), true, closed, run) == Backported(target, LabelRemoved)
  {
  }

  /** The command handler as written: `comment.match(command.arguments)`,
      where the arguments are the text after `/backport`, and the backport
      call of index.js:50. */
  function HandleCommandAsWritten(url: string, issueId: nat, arguments: string, merged: bool, closed: bool,
                                  run: seq<Target> -> Result<bool, string>): (r: CommandOutcome)
    ensures (r.AwaitingMerge? || r.Backported?) ==> IsValidTarget(r.target)
  {
    var parsed := Match(arguments);
    if parsed.Some? then MatchValid(arguments); CommandDecisionAsWritten(url, issueId, parsed, merged, closed, run)
    else CommandDecisionAsWritten(url, issueId, parsed, merged, closed, run)
  }

  /** The arguments of `/backport to <branch>` are `to <branch>`, which
      does not start with `/backport `, so the handler as written rejects
      the target. */
  lemma ToBranchArgumentsRejected(url: string, issueId: nat, branch: string, merged: bool, closed: bool,
                                  run: seq<Target> -> Result<bool, string>)
    requires IsPullRequestUrl(url, issueId) && IsTargetName(branch)
    ensures HandleCommandAsWritten(url, issueId, "to " + branch, merged, closed, run) == InvalidTarget
  {
    var arguments := "to " + branch;
    forall k | 0 <= k < |arguments|
      ensures !IsLineTerminator(arguments[k])
    {
      if k >= 3 {
        assert arguments[k] == branch[k - 3];
      }
    }
    MatchOneLine(arguments);
    assert Lower(arguments[0]) != COMMAND[0];
  }

  /** The command handler matching the whole command, `/backport ` followed
      by its arguments. */
  function HandleCommand(url: string, issueId: nat, arguments: string, merged: bool, closed: bool,
                         run: seq<Target> -> Result<bool, string>): (r: CommandOutcome)
    ensures (r.AwaitingMerge? || r.Backported?) ==> IsValidTarget(r.target)
  {
    var parsed := Match(COMMAND + arguments);
    if parsed.Some? then MatchValid(COMMAND + arguments); CommandDecision(url, issueId, parsed, merged, closed, run)
    else CommandDecision(url, issueId, parsed, merged, closed, run)
  }

  /** `/backport to <branch>` on a merged pull request backports every
      commit to the branch; on an open one it waits for the merge. */
  lemma BranchCommandAccepted(url: string, issueId: nat, branch: string, merged: bool, closed: bool,
                              run: seq<Target> -> Result<bool, string>)
    requires IsPullRequestUrl(url, issueId) && IsTargetName(branch)
    ensures merged ==> HandleCommand(url, issueId, "to " + branch, merged, closed, run)
                       == Backported(Target(branch, []), CommandEnd(run([Target(branch, [])])))
    ensures !merged && !closed ==> HandleCommand(url, issueId, "to " + branch, merged, closed, run)
                                   == AwaitingMerge(Target(branch, []))
  {
    NoCommitGroup(branch);
    assert COMMAND + ("to " + branch) == COMMAND + "to " + branch;
  }

  /** A command listing valid commits is accepted with exactly those
      commits. */
  lemma ListedCommandAccepted(url: string, issueId: nat, commits: seq<string>, branch: string,
                              closed: bool, run: seq<Target> -> Result<bool, string>)
    requires IsPullRequestUrl(url, issueId) && IsValidTarget(Target(branch, commits))
    ensures HandleCommand(url, issueId, Join(commits, ",") + " to " + branch, true, closed, run)
            == Backported(Target(branch, commits), CommandEnd(run([Target(branch, commits)])))
  {
    var arguments := Join(commits, ",") + " to " + branch;
    MatchRoundTrip(commits, branch);
    assert COMMAND + arguments == COMMAND + Join(commits, ",") + " to " + branch;
    MatchedCommand(url, issueId, arguments, Target(branch, commits), closed, run);
  }

  /** A merged pull request whose command matches a target backports it. */
  lemma MatchedCommand(url: string, issueId: nat, arguments: string, t: Target, closed: bool,
                       run: seq<Target> -> Result<bool, string>)
    requires IsPullRequestUrl(url, issueId) && Match(COMMAND + arguments) == Some(t)
    ensures HandleCommand(url, issueId, arguments, true, closed, run) == Backported(t, CommandEnd(run([t])))
  {
  }

  // ---------------------------------------------------------------------
  // The targets of a closed pull request

  /** A comment of the pull request. */
  datatype Comment = Comment(id: int, body: string)

  /** The position of the target for `branch`, if there is one. */
  function IndexOfBranch(targets: seq<Target>, branch: string): (r: Option<nat>)
    ensures r.Some? ==> r.value < |targets| && targets[r.value].branch == branch
    ensures r.None? ==> forall i :: 0 <= i < |targets| ==> targets[i].branch != branch
  {
    if targets == [] then None
    else if targets[0].branch == branch then Some(0)
    else
      var r := IndexOfBranch(targets[1..], branch);
      assert forall i :: 0 < i < |targets| ==> targets[i] == targets[1..][i - 1];
      if r.Some? then Some(r.value + 1) else None
  }

  /** `targets[target.branch] = target` on an object whose keys keep the
      order in which they were first set. */
  function Assign(targets: seq<Target>, t: Target): seq<Target> {
    match IndexOfBranch(targets, t.branch)
    case Some(i) => targets[i := t]
    case None => targets + [t]
  }

  /** The object after the loop, given each comment's match in order. */
  function Targets(parsed: seq<Option<Target>>): (r: seq<Target>)
    ensures |r| <= |parsed|
    ensures r == [] <==> forall i :: 0 <= i < |parsed| ==> parsed[i].None?
    decreases |parsed|
  {
    if parsed == [] then []
    else
      var front := Targets(parsed[..|parsed| - 1]);
      assert forall i :: 0 <= i < |parsed| - 1 ==> parsed[..|parsed| - 1][i] == parsed[i];
      match parsed[|parsed| - 1]
      case None => front
      case Some(t) => Assign(front, t)
  }

  /** `comment.match` of every comment body, in order. */
  function MatchAll(comments: seq<Comment>): (r: seq<Option<Target>>)
    ensures |r| == |comments|
    ensures forall i :: 0 <= i < |r| ==> r[i] == Match(comments[i].body)
    decreases |comments|
  {
    if comments == [] then []
    else MatchAll(comments[..|comments| - 1]) + [Match(comments[|comments| - 1].body)]
  }

  /** The ids of the comments that match, in order: each is meant to get
      a +1. */
  function Acknowledged(comments: seq<Comment>): (r: seq<int>)
    ensures |r| <= |comments|
    decreases |comments|
  {
    if comments == [] then []
    else
      var front := Acknowledged(comments[..|comments| - 1]);
      var c := comments[|comments| - 1];
      if Match(c.body).Some? then front + [c.id] else front
  }

  /** Every acknowledged id is that of a matching comment. */
  lemma {:induction false} AcknowledgedFromMatch(comments: seq<Comment>, id: int)
    requires id in Acknowledged(comments)
    ensures exists i :: 0 <= i < |comments| && comments[i].id == id && Match(comments[i].body).Some?
    decreases |comments|
  {
    var n := |comments| - 1;
    var front := comments[..n];
    if id in Acknowledged(front) {
      AcknowledgedFromMatch(front, id);
      var i :| 0 <= i < |front| && front[i].id == id && Match(front[i].body).Some?;
      assert comments[i] == front[i];
    } else {
      assert comments[n].id == id && Match(comments[n].body).Some?;
    }
  }

  /** Every matching comment is acknowledged by its id. */
  lemma {:induction false} MatchAcknowledged(comments: seq<Comment>, i: nat)
    requires i < |comments| && Match(comments[i].body).Some?
    ensures comments[i].id in Acknowledged(comments)
    decreases |comments|
  {
    var n := |comments| - 1;
    var front := comments[..n];
    if i < n {
      assert front[i] == comments[i];
      MatchAcknowledged(front, i);
      AcknowledgedGrows(comments);
    } else {
      AcknowledgedLast(comments);
    }
  }

  /** A last comment that matches is acknowledged. */
  lemma AcknowledgedLast(comments: seq<Comment>)
    requires comments != [] && Match(comments[|comments| - 1].body).Some?
    ensures comments[|comments| - 1].id in Acknowledged(comments)
  {
    var n := |comments| - 1;
    assert Acknowledged(comments) == Acknowledged(comments[..n]) + [comments[n].id];
  }

  /** The acknowledgements of a prefix stay acknowledged. */
  lemma AcknowledgedGrows(comments: seq<Comment>)
    requires comments != []
    ensures forall id :: id in Acknowledged(comments[..|comments| - 1]) ==> id in Acknowledged(comments)
  {
  }

  /** The acknowledgements as written: index.js:81 destructures
      `{ body, commentId }`, a field comments do not have, so every
      matching comment's +1 goes to an undefined comment id. */
  function AcknowledgedAsWritten(comments: seq<Comment>): (r: seq<Option<int>>)
    ensures |r| == |Acknowledged(comments)|
    ensures forall i :: 0 <= i < |r| ==> r[i] == None
    decreases |comments|
  {
    if comments == [] then []
    else
      var front := AcknowledgedAsWritten(comments[..|comments| - 1]);
      var c := comments[|comments| - 1];
      if Match(c.body).Some? then front + [None] else front
  }

  /** A command comment with id 42 would be acknowledged by its id, but the
      code as written sends the +1 for an undefined id. */
  lemma UndefinedCommentId(branch: string)
    requires IsTargetName(branch)
    ensures Acknowledged([Comment(42, COMMAND + "to " + branch)]) == [42]
    ensures AcknowledgedAsWritten([Comment(42, COMMAND + "to " + branch)]) == [None]
  {
    NoCommitGroup(branch);
    var comments := [Comment(42, COMMAND + "to " + branch)];
    assert comments[..0] == [];
  }

  /** Comment `j` matches with a target for `branch`. */
  predicate Mentions(parsed: seq<Option<Target>>, j: int, branch: string) {
    0 <= j < |parsed| && parsed[j].Some? && parsed[j].value.branch == branch
  }

  /** The shape of one assignment: positions keep their branch, entries for
      other branches are untouched, and a new branch goes at the end. */
  lemma AssignShape(targets: seq<Target>, t: Target)
    ensures var r := Assign(targets, t);
            (|r| == |targets| || |r| == |targets| + 1)
            && (forall i :: 0 <= i < |targets| ==> r[i].branch == targets[i].branch)
            && (forall i :: 0 <= i < |targets| && targets[i].branch != t.branch ==> r[i] == targets[i])
            && t in r
            && (|r| == |targets| + 1 <==> forall i :: 0 <= i < |targets| ==> targets[i].branch != t.branch)
            && (|r| == |targets| + 1 ==> r[|targets|] == t)
  {
  }

  /** The targets have pairwise different branches. */
  lemma {:induction false} TargetsDistinct(parsed: seq<Option<Target>>)
    ensures forall i, j :: 0 <= i < j < |Targets(parsed)| ==> Targets(parsed)[i].branch != Targets(parsed)[j].branch
    decreases |parsed|
  {
    if parsed != [] {
      var front := parsed[..|parsed| - 1];
      TargetsDistinct(front);
      var f := Targets(front);
      if parsed[|parsed| - 1].Some? {
        var t := parsed[|parsed| - 1].value;
        AssignShape(f, t);
        var r := Targets(parsed);
        assert r == Assign(f, t);
        forall i, j | 0 <= i < j < |r|
          ensures r[i].branch != r[j].branch
        {
          if j == |f| {
            assert r[j] == t;
          }
        }
      }
    }
  }

  /** Every branch a comment names has a target. */
  lemma {:induction false} TargetsComplete(parsed: seq<Option<Target>>)
    ensures forall j :: 0 <= j < |parsed| && parsed[j].Some? ==>
              IndexOfBranch(Targets(parsed), parsed[j].value.branch).Some?
    decreases |parsed|
  {
    if parsed != [] {
      var n := |parsed| - 1;
      var front := parsed[..n];
      TargetsComplete(front);
      var f := Targets(front);
      var r := Targets(parsed);
      if parsed[n].Some? {
        AssignShape(f, parsed[n].value);
        assert r == Assign(f, parsed[n].value);
      }
      forall j | 0 <= j < |parsed| && parsed[j].Some?
        ensures IndexOfBranch(r, parsed[j].value.branch).Some?
      {
        var b := parsed[j].value.branch;
        if j < n {
          assert front[j] == parsed[j];
          var k := IndexOfBranch(f, b).value;
          assert r[k].branch == b;
        } else {
          var k :| 0 <= k < |r| && r[k] == parsed[n].value;
          assert r[k].branch == b;
        }
      }
    } else {
      assert Targets(parsed) == [];
    }
  }

  /** Each target is the one of the last comment that names its branch. */
  lemma {:induction false} TargetsFromLastMention(parsed: seq<Option<Target>>)
    ensures forall k :: 0 <= k < |Targets(parsed)| ==>
              exists j :: 0 <= j < |parsed| && parsed[j] == Some(Targets(parsed)[k])
                          && forall l :: j < l < |parsed| ==> !Mentions(parsed, l, Targets(parsed)[k].branch)
    decreases |parsed|
  {
    if parsed != [] {
      var n := |parsed| - 1;
      var front := parsed[..n];
      TargetsFromLastMention(front);
      TargetsDistinct(front);
      var f := Targets(front);
      var r := Targets(parsed);
      forall k | 0 <= k < |r|
        ensures exists j :: 0 <= j < |parsed| && parsed[j] == Some(r[k])
                            && forall l :: j < l < |parsed| ==> !Mentions(parsed, l, r[k].branch)
      {
        if parsed[n].Some? && r[k].branch == parsed[n].value.branch {
          var t := parsed[n].value;
          AssignShape(f, t);
          assert r == Assign(f, t);
          assert parsed[n] == Some(r[k]);
        } else {
          if parsed[n].Some? {
            AssignShape(f, parsed[n].value);
            assert r == Assign(f, parsed[n].value);
          }
          assert k < |f| && r[k] == f[k];
          var j :| 0 <= j < |front| && front[j] == Some(f[k])
                   && forall l :: j < l < |front| ==> !Mentions(front, l, f[k].branch);
          assert parsed[j] == Some(r[k]);
          forall l | j < l < |parsed|
            ensures !Mentions(parsed, l, r[k].branch)
          {
            if l < n {
              assert parsed[l] == front[l];
              assert !Mentions(front, l, f[k].branch);
            }
          }
        }
      }
    } else {
      assert Targets(parsed) == [];
    }
  }

  /** The index of the first comment that names `branch`, or the number
      of comments when none does. */
  function FirstMention(parsed: seq<Option<Target>>, branch: string): (k: nat)
    ensures k <= |parsed|
    ensures k < |parsed| ==> Mentions(parsed, k, branch)
    ensures forall i :: 0 <= i < k ==> !Mentions(parsed, i, branch)
    decreases |parsed|
  {
    if parsed == [] then 0
    else
      var n := |parsed| - 1;
      var k := FirstMention(parsed[..n], branch);
      assert forall i :: 0 <= i < n ==> (Mentions(parsed[..n], i, branch) <==> Mentions(parsed, i, branch));
      if k < n then k
      else if Mentions(parsed, n, branch) then n
      else |parsed|
  }

  /** A branch first named among the earlier comments keeps its first
      mention when one more comment comes. */
  lemma FirstMentionKept(parsed: seq<Option<Target>>, branch: string)
    requires parsed != []
    requires FirstMention(parsed[..|parsed| - 1], branch) < |parsed| - 1
    ensures FirstMention(parsed, branch) == FirstMention(parsed[..|parsed| - 1], branch)
  {
  }

  /** A branch first named by the last comment is first mentioned there. */
  lemma FirstMentionNew(parsed: seq<Option<Target>>, branch: string)
    requires parsed != []
    requires FirstMention(parsed[..|parsed| - 1], branch) == |parsed| - 1
    requires Mentions(parsed, |parsed| - 1, branch)
    ensures FirstMention(parsed, branch) == |parsed| - 1
  {
  }

  /** A branch that some comment names is first mentioned before the end. */
  lemma MentionedEarly(parsed: seq<Option<Target>>, j: nat, branch: string)
    requires Mentions(parsed, j, branch)
    ensures FirstMention(parsed, branch) <= j
  {
  }

  /** One pair of targets after one more comment. */
  lemma OrderPair(parsed: seq<Option<Target>>, f: seq<Target>, r: seq<Target>, a: nat, b: nat)
    requires parsed != []
    requires var front := parsed[..|parsed| - 1];
             forall j :: 0 <= j < |front| && front[j].Some? ==> IndexOfBranch(f, front[j].value.branch).Some?
    requires parsed[|parsed| - 1].None? ==> r == f
    requires parsed[|parsed| - 1].Some? ==> r == Assign(f, parsed[|parsed| - 1].value)
    requires a < b < |r| && a < |f|
    requires FirstMention(parsed[..|parsed| - 1], f[a].branch) < |parsed| - 1
    requires b < |f| ==> FirstMention(parsed[..|parsed| - 1], f[a].branch)
                         < FirstMention(parsed[..|parsed| - 1], f[b].branch) < |parsed| - 1
    ensures FirstMention(parsed, r[a].branch) < FirstMention(parsed, r[b].branch)
  {
    var n := |parsed| - 1;
    var front := parsed[..n];
    if parsed[n].Some? {
      AssignShape(f, parsed[n].value);
    }
    assert r[a].branch == f[a].branch;
    FirstMentionKept(parsed, f[a].branch);
    if b < |f| {
      assert r[b].branch == f[b].branch;
      FirstMentionKept(parsed, f[b].branch);
    } else {
      var t := parsed[n].value;
      assert r[b] == t;
      FirstMentionNew(parsed, t.branch);
    }
  }

  /** Targets come in the order in which their branches were first named. */
  lemma {:induction false} TargetsInFirstMentionOrder(parsed: seq<Option<Target>>)
    ensures forall a, b :: 0 <= a < b < |Targets(parsed)| ==>
              FirstMention(parsed, Targets(parsed)[a].branch) < FirstMention(parsed, Targets(parsed)[b].branch)
    decreases |parsed|
  {
    if parsed != [] {
      var n := |parsed| - 1;
      var front := parsed[..n];
      TargetsInFirstMentionOrder(front);
      TargetsComplete(front);
      TargetsFromLastMention(front);
      var f := Targets(front);
      var r := Targets(parsed);
      if parsed[n].Some? {
        assert r == Assign(f, parsed[n].value);
      }
      forall a, b | 0 <= a < b < |r|
        ensures FirstMention(parsed, r[a].branch) < FirstMention(parsed, r[b].branch)
      {
        if parsed[n].Some? {
          AssignShape(f, parsed[n].value);
        }
        var ja :| 0 <= ja < |front| && front[ja] == Some(f[a]);
        MentionedEarly(front, ja, f[a].branch);
        if b < |f| {
          var jb :| 0 <= jb < |front| && front[jb] == Some(f[b]);
          MentionedEarly(front, jb, f[b].branch);
        }
        OrderPair(parsed, f, r, a, b);
      }
    } else {
      assert Targets(parsed) == [];
    }
  }

  /** The targets loop: every comment that matches overwrites the entry of
      its branch, or adds one, and is acknowledged. */
  method CollectTargets(comments: seq<Comment>) returns (targets: seq<Target>, acknowledged: seq<int>)
    ensures targets == Targets(MatchAll(comments))
    ensures acknowledged == Acknowledged(comments)
  {
    targets := [];
    acknowledged := [];
    for i := 0 to |comments|
      invariant targets == Targets(MatchAll(comments[..i]))
      invariant acknowledged == Acknowledged(comments[..i])
    {
      assert comments[..i + 1][..i] == comments[..i];
      var target := Match(comments[i].body);
      if target.Some? {
        targets := Assign(targets, target.value);
        acknowledged := acknowledged + [comments[i].id];
      }
      assert MatchAll(comments[..i + 1]) == MatchAll(comments[..i]) + [target];
    }
    assert comments[..|comments|] == comments;
  }

  /** What the closing handler does. */
  datatype ClosedOutcome =
    | InvalidPullRequest
    | NotMerged
    | NothingToBackport
    | BackportRun(targets: seq<Target>, acknowledged: seq<int>, end: RunEnd)

  /** The `pull_request.closed` handler: a missing or zero number, an
      unmerged pull request and a pull request without commands do
      nothing; otherwise every target is backported and the backport label
      is removed when the run succeeds.  The backport is called as
      lib/backport.js expects, with the pull request number. */
  method HandleClosed(issueId: Option<int>, merged: bool, comments: seq<Comment>,
                      run: seq<Target> -> Result<bool, string>) returns (outcome: ClosedOutcome)
    ensures (issueId.None? || issueId.value == 0) <==> outcome == InvalidPullRequest
    ensures outcome == NotMerged <==> issueId.Some? && issueId.value != 0 && !merged
    ensures outcome == NothingToBackport <==>
              issueId.Some? && issueId.value != 0 && merged && Targets(MatchAll(comments)) == []
    ensures outcome.BackportRun? ==>
              outcome.targets == Targets(MatchAll(comments)) && outcome.targets != []
              && outcome.acknowledged == Acknowledged(comments)
              && (outcome.end == LabelRemoved <==> run(outcome.targets) == Success(true))
              && (outcome.end == LabelKept <==> run(outcome.targets) == Success(false))
              && (outcome.end.Rejected? <==> run(outcome.targets).Failure?)
  {
    if issueId.None? || issueId.value == 0 {
      return InvalidPullRequest;
    }
    if !merged {
      return NotMerged;
    }
    var targets, acknowledged := CollectTargets(comments);
    if |targets| == 0 {
      return NothingToBackport;
    }
    var answer := RunCorrected(issueId.value, targets, run);
    outcome := BackportRun(targets, acknowledged, ClosedEnd(answer));
  }

  /** The end of the closing handler with the backport call of index.js:96
      as written: it rejects, so the backport label is never removed. */
  lemma ClosedRunAsWrittenRejects(targets: seq<Target>, run: seq<Target> -> Result<bool, string>)
    ensures ClosedEnd(RunAsWritten(targets, run)) == Rejected(NOT_ITERABLE)
    ensures run(targets) == Success(true) ==> ClosedEnd(RunCorrected(1, targets, run)) == LabelRemoved
  {
  }
}

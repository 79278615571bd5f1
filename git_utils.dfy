/**
 * The git side of a backport (src/gitUtils.ts): picking the commits with the
 * `ours` fallback, amending the last picked commit with a `[skip ci]` tag,
 * and the checks for skip-ci commits, diffs and empty commits.  Git itself is
 * an oracle: the outcome of every call is an input.
 */
module GitUtils {
  import opened Wrappers
  import opened Seqs
  import opened JsString
  import opened Constants

  /** The git commands the cherry-pick step issues, in order. */
  datatype GitCall =
    | CherryPick(commit: string)
    | CherryPickOurs(commit: string)
    | CherryPickAbort
    | ReadLog(commit: string)
    | Amend(body: string)  // `git commit` with the arguments `AmendArgs(body)`

  /** How git answers the calls made for one commit: the plain pick, the
      abort after it, the pick with the `ours` strategy, the abort after that. */
  datatype Attempt = Attempt(plainOk: bool, abortOk: bool, oursOk: bool, oursAbortOk: bool)

  /** The error a failing `cherry-pick --abort` propagates; git's own
      message is not modelled. */
  /** The tag that keeps CI from running on a commit. */
  const SKIP_CI_TAG: string := "[skip ci]"

  const ABORT_FAILED: string := "cherry-pick --abort failed"

  /** The loop state of `cherryPickCommits`, with the calls made so far and
      whether an abort failed (which ends the loop with an error). */
  datatype PickState = PickState(conflicts: bool, lastValidCommit: string, calls: seq<GitCall>, failed: bool)

  /** One iteration of the loop for `commit`. */
  function PickStep(st: PickState, commit: string, a: Attempt): PickState {
    if st.failed then st
    else if a.plainOk then
      st.(lastValidCommit := commit, calls := st.calls + [CherryPick(commit)])
    else
      var aborted := st.(conflicts := true, calls := st.calls + [CherryPick(commit), CherryPickAbort]);
      if !a.abortOk then aborted.(failed := true)
      else if a.oursOk then
        aborted.(lastValidCommit := commit, calls := aborted.calls + [CherryPickOurs(commit)])
      else
        var skipped := aborted.(calls := aborted.calls + [CherryPickOurs(commit), CherryPickAbort]);
        if a.oursAbortOk then skipped else skipped.(failed := true)
  }

  /** The loop run over all the commits, starting from no conflicts and no
      valid commit. */
  function Replay(commits: seq<string>, attempts: seq<Attempt>): (r: PickState)
    requires |attempts| == |commits|
    ensures r.failed ==> r.conflicts
    ensures r.lastValidCommit == "" || r.lastValidCommit in commits
    decreases |commits|
  {
    if commits == [] then PickState(false, "", [], false)
    else
      var n := |commits| - 1;
      PickStep(Replay(commits[..n], attempts[..n]), commits[n], attempts[n])
  }

  /** A `-m` argument before each line, the line passed through `clean`. */
  function MessageArgs(clean: string -> string, lines: seq<string>): (r: seq<string>)
    ensures |r| == 2 * |lines|
  {
    if lines == [] then []
    else ["-m", clean(lines[0])] + MessageArgs(clean, lines[1..])
  }

  /** The message given to the amend: the original body plus `[skip ci]`
      after a blank line. */
  function AmendedMessage(body: string): string {
    body + "\n\n" + SKIP_CI_TAG
  }

  /** `['commit', '--amend', '-m', line1, '-m', line2, ...]`. */
  function AmendArgs(body: string): seq<string> {
    ["commit", "--amend"] + MessageArgs(Trim, Split(AmendedMessage(body), "\n"))
  }

  /** The calls made after the loop: read the log of the last valid commit
      when there were conflicts, then amend it if it has a non-empty body.
      A failure to read the log makes no further call. */
  function AmendCalls(st: PickState, logBody: Result<string, string>): (r: seq<GitCall>)
    ensures |r| <= 2
    ensures r != [] <==> st.conflicts && st.lastValidCommit != ""
    ensures r != [] ==> r[0] == ReadLog(st.lastValidCommit)
    ensures |r| == 2 <==> r != [] && logBody.Success? && logBody.value != ""
    ensures |r| == 2 ==> r[1] == Amend(logBody.value)
  {
    if st.conflicts && st.lastValidCommit != "" then
      [ReadLog(st.lastValidCommit)]
      + (match logBody
         case Success(body) => if body != "" then [Amend(body)] else []
         case Failure(_) => [])
    else []
  }

  /** `cherryPickCommits`: tries each commit plainly, then with `ours`, and
      skips it when both fail; an abort that fails ends it with an error.
      `logBody` is what `git log` answers for the last valid commit. */
  method CherryPickCommits(commits: seq<string>, attempts: seq<Attempt>, logBody: Result<string, string>)
    returns (r: Result<CherryPickResult, string>, lastValidCommit: string, calls: seq<GitCall>)
    requires |attempts| == |commits|
    ensures var st := Replay(commits, attempts);
            (st.failed ==> r == Failure(ABORT_FAILED) && calls == st.calls)
            && (!st.failed ==> r == Success(if st.conflicts then CONFLICTS else OK)
                               && lastValidCommit == st.lastValidCommit
                               && calls == st.calls + AmendCalls(st, logBody))
  {
    var conflicts := false;
    lastValidCommit := "";
    calls := [];
    var i := 0;
    while i < |commits|
      invariant 0 <= i <= |commits|
      invariant Replay(commits[..i], attempts[..i]) == PickState(conflicts, lastValidCommit, calls, false)
    {
      ReplayStep(commits, attempts, i);
      var failed;
      conflicts, lastValidCommit, calls, failed := PickOne(commits[i], attempts[i], conflicts, lastValidCommit, calls);
      if failed {
        r := Failure(ABORT_FAILED);
        FailureIsSticky(commits, attempts, i + 1);
        return;
      }
      i := i + 1;
    }
    assert commits[..i] == commits && attempts[..i] == attempts;
    var amendCalls := ReadAndAmend(conflicts, lastValidCommit, logBody);
    calls := calls + amendCalls;
    r := Success(if conflicts then CONFLICTS else OK);
  }

  /** One pass of the loop of `cherryPickCommits`: a plain cherry-pick, and
      on failure an abort and a retry with the `ours` strategy, aborted in
      turn when it fails. `failed` tells that an abort failed. */
  method PickOne(commit: string, a: Attempt, conflicts: bool, lastValidCommit: string, calls: seq<GitCall>)
    returns (conflicts': bool, lastValidCommit': string, calls': seq<GitCall>, failed: bool)
    ensures PickState(conflicts', lastValidCommit', calls', failed)
            == PickStep(PickState(conflicts, lastValidCommit, calls, false), commit, a)
  {
    conflicts', lastValidCommit', failed := conflicts, lastValidCommit, false;
    calls' := calls + [CherryPick(commit)];
    if a.plainOk {
      lastValidCommit' := commit;
      return;
    }
    conflicts' := true;
    calls' := calls' + [CherryPickAbort];
    if !a.abortOk {
      failed := true;
      return;
    }
    calls' := calls' + [CherryPickOurs(commit)];
    if a.oursOk {
      lastValidCommit' := commit;
    } else {
      calls' := calls' + [CherryPickAbort];
      failed := !a.oursAbortOk;
    }
  }

  /** The tail of `cherryPickCommits`: after conflicts, read the body of the
      last valid commit and amend it with `[skip ci]` when it is not empty. */
  method ReadAndAmend(conflicts: bool, lastValidCommit: string, logBody: Result<string, string>)
    returns (calls: seq<GitCall>)
    ensures calls == AmendCalls(PickState(conflicts, lastValidCommit, [], false), logBody)
  {
    calls := [];
    if conflicts && lastValidCommit != "" {
      calls := calls + [ReadLog(lastValidCommit)];
      match logBody {
        case Success(body) =>
          if body != "" {
            calls := calls + [Amend(body)];
          }
        case Failure(_) =>
      }
    }
  }

  /** One more commit of the loop is one more `PickStep`. */
  lemma ReplayStep(commits: seq<string>, attempts: seq<Attempt>, i: nat)
    requires |attempts| == |commits| && i < |commits|
    ensures Replay(commits[..i + 1], attempts[..i + 1])
            == PickStep(Replay(commits[..i], attempts[..i]), commits[i], attempts[i])
  {
    assert commits[..i + 1][..i] == commits[..i] && attempts[..i + 1][..i] == attempts[..i];
  }

  /** Once an abort has failed, the remaining commits change nothing. */
  lemma {:induction false} FailureIsSticky(commits: seq<string>, attempts: seq<Attempt>, k: nat)
    requires |attempts| == |commits| && k <= |commits|
    requires Replay(commits[..k], attempts[..k]).failed
    ensures Replay(commits, attempts) == Replay(commits[..k], attempts[..k])
    decreases |commits| - k
  {
    if k < |commits| {
      assert commits[..k + 1][..k] == commits[..k] && attempts[..k + 1][..k] == attempts[..k];
      FailureIsSticky(commits, attempts, k + 1);
    } else {
      assert commits[..k] == commits && attempts[..k] == attempts;
    }
  }

  /** The result is `CONFLICTS` exactly when some plain pick failed. */
  lemma {:induction false} ConflictsIffPlainPickFailed(commits: seq<string>, attempts: seq<Attempt>)
    requires |attempts| == |commits|
    requires !Replay(commits, attempts).failed
    ensures Replay(commits, attempts).conflicts <==> exists i :: 0 <= i < |attempts| && !attempts[i].plainOk
    decreases |commits|
  {
    if commits != [] {
      var n := |commits| - 1;
      ConflictsIffPlainPickFailed(commits[..n], attempts[..n]);
      assert forall i :: 0 <= i < n ==> attempts[..n][i] == attempts[i];
    }
  }

  /** The commit a plain or `ours` pick applied last, or `''`. */
  function LastApplied(commits: seq<string>, attempts: seq<Attempt>): string
    requires |attempts| == |commits|
    decreases |commits|
  {
    if commits == [] then ""
    else
      var n := |commits| - 1;
      if attempts[n].plainOk || attempts[n].oursOk then commits[n]
      else LastApplied(commits[..n], attempts[..n])
  }

  /** `lastValidCommit` is the last commit that either pick applied; a
      commit on which both picks fail is skipped. */
  lemma {:induction false} LastValidIsLastApplied(commits: seq<string>, attempts: seq<Attempt>)
    requires |attempts| == |commits|
    requires !Replay(commits, attempts).failed
    ensures Replay(commits, attempts).lastValidCommit == LastApplied(commits, attempts)
    decreases |commits|
  {
    if commits != [] {
      var n := |commits| - 1;
      LastValidIsLastApplied(commits[..n], attempts[..n]);
    }
  }

  /** The commits tried with a plain pick, in call order. */
  function PlainPicks(calls: seq<GitCall>): seq<string>
    decreases |calls|
  {
    if calls == [] then []
    else
      var last := calls[|calls| - 1];
      PlainPicks(calls[..|calls| - 1]) + (if last.CherryPick? then [last.commit] else [])
  }

  lemma {:induction false} PlainPicksAppend(a: seq<GitCall>, b: seq<GitCall>)
    ensures PlainPicks(a + b) == PlainPicks(a) + PlainPicks(b)
    decreases |b|
  {
    if b == [] {
      assert a + b == a;
    } else {
      var n := |b| - 1;
      PlainPicksAppend(a, b[..n]);
      assert (a + b)[..|a + b| - 1] == a + b[..n];
    }
  }

  /** The calls one commit adds when no abort fails hold one plain pick. */
  lemma PlainPicksOfStep(c: string)
    ensures PlainPicks([CherryPick(c)]) == [c]
    ensures PlainPicks([CherryPick(c), CherryPickAbort, CherryPickOurs(c)]) == [c]
    ensures PlainPicks([CherryPick(c), CherryPickAbort, CherryPickOurs(c), CherryPickAbort]) == [c]
  {
    var one: seq<GitCall> := [CherryPick(c)];
    assert one[..0] == [];
    assert [CherryPick(c), CherryPickAbort][..1] == one;
    assert [CherryPick(c), CherryPickAbort, CherryPickOurs(c)][..2] == [CherryPick(c), CherryPickAbort];
    assert [CherryPick(c), CherryPickAbort, CherryPickOurs(c), CherryPickAbort][..3]
        == [CherryPick(c), CherryPickAbort, CherryPickOurs(c)];
  }

  /** Every commit gets exactly one plain pick, in list order. */
  lemma {:induction false} CommitsPickedInOrder(commits: seq<string>, attempts: seq<Attempt>)
    requires |attempts| == |commits|
    requires !Replay(commits, attempts).failed
    ensures PlainPicks(Replay(commits, attempts).calls) == commits
    decreases |commits|
  {
    if commits != [] {
      var n := |commits| - 1;
      var st := Replay(commits[..n], attempts[..n]);
      var c, a := commits[n], attempts[n];
      assert Replay(commits, attempts) == PickStep(st, c, a);
      StepAppends(st, c, a);
      CommitsPickedInOrder(commits[..n], attempts[..n]);
      PickedAfter(st, c, a, commits[..n]);
      assert commits[..n] + [c] == commits;
    }
  }

  /** A step that does not fail adds its commit to the plain picks. */
  lemma PickedAfter(st: PickState, c: string, a: Attempt, picked: seq<string>)
    requires !PickStep(st, c, a).failed && PlainPicks(st.calls) == picked
    ensures PlainPicks(PickStep(st, c, a).calls) == picked + [c]
  {
    StepAppends(st, c, a);
    PlainPicksAppend(st.calls, StepCalls(c, a));
  }

  /** The calls one commit adds when none of its aborts fails. */
  function StepCalls(c: string, a: Attempt): seq<GitCall> {
    if a.plainOk then [CherryPick(c)]
    else if a.oursOk then [CherryPick(c), CherryPickAbort, CherryPickOurs(c)]
    else [CherryPick(c), CherryPickAbort, CherryPickOurs(c), CherryPickAbort]
  }

  /** A step that does not fail appends `StepCalls`, with one plain pick. */
  lemma StepAppends(st: PickState, c: string, a: Attempt)
    requires !PickStep(st, c, a).failed
    ensures !st.failed
    ensures PickStep(st, c, a).calls == st.calls + StepCalls(c, a)
    ensures PlainPicks(StepCalls(c, a)) == [c]
  {
    PlainPicksOfStep(c);
  }

  /** Each `ours` pick of a commit comes right after its failed plain pick
      and the abort of it. */
  predicate OursAfterAbort(calls: seq<GitCall>) {
    forall k :: 0 <= k < |calls| && calls[k].CherryPickOurs? ==>
      k >= 2 && calls[k - 1] == CherryPickAbort && calls[k - 2] == CherryPick(calls[k].commit)
  }

  lemma OursAfterAbortExtend(prev: seq<GitCall>, tail: seq<GitCall>, c: string)
    requires OursAfterAbort(prev)
    requires tail in {[CherryPick(c)], [CherryPick(c), CherryPickAbort],
                      [CherryPick(c), CherryPickAbort, CherryPickOurs(c)],
                      [CherryPick(c), CherryPickAbort, CherryPickOurs(c), CherryPickAbort]}
    ensures OursAfterAbort(prev + tail)
  {
    var calls := prev + tail;
    forall k | 0 <= k < |calls| && calls[k].CherryPickOurs?
      ensures k >= 2 && calls[k - 1] == CherryPickAbort && calls[k - 2] == CherryPick(calls[k].commit)
    {
      if k < |prev| {
        assert calls[k] == prev[k] && calls[k - 1] == prev[k - 1] && calls[k - 2] == prev[k - 2];
      } else {
        assert tail[k - |prev|].CherryPickOurs?;
        assert k - |prev| == 2;
      }
    }
  }

  /** The `ours` strategy is only tried after a plain pick failed and was
      aborted. */
  lemma {:induction false} OursFollowsAbortedPlainPick(commits: seq<string>, attempts: seq<Attempt>)
    requires |attempts| == |commits|
    ensures OursAfterAbort(Replay(commits, attempts).calls)
    decreases |commits|
  {
    if commits != [] {
      var n := |commits| - 1;
      OursFollowsAbortedPlainPick(commits[..n], attempts[..n]);
      var st := Replay(commits[..n], attempts[..n]);
      var c, a := commits[n], attempts[n];
      if !st.failed {
        var tail :=
          if a.plainOk then [CherryPick(c)]
          else if !a.abortOk then [CherryPick(c), CherryPickAbort]
          else if a.oursOk then [CherryPick(c), CherryPickAbort, CherryPickOurs(c)]
          else [CherryPick(c), CherryPickAbort, CherryPickOurs(c), CherryPickAbort];
        assert Replay(commits, attempts).calls == st.calls + tail;
        OursAfterAbortExtend(st.calls, tail, c);
      }
    }
  }

  /** A message line for line with two lines added, an empty one and `tag`. */
  lemma SplitTwoMoreLines(body: string, d: char, tag: string)
    requires d !in tag
    ensures Split(body + [d] + [d] + tag, [d]) == Split(body, [d]) + ["", tag]
  {
    var tail := [d] + tag;
    assert body + [d] + [d] + tag == body + [d] + tail;
    SplitAround(body, d, tail);
    SplitBlankThenLine(d, tag);
  }

  /** A separator followed by a line without one gives an empty piece and
      that line. */
  lemma SplitBlankThenLine(d: char, tag: string)
    requires d !in tag
    ensures Split([d] + tag, [d]) == ["", tag]
  {
    assert [d] + tag == [] + [d] + tag;
    SplitAround([], d, tag);
    SplitWithout([], d);
    SplitWithout(tag, d);
  }

  lemma {:induction false} MessageArgsAppend(clean: string -> string, a: seq<string>, b: seq<string>)
    ensures MessageArgs(clean, a + b) == MessageArgs(clean, a) + MessageArgs(clean, b)
    decreases |a|
  {
    if a == [] {
      assert a + b == b;
    } else {
      assert (a + b)[1..] == a[1..] + b;
      MessageArgsAppend(clean, a[1..], b);
    }
  }

  lemma SkipCiTagIsOneLine()
    ensures '\n' !in SKIP_CI_TAG
  {
  }

  lemma SkipCiTagIsTrimmed()
    ensures Trim(SKIP_CI_TAG) == SKIP_CI_TAG
  {
    assert !IsWhitespace(SKIP_CI_TAG[0]) && !IsWhitespace(SKIP_CI_TAG[|SKIP_CI_TAG| - 1]);
    TrimUnchanged(SKIP_CI_TAG);
  }

  /** Line `i` of the message is passed, trimmed, as the `-m` pair at `2 * i`. */
  lemma {:induction false} MessageArgsAt(clean: string -> string, lines: seq<string>, i: nat)
    requires i < |lines|
    ensures MessageArgs(clean, lines)[2 * i] == "-m"
    ensures MessageArgs(clean, lines)[2 * i + 1] == clean(lines[i])
    decreases i
  {
    if i > 0 {
      MessageArgsAt(clean, lines[1..], i - 1);
    }
  }

  lemma AmendedLines(body: string, tag: string)
    requires '\n' !in tag
    ensures Split(body + "\n\n" + tag, "\n") == Split(body, "\n") + ["", tag]
  {
    assert body + "\n\n" + tag == body + ['\n'] + ['\n'] + tag;
    SplitTwoMoreLines(body, '\n', tag);
  }

  lemma TaggedMessageArgs(clean: string -> string, body: string, tag: string)
    requires '\n' !in tag && clean("") == "" && clean(tag) == tag
    ensures MessageArgs(clean, Split(body + "\n\n" + tag, "\n"))
            == MessageArgs(clean, Split(body, "\n")) + ["-m", "", "-m", tag]
  {
    AmendedLines(body, tag);
    MessageArgsAppend(clean, Split(body, "\n"), ["", tag]);
    assert MessageArgs(clean, ["", tag]) == ["-m", "", "-m", tag];
  }

  /** The amend passes one trimmed `-m` line per line of the original body,
      then an empty line and the `[skip ci]` tag. */
  lemma AmendArgsShape(body: string)
    ensures AmendArgs(body)
            == ["commit", "--amend"] + MessageArgs(Trim, Split(body, "\n")) + ["-m", "", "-m", SKIP_CI_TAG]
  {
    SkipCiTagIsOneLine();
    SkipCiTagIsTrimmed();
    TrimUnchanged("");
    TaggedMessageArgs(Trim, body, SKIP_CI_TAG);
    var lines := MessageArgs(Trim, Split(body, "\n"));
    var tail := ["-m", "", "-m", SKIP_CI_TAG];
    assert MessageArgs(Trim, Split(AmendedMessage(body), "\n")) == lines + tail;
    AppendAssoc(["commit", "--amend"], lines, tail);
  }

  lemma AppendAssoc<T>(a: seq<T>, b: seq<T>, c: seq<T>)
    ensures a + (b + c) == a + b + c
  {
  }

  /** `hasSkipCiCommits`: some log body contains `[skip ci]`. */
  function HasSkipCiCommits(bodies: seq<string>): (r: bool)
    ensures r <==> exists i :: 0 <= i < |bodies| && Includes(bodies[i], SKIP_CI_TAG)
    decreases |bodies|
  {
    if bodies == [] then false
    else Includes(bodies[0], SKIP_CI_TAG) || HasSkipCiCommits(bodies[1..])
  }

  /** `hasDiff`: whether `git diff --stat` printed anything; a failing git
      call propagates its error. */
  function HasDiff(stat: Result<string, string>): (r: Result<bool, string>)
    ensures r.Success? <==> stat.Success?
    ensures r == Success(true) <==> stat.Success? && |stat.value| > 0
    ensures r.Failure? ==> r.error == stat.error
  {
    match stat
    case Success(out) => Success(out != "")
    case Failure(e) => Failure(e)
  }

  /** `hasEmptyCommits`: probes `HEAD~count` against `HEAD~(count+1)` for
      `count` from 0 and stops at the first pair without a diff.  `diffStat`
      is git's answer for each count (a failure propagates). */
  method HasEmptyCommits(commits: nat, diffStat: nat -> Result<string, string>)
    returns (r: Result<bool, string>, probes: nat)
    ensures probes <= commits
    ensures forall c :: 0 <= c < probes - 1 ==> HasDiff(diffStat(c)) == Success(true)
    ensures r == Success(true) <==> probes > 0 && diffStat(probes - 1) == Success("")
    ensures r.Failure? <==> probes > 0 && diffStat(probes - 1).Failure?
    ensures r.Failure? ==> r.error == diffStat(probes - 1).error
    ensures r == Success(false) <==> probes == commits && forall c :: 0 <= c < commits ==> HasDiff(diffStat(c)) == Success(true)
  {
    var hasEmpty := false;
    var count := 0;
    while count < commits
      invariant count <= commits
      invariant forall c :: 0 <= c < count ==> HasDiff(diffStat(c)) == Success(true)
    {
      var diff := HasDiff(diffStat(count));
      if diff.Failure? {
        return Failure(diff.error), count + 1;
      }
      if !diff.value {
        hasEmpty := true;
        probes := count + 1;
        break;
      }
      count := count + 1;
    }
    if !hasEmpty {
      probes := commits;
    }
    r := Success(hasEmpty);
  }
}

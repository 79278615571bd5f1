/**
 * The decision rules of the first version's backport routine
 * (lib/backport.js): the milestone chosen for a target branch, the labels
 * carried over to the backport and the commits picked for a target.  The
 * git and API calls around them are outside the model.
 */
module LegacyBackport {
  import opened Seqs
  import opened JsString
  import opened Constants
  import opened NextcloudUtils
  import opened LegacyComment

  /** `s.replace(/^\D+/, '')`: the text from the first digit on. */
  function StripNonDigits(s: string): (r: string)
    ensures |r| <= |s| && s[|s| - |r|..] == r
    ensures r != [] ==> IsDigit(r[0])
    ensures forall i :: 0 <= i < |s| - |r| ==> !IsDigit(s[i])
  {
    s[NonDigitPrefixLen(s)..]
  }

  /** JavaScript's `<` on strings: lexicographic on characters, a proper
      prefix sorting first. */
  function LexLess(a: string, b: string): bool {
    if b == [] then false
    else if a == [] then true
    else if a[0] != b[0] then a[0] < b[0]
    else LexLess(a[1..], b[1..])
  }

  /** `<` on strings is irreflexive. */
  lemma {:induction false} LexLessIrreflexive(a: string)
    ensures !LexLess(a, a)
  {
    if a != [] {
      LexLessIrreflexive(a[1..]);
    }
  }

  /** `<` on strings is transitive. */
  lemma {:induction false} LexLessTransitive(a: string, b: string, c: string)
    requires LexLess(a, b) && LexLess(b, c)
    ensures LexLess(a, c)
  {
    if a != [] && a[0] == b[0] && b[0] == c[0] {
      LexLessTransitive(a[1..], b[1..], c[1..]);
    }
  }

  /** Two different strings are ordered one way or the other. */
  lemma {:induction false} LexLessTotal(a: string, b: string)
    requires a != b
    ensures LexLess(a, b) || LexLess(b, a)
  {
    if a != [] && b != [] && a[0] == b[0] {
      assert a == [a[0]] + a[1..] && b == [b[0]] + b[1..];
      LexLessTotal(a[1..], b[1..]);
    }
  }

  /** The milestone found so far: its number (0 for none) and its stripped
      title. */
  datatype Pick = Pick(id: int, title: string)

  /** A milestone whose stripped title starts with the stripped target. */
  predicate Qualifies(m: Milestone, target: string) {
    StartsWith(StripNonDigits(m.title), target)
  }

  /** One iteration of the milestone loop. */
  function ScanStep(pick: Pick, m: Milestone, target: string): (r: Pick)
    ensures !Qualifies(m, target) ==> r == pick
    ensures r == pick || r == Pick(m.number, StripNonDigits(m.title))
    ensures Qualifies(m, target) && (pick.id == 0 || LexLess(StripNonDigits(m.title), pick.title))
            ==> r == Pick(m.number, StripNonDigits(m.title))
  {
    var title := StripNonDigits(m.title);
    if !StartsWith(title, target) then pick
    else if pick.id == 0 || LexLess(title, pick.title) then Pick(m.number, title)
    else pick
  }

  /** The state of the milestone loop after the given milestones. */
  function Scan(milestones: seq<Milestone>, target: string): (r: Pick)
    ensures r == Pick(0, "")
            || exists i :: 0 <= i < |milestones| && Qualifies(milestones[i], target)
                           && r == Pick(milestones[i].number, StripNonDigits(milestones[i].title))
    decreases |milestones|
  {
    if milestones == [] then Pick(0, "")
    else
      var front := milestones[..|milestones| - 1];
      var last := milestones[|milestones| - 1];
      var pick := Scan(front, target);
      assert forall i :: 0 <= i < |front| ==> front[i] == milestones[i];
      ScanStep(pick, last, target)
  }

  /** `getMilestoneIdForTarget`: walks the milestones, keeping the first
      qualifying one whose stripped title is smallest. */
  method GetMilestoneIdForTarget(milestones: seq<Milestone>, branch: string) returns (id: int)
    ensures id == Scan(milestones, StripNonDigits(branch)).id
  {
    var target := StripNonDigits(branch);
    var milestoneId := 0;
    var milestoneTitle := "";
    for i := 0 to |milestones|
      invariant Pick(milestoneId, milestoneTitle) == Scan(milestones[..i], target)
    {
      assert milestones[..i + 1][..i] == milestones[..i];
      var title := StripNonDigits(milestones[i].title);
      if StartsWith(title, target) {
        if milestoneId == 0 || LexLess(title, milestoneTitle) {
          milestoneId := milestones[i].number;
          milestoneTitle := title;
        }
      }
    }
    assert milestones[..|milestones|] == milestones;
    id := milestoneId;
  }

  /** When no milestone qualifies the answer is 0. */
  lemma {:induction false} NoQualifyingMilestone(milestones: seq<Milestone>, target: string)
    requires forall i :: 0 <= i < |milestones| ==> !Qualifies(milestones[i], target)
    ensures Scan(milestones, target) == Pick(0, "")
    decreases |milestones|
  {
    if milestones != [] {
      NoQualifyingMilestone(milestones[..|milestones| - 1], target);
    }
  }

  /** Among the first `n` milestones, milestone `j` qualifies, no
      qualifying title is smaller than its title, and every earlier
      qualifying title is larger. */
  predicate SmallestAmong(milestones: seq<Milestone>, target: string, j: int, n: int) {
    0 <= j < n <= |milestones| && Qualifies(milestones[j], target)
    && (forall k :: 0 <= k < n && Qualifies(milestones[k], target) ==>
          !LexLess(StripNonDigits(milestones[k].title), StripNonDigits(milestones[j].title)))
    && (forall k :: 0 <= k < j && Qualifies(milestones[k], target) ==>
          LexLess(StripNonDigits(milestones[j].title), StripNonDigits(milestones[k].title)))
  }

  /** Milestone `j` is the first qualifying milestone with the smallest
      stripped title. */
  predicate FirstSmallest(milestones: seq<Milestone>, target: string, j: int) {
    SmallestAmong(milestones, target, j, |milestones|)
  }

  /** A qualifying milestone makes the answer non-zero, provided milestone
      numbers are never 0. */
  lemma {:induction false} QualifyingMilestone(milestones: seq<Milestone>, target: string, i: int)
    requires forall k :: 0 <= k < |milestones| ==> milestones[k].number != 0
    requires 0 <= i < |milestones| && Qualifies(milestones[i], target)
    ensures Scan(milestones, target).id != 0
    decreases |milestones|
  {
    var n := |milestones| - 1;
    var front := milestones[..n];
    var last := milestones[n];
    assert Scan(milestones, target) == ScanStep(Scan(front, target), last, target);
    if i < n {
      assert front[i] == milestones[i];
      assert forall k :: 0 <= k < n ==> front[k].number != 0 by {
        forall k | 0 <= k < n ensures front[k].number != 0 {
          assert front[k] == milestones[k];
        }
      }
      QualifyingMilestone(front, target, i);
    }
    ScanStepNonZero(Scan(front, target), last, target, i == n);
  }

  /** One loop step keeps a non-zero pick non-zero and turns any pick
      non-zero on a qualifying milestone with a non-zero number. */
  lemma ScanStepNonZero(pick: Pick, m: Milestone, target: string, qualifies: bool)
    requires m.number != 0
    requires if qualifies then Qualifies(m, target) else pick.id != 0
    ensures ScanStep(pick, m, target).id != 0
  {
  }

  /** With milestone numbers that are never 0 (GitHub numbers them from 1),
      the answer is 0 exactly when nothing qualifies. */
  lemma ScanZeroIffNone(milestones: seq<Milestone>, target: string)
    requires forall i :: 0 <= i < |milestones| ==> milestones[i].number != 0
    ensures Scan(milestones, target).id == 0
            <==> forall i :: 0 <= i < |milestones| ==> !Qualifies(milestones[i], target)
  {
    if exists i :: 0 <= i < |milestones| && Qualifies(milestones[i], target) {
      var i :| 0 <= i < |milestones| && Qualifies(milestones[i], target);
      QualifyingMilestone(milestones, target, i);
    } else {
      NoQualifyingMilestone(milestones, target);
    }
  }

  /** The first qualifying milestone after none is the first smallest. */
  lemma FirstQualifying(milestones: seq<Milestone>, target: string, n: int)
    requires 0 <= n < |milestones|
    requires forall k :: 0 <= k < n ==> !Qualifies(milestones[k], target)
    requires Qualifies(milestones[n], target)
    ensures SmallestAmong(milestones, target, n, n + 1)
  {
    LexLessIrreflexive(StripNonDigits(milestones[n].title));
  }

  /** A milestone that does not beat the current pick leaves it the first
      smallest. */
  lemma KeepPick(milestones: seq<Milestone>, target: string, j: int, n: int)
    requires SmallestAmong(milestones, target, j, n) && n < |milestones|
    requires Qualifies(milestones[n], target) ==>
               !LexLess(StripNonDigits(milestones[n].title), StripNonDigits(milestones[j].title))
    ensures SmallestAmong(milestones, target, j, n + 1)
  {
  }

  /** A qualifying milestone with a smaller title becomes the first
      smallest. */
  lemma ReplacePick(milestones: seq<Milestone>, target: string, j: int, n: int)
    requires SmallestAmong(milestones, target, j, n) && n < |milestones|
    requires Qualifies(milestones[n], target)
             && LexLess(StripNonDigits(milestones[n].title), StripNonDigits(milestones[j].title))
    ensures SmallestAmong(milestones, target, n, n + 1)
  {
    var tl := StripNonDigits(milestones[n].title);
    var tj := StripNonDigits(milestones[j].title);
    forall k | 0 <= k < n + 1 && Qualifies(milestones[k], target)
      ensures !LexLess(StripNonDigits(milestones[k].title), tl)
    {
      var tk := StripNonDigits(milestones[k].title);
      if k == n {
        LexLessIrreflexive(tl);
      } else if LexLess(tk, tl) {
        LexLessTransitive(tk, tl, tj);
      }
    }
    forall k | 0 <= k < n && Qualifies(milestones[k], target)
      ensures LexLess(tl, StripNonDigits(milestones[k].title))
    {
      var tk := StripNonDigits(milestones[k].title);
      if tk != tj {
        LexLessTotal(tk, tj);
        LexLessTransitive(tl, tj, tk);
      }
    }
  }

  /** The loop after the first `n` milestones holds the first smallest
      of them, when it holds anything. */
  lemma {:induction false} ScanFindsSmallestAmong(milestones: seq<Milestone>, target: string, n: int)
    requires 0 <= n <= |milestones|
    requires forall i :: 0 <= i < |milestones| ==> milestones[i].number != 0
    ensures Scan(milestones[..n], target).id != 0 ==>
              exists j :: SmallestAmong(milestones, target, j, n)
                          && Scan(milestones[..n], target) == Pick(milestones[j].number, StripNonDigits(milestones[j].title))
    decreases n
  {
    if n > 0 {
      var m := n - 1;
      ScanFindsSmallestAmong(milestones, target, m);
      PrefixZeroIffNone(milestones, target, m);
      ScanOneMore(milestones, target, m);
      StepKeepsSmallest(milestones, target, m, Scan(milestones[..m], target));
    }
  }

  /** The loop over one more milestone is one more step. */
  lemma ScanOneMore(milestones: seq<Milestone>, target: string, m: int)
    requires 0 <= m < |milestones|
    ensures Scan(milestones[..m + 1], target) == ScanStep(Scan(milestones[..m], target), milestones[m], target)
  {
    assert milestones[..m + 1][..m] == milestones[..m];
  }

  /** The loop over the first `m` milestones finds nothing exactly when none
      of them qualifies. */
  lemma PrefixZeroIffNone(milestones: seq<Milestone>, target: string, m: int)
    requires 0 <= m <= |milestones|
    requires forall i :: 0 <= i < |milestones| ==> milestones[i].number != 0
    ensures Scan(milestones[..m], target).id == 0 <==> forall k :: 0 <= k < m ==> !Qualifies(milestones[k], target)
  {
    var front := milestones[..m];
    assert forall k :: 0 <= k < m ==> front[k] == milestones[k];
    ScanZeroIffNone(front, target);
  }

  /** One step keeps the pick the first smallest of the milestones seen. */
  lemma StepKeepsSmallest(milestones: seq<Milestone>, target: string, m: int, before: Pick)
    requires 0 <= m < |milestones| && milestones[m].number != 0
    requires before.id == 0 <==> forall k :: 0 <= k < m ==> !Qualifies(milestones[k], target)
    requires before.id != 0 ==>
               exists j :: SmallestAmong(milestones, target, j, m)
                           && before == Pick(milestones[j].number, StripNonDigits(milestones[j].title))
    ensures var after := ScanStep(before, milestones[m], target);
            after.id != 0 ==>
              exists j :: SmallestAmong(milestones, target, j, m + 1)
                          && after == Pick(milestones[j].number, StripNonDigits(milestones[j].title))
  {
    var last := milestones[m];
    if before.id == 0 {
      if Qualifies(last, target) {
        FirstQualifying(milestones, target, m);
      }
    } else {
      var j :| SmallestAmong(milestones, target, j, m)
               && before == Pick(milestones[j].number, StripNonDigits(milestones[j].title));
      if Qualifies(last, target) && LexLess(StripNonDigits(last.title), before.title) {
        ReplacePick(milestones, target, j, m);
      } else {
        KeepPick(milestones, target, j, m);
      }
    }
  }

  /** With milestone numbers that are never 0, a non-zero answer is the
      number of the first qualifying milestone with the smallest stripped
      title. */
  lemma ScanFindsFirstSmallest(milestones: seq<Milestone>, target: string)
    requires forall i :: 0 <= i < |milestones| ==> milestones[i].number != 0
    ensures Scan(milestones, target).id != 0 ==>
              exists j :: FirstSmallest(milestones, target, j)
                          && Scan(milestones, target) == Pick(milestones[j].number, StripNonDigits(milestones[j].title))
  {
    ScanFindsSmallestAmong(milestones, target, |milestones|);
    assert milestones[..|milestones|] == milestones;
  }

  /** The label-exclusion loop: every label of the original pull request
      except `backport-request` and the kanban labels, in order. */
  method LegacyLabels(labels: seq<string>) returns (kept: seq<string>)
    ensures kept == Filter(IsCarriedLabel, labels)
  {
    kept := [];
    for i := 0 to |labels|
      invariant kept == Filter(IsCarriedLabel, labels[..i])
    {
      assert labels[..i + 1][..i] == labels[..i];
      if labels[i] == LABEL_BACKPORT {
        continue;
      }
      if IsKanbanLabel(labels[i]) {
        continue;
      }
      kept := kept + [labels[i]];
    }
    assert labels[..|labels|] == labels;
  }

  /** The legacy loop keeps the same labels, in the same order, as the two
      filters of the current `getLabelsForPR`. */
  lemma {:induction false} LegacyLabelsAgree(labels: seq<string>)
    ensures Filter(IsCarriedLabel, labels) == CarriedLabels(labels)
    decreases |labels|
  {
    if labels != [] {
      var front := labels[..|labels| - 1];
      LegacyLabelsAgree(front);
      assert Filter(IsNotKanbanLabel, Filter(IsNotBackportLabel, labels))
          == Filter(IsNotKanbanLabel, Filter(IsNotBackportLabel, front))
             + (if IsCarriedLabel(labels[|labels| - 1]) then [labels[|labels| - 1]] else []);
    }
  }

  /** `target.commits.length > 0 ? target.commits : commits`. */
  function CommitsToPick(target: Target, prCommits: seq<string>): (r: seq<string>)
    ensures r == target.commits || r == prCommits
    ensures r == [] <==> target.commits == [] && prCommits == []
    ensures target.commits != [] ==> r == target.commits
  {
    if |target.commits| > 0 then target.commits else prCommits
  }

  /** `/backport to <branch>` picks every commit of the pull request. */
  lemma BranchOnlyPicksAll(branch: string, prCommits: seq<string>)
    requires IsTargetName(branch)
    ensures Match(COMMAND + "to " + branch).Some?
    ensures CommitsToPick(Match(COMMAND + "to " + branch).value, prCommits) == prCommits
  {
    NoCommitGroup(branch);
  }

  /** A command that lists valid commits picks exactly those, in order. */
  lemma ListedCommitsPicked(commits: seq<string>, branch: string, prCommits: seq<string>)
    requires IsTargetName(branch) && commits != []
    requires forall i :: 0 <= i < |commits| ==>
               IsKeptCommit(commits[i]) && forall k :: 0 <= k < |commits[i]| ==> IsHexDigit(commits[i][k])
    ensures Match(COMMAND + Join(commits, ",") + " to " + branch).Some?
    ensures CommitsToPick(Match(COMMAND + Join(commits, ",") + " to " + branch).value, prCommits) == commits
  {
    MatchRoundTrip(commits, branch);
  }
}

/**
 * The Nextcloud-specific rules (src/nextcloudUtils.ts): the dot-segment
 * version comparator, the choice of a milestone for a target branch, the
 * labels carried over to a backport, the body of a backport pull request
 * and the comment posted when a backport fails.
 */
module NextcloudUtils {
  import opened Wrappers
  import opened Seqs
  import opened JsString
  import opened Constants

  // ---------------------------------------------------------------------
  // compareSemanticVersions

  /** `+seg || 0`: a segment of decimal digits (surrounding whitespace
      allowed) is its value; anything else counts as 0. */
  function SegmentValue(seg: string): nat {
    var t := Trim(seg);
    if AllDigits(t) then DigitsValue(t) else 0
  }

  /** The values of the `.`-separated segments of a title. */
  function TitleValues(title: string): (r: seq<nat>)
    ensures |r| == |Split(title, ".")|
    ensures forall i :: 0 <= i < |r| ==> r[i] == SegmentValue(Split(title, ".")[i])
  {
    var parts := Split(title, ".");
    seq(|parts|, i requires 0 <= i < |parts| => SegmentValue(parts[i]))
  }

  /** Lexicographic comparison of segment values in which running out of
      segments ranks last: on a common prefix the longer list sorts first.
      Negative means `a` sorts before `b`. */
  function CompareValues(a: seq<nat>, b: seq<nat>): int {
    if a == [] || b == [] then |b| - |a|
    else if a[0] != b[0] then (if a[0] > b[0] then 1 else -1)
    else CompareValues(a[1..], b[1..])
  }

  /** The order `Array.prototype.sort` is given for milestone titles. */
  function CompareTitles(a: string, b: string): int {
    CompareValues(TitleValues(a), TitleValues(b))
  }

  /** `compareSemanticVersions`: walks the common segments and returns at
      the first difference, else the difference in segment counts. */
  method CompareSemanticVersions(a: string, b: string) returns (r: int)
    ensures r == CompareTitles(a, b)
    ensures r < 0 <==> CompareTitles(b, a) > 0
  {
    CompareAntisymmetric(TitleValues(a), TitleValues(b));
    var a1 := Split(a, ".");
    var b1 := Split(b, ".");
    ghost var va := TitleValues(a);
    ghost var vb := TitleValues(b);
    var len := if |a1| < |b1| then |a1| else |b1|;
    var i := 0;
    while i < len
      invariant 0 <= i <= len
      invariant CompareValues(va, vb) == CompareValues(va[i..], vb[i..])
    {
      var a2 := SegmentValue(a1[i]);
      var b2 := SegmentValue(b1[i]);
      if a2 != b2 {
        return if a2 > b2 then 1 else -1;
      }
      assert va[i..][1..] == va[i + 1..] && vb[i..][1..] == vb[i + 1..];
      i := i + 1;
    }
    return |b1| - |a1|;
  }

  /** Swapping the arguments negates the result. */
  lemma {:induction false} CompareAntisymmetric(a: seq<nat>, b: seq<nat>)
    ensures CompareValues(a, b) == -CompareValues(b, a)
  {
    if a != [] && b != [] && a[0] == b[0] {
      CompareAntisymmetric(a[1..], b[1..]);
    }
  }

  /** The comparison is zero exactly for equal segment values. */
  lemma {:induction false} CompareZeroIffEqual(a: seq<nat>, b: seq<nat>)
    ensures CompareValues(a, b) == 0 <==> a == b
  {
    if a != [] && b != [] && a[0] == b[0] {
      CompareZeroIffEqual(a[1..], b[1..]);
      assert a == [a[0]] + a[1..] && b == [b[0]] + b[1..];
    }
  }

  /** "Sorts no later than" is transitive, so the comparator is a total
      preorder and the sort is well defined. */
  lemma {:induction false} CompareTransitive(a: seq<nat>, b: seq<nat>, c: seq<nat>)
    requires CompareValues(a, b) <= 0 && CompareValues(b, c) <= 0
    ensures CompareValues(a, c) <= 0
  {
    if a != [] && b != [] && c != [] && a[0] == b[0] == c[0] {
      CompareTransitive(a[1..], b[1..], c[1..]);
    }
  }

  /** On an equal prefix, the title with more segments sorts first. */
  lemma {:induction false} LongerSortsFirst(a: seq<nat>, b: seq<nat>)
    requires |a| < |b| && b[..|a|] == a
    ensures CompareValues(b, a) < 0
  {
    if a != [] {
      assert b[1..][..|a| - 1] == a[1..];
      LongerSortsFirst(a[1..], b[1..]);
    }
  }

  /** A segment that is not a plain number counts as 0. */
  lemma NonNumericSegmentIsZero(seg: string)
    requires !AllDigits(Trim(seg))
    ensures SegmentValue(seg) == 0
  {
  }

  // ---------------------------------------------------------------------
  // getMilestoneFromBase

  datatype Milestone = Milestone(number: int, title: string)

  predicate IsVersionChar(c: char) {
    IsDigit(c) || c == '.'
  }

  /** The length of the longest prefix of non-digits. */
  function NonDigitPrefixLen(s: string): (n: nat)
    ensures n <= |s|
    ensures forall i :: 0 <= i < n ==> !IsDigit(s[i])
    ensures n < |s| ==> IsDigit(s[n])
  {
    if s == [] || IsDigit(s[0]) then 0 else 1 + NonDigitPrefixLen(s[1..])
  }

  /** The longest prefix made of digits and dots (`[\d.]+`, greedy). */
  function VersionRun(s: string): (r: string)
    ensures |r| <= |s| && r == s[..|r|]
    ensures forall i :: 0 <= i < |r| ==> IsVersionChar(r[i])
    ensures |r| < |s| ==> !IsVersionChar(s[|r|])
  {
    if s == [] || !IsVersionChar(s[0]) then "" else [s[0]] + VersionRun(s[1..])
  }

  /** The backtracking search of `/^\D+([\d.]+)/`: `\D+` first takes the
      longest run of non-digits, then gives characters back one at a time
      until the group can start. */
  function VersionMatch(s: string, j: nat): (r: Option<string>)
    requires j <= NonDigitPrefixLen(s)
    ensures r.None? <==> forall k :: 0 < k <= j && k < |s| ==> !IsVersionChar(s[k])
    ensures r.Some? ==> exists k :: 0 < k <= j && k < |s| && IsVersionChar(s[k]) && r.value == VersionRun(s[k..])
                                    && forall l :: k < l <= j && l < |s| ==> !IsVersionChar(s[l])
  {
    if j == 0 then None
    else if j < |s| && IsVersionChar(s[j]) then Some(VersionRun(s[j..]))
    else VersionMatch(s, j - 1)
  }

  /** The capture group of `/^\D+([\d.]+)/` as the regex engine computes it. */
  function ExtractVersionAsWritten(branch: string): (r: Option<string>)
    ensures r.None? <==> forall k :: 0 < k <= NonDigitPrefixLen(branch) && k < |branch| ==> !IsVersionChar(branch[k])
    ensures r.Some? ==> r.value != "" && forall i :: 0 <= i < |r.value| ==> IsVersionChar(r.value[i])
    ensures r.Some? ==> exists k :: 0 < k <= NonDigitPrefixLen(branch) && k < |branch|
                                    && r.value == VersionRun(branch[k..])
  {
    VersionMatch(branch, NonDigitPrefixLen(branch))
  }

  /** As written, a branch name with no digit at all but a `.` after its
      first character still yields a "version", namely `.`, and every
      milestone whose title contains a dot then qualifies. */
  lemma AsWrittenDotVersion()
    ensures ExtractVersionAsWritten("feature.x") == Some(".")
    ensures NonDigitPrefixLen("feature.x") == |"feature.x"|
  {
    var s := "feature.x";
    assert NonDigitPrefixLen(s) == 9 by {
      assert forall i :: 0 <= i < |s| ==> !IsDigit(s[i]);
    }
    assert VersionMatch(s, 8) == VersionMatch(s, 7);
    assert s[7..] == ".x";
    assert VersionRun(".x") == ".";
  }

  /** The version a branch name is meant to carry: the digits-and-dots run
      that starts at the first digit, after at least one non-digit. */
  function ExtractVersion(branch: string): (r: Option<string>)
    ensures r.Some? <==> 0 < NonDigitPrefixLen(branch) < |branch|
    ensures r.Some? ==> r.value != [] && IsDigit(r.value[0])
                        && (forall i :: 0 <= i < |r.value| ==> IsVersionChar(r.value[i]))
                        && StartsWith(branch[NonDigitPrefixLen(branch)..], r.value)
  {
    var n := NonDigitPrefixLen(branch);
    if 0 < n < |branch| then Some(VersionRun(branch[n..])) else None
  }

  /** Whenever the branch name contains a digit, the regex as written and
      the intended extraction agree; they differ only on digit-free names. */
  lemma {:induction false} ExtractVersionAgrees(branch: string)
    requires exists i :: 0 <= i < |branch| && IsDigit(branch[i])
    ensures ExtractVersionAsWritten(branch) == ExtractVersion(branch)
  {
    var n := NonDigitPrefixLen(branch);
    if n > 0 {
      assert n < |branch|;
    }
  }

  /** `stable`, the empty name and any name without a digit carry no version. */
  lemma NoDigitNoVersion(branch: string)
    requires forall i :: 0 <= i < |branch| ==> !IsDigit(branch[i])
    ensures ExtractVersion(branch) == None
  {
  }

  /** The position a stable sort by `CompareValues` puts first: no later
      key sorts before it, and every earlier key sorts strictly after it. */
  function FirstMinimal(keys: seq<seq<nat>>): (k: nat)
    requires |keys| > 0
    ensures k < |keys|
    ensures forall j :: 0 <= j < |keys| ==> CompareValues(keys[k], keys[j]) <= 0
    ensures forall j :: 0 <= j < k ==> CompareValues(keys[j], keys[k]) > 0
  {
    if |keys| == 1 then
      CompareZeroIffEqual(keys[0], keys[0]);
      0
    else
      var k := FirstMinimal(keys[1..]) + 1;
      assert forall j :: 1 <= j < |keys| ==> keys[j] == keys[1..][j - 1];
      CompareAntisymmetric(keys[0], keys[k]);
      if CompareValues(keys[0], keys[k]) <= 0 then
        HeadIsMinimal(keys, k);
        0
      else
        k
  }

  lemma HeadIsMinimal(keys: seq<seq<nat>>, k: nat)
    requires 1 <= k < |keys|
    requires forall j :: 1 <= j < |keys| ==> CompareValues(keys[k], keys[j]) <= 0
    requires CompareValues(keys[0], keys[k]) <= 0
    ensures forall j :: 0 <= j < |keys| ==> CompareValues(keys[0], keys[j]) <= 0
  {
    CompareZeroIffEqual(keys[0], keys[0]);
    forall j | 1 <= j < |keys| ensures CompareValues(keys[0], keys[j]) <= 0 {
      CompareTransitive(keys[0], keys[k], keys[j]);
    }
  }

  /** The two properties of `FirstMinimal` single out one position. */
  lemma FirstMinimalUnique(keys: seq<seq<nat>>, k: nat)
    requires k < |keys|
    requires forall j :: 0 <= j < |keys| ==> CompareValues(keys[k], keys[j]) <= 0
    requires forall j :: 0 <= j < k ==> CompareValues(keys[j], keys[k]) > 0
    ensures FirstMinimal(keys) == k
  {
  }

  /** The sort keys of a list of milestones. */
  function TitleKeys(ms: seq<Milestone>): (keys: seq<seq<nat>>)
    ensures |keys| == |ms|
    ensures forall i :: 0 <= i < |ms| ==> keys[i] == TitleValues(ms[i].title)
  {
    seq(|ms|, i requires 0 <= i < |ms| => TitleValues(ms[i].title))
  }

  function VersionError(branch: string): string {
    "Could not extract version from branch `" + branch + "`"
  }

  /** The choice `getMilestoneFromBase` makes once it has a version: the
      first, in stable sorted order, of the milestones whose title contains
      the version; `None` when there is none, and the version error when
      there is no version. */
  function MilestoneForVersion(branch: string, version: Option<string>, milestones: seq<Milestone>)
    : (r: Result<Option<Milestone>, string>)
    ensures r.Failure? <==> version.None?
    ensures r.Failure? ==> r.error == VersionError(branch)
    ensures r.Success? && r.value.Some? ==>
              var v := version.value;
              var m := r.value.value;
              m in milestones && Includes(m.title, v)
              && (forall j :: 0 <= j < |milestones| && Includes(milestones[j].title, v) ==>
                    CompareTitles(m.title, milestones[j].title) <= 0)
              && exists i :: 0 <= i < |milestones| && milestones[i] == m
                   && forall j :: 0 <= j < i && Includes(milestones[j].title, v) ==>
                        CompareTitles(milestones[j].title, m.title) > 0
    ensures r.Success? && r.value.None? ==>
              forall j :: 0 <= j < |milestones| ==> !Includes(milestones[j].title, version.value)
  {
    match version
    case None => Failure(VersionError(branch))
    case Some(v) =>
      var p := (m: Milestone) => Includes(m.title, v);
      var selection := Filter(p, milestones);
      if selection == [] then Success(None)
      else
        var k := FirstMinimal(TitleKeys(selection));
        KeysToTitles(selection, k);
        SelectionMinimal(milestones, v, selection, k);
        SelectionFirst(milestones, v, p, selection, k);
        Success(Some(selection[k]))
  }

  /** `getMilestoneFromBase` with the intended version extraction. */
  function GetMilestoneFromBase(branch: string, milestones: seq<Milestone>): (r: Result<Option<Milestone>, string>)
    ensures r.Failure? <==> ExtractVersion(branch).None?
    ensures r.Failure? ==> r.error == VersionError(branch)
    ensures r.Success? && r.value.Some? ==>
              var v := ExtractVersion(branch).value;
              var m := r.value.value;
              m in milestones && Includes(m.title, v)
              && (forall j :: 0 <= j < |milestones| && Includes(milestones[j].title, v) ==>
                    CompareTitles(m.title, milestones[j].title) <= 0)
              && exists i :: 0 <= i < |milestones| && milestones[i] == m
                   && forall j :: 0 <= j < i && Includes(milestones[j].title, v) ==>
                        CompareTitles(milestones[j].title, m.title) > 0
    ensures r.Success? && r.value.None? ==>
              forall j :: 0 <= j < |milestones| ==> !Includes(milestones[j].title, ExtractVersion(branch).value)
  {
    MilestoneForVersion(branch, ExtractVersion(branch), milestones)
  }

  /** `getMilestoneFromBase` as written, over the version the regex of
      src/nextcloudUtils.ts:28 extracts. */
  function GetMilestoneFromBaseAsWritten(branch: string, milestones: seq<Milestone>)
    : (r: Result<Option<Milestone>, string>)
    ensures r.Failure? <==> ExtractVersionAsWritten(branch).None?
    ensures r.Success? && r.value.None? ==>
              forall j :: 0 <= j < |milestones| ==> !Includes(milestones[j].title, ExtractVersionAsWritten(branch).value)
  {
    MilestoneForVersion(branch, ExtractVersionAsWritten(branch), milestones)
  }

  /** On every branch name with a digit the choice as written is the
      intended one. */
  lemma MilestoneAsWrittenAgrees(branch: string, milestones: seq<Milestone>)
    requires exists i :: 0 <= i < |branch| && IsDigit(branch[i])
    ensures GetMilestoneFromBaseAsWritten(branch, milestones) == GetMilestoneFromBase(branch, milestones)
  {
    ExtractVersionAgrees(branch);
  }

  /** On `feature.x` the intended choice reports the missing version, while
      the choice as written does not fail and picks among the milestones
      whose title contains a dot. */
  lemma MilestoneAsWrittenDotBranch(milestones: seq<Milestone>)
    ensures GetMilestoneFromBase("feature.x", milestones) == Failure(VersionError("feature.x"))
    ensures var r := GetMilestoneFromBaseAsWritten("feature.x", milestones);
            r.Success?
            && (r.value.None? <==> forall j :: 0 <= j < |milestones| ==> !Includes(milestones[j].title, "."))
            && (r.value.Some? ==> Includes(r.value.value.title, "."))
  {
    AsWrittenDotVersion();
    assert ExtractVersion("feature.x") == None;
    DotVersionMilestone("feature.x", milestones);
  }

  /** With `.` as the version the lookup never fails, and it finds nothing
      exactly when no title contains a dot. */
  lemma DotVersionMilestone(branch: string, milestones: seq<Milestone>)
    ensures var r := MilestoneForVersion(branch, Some("."), milestones);
            r.Success?
            && (r.value.None? <==> forall j :: 0 <= j < |milestones| ==> !Includes(milestones[j].title, "."))
            && (r.value.Some? ==> Includes(r.value.value.title, "."))
  {
    var r := MilestoneForVersion(branch, Some("."), milestones);
    if r.value.Some? {
      assert r.value.value in milestones;
    }
  }

  /** The element a filter keeps at position `k` comes from a position `i`
      of the input before which the filter keeps exactly its first `k`
      elements. */
  lemma {:induction false} FilterIndex<T>(p: T -> bool, s: seq<T>, k: nat)
    requires k < |Filter(p, s)|
    ensures exists i :: 0 <= i < |s| && s[i] == Filter(p, s)[k] && Filter(p, s[..i]) == Filter(p, s)[..k]
    decreases |s|
  {
    var n := |s| - 1;
    var front := Filter(p, s[..n]);
    var r := Filter(p, s);
    assert r == if p(s[n]) then front + [s[n]] else front;
    if k < |front| {
      FilterIndex(p, s[..n], k);
      var i :| 0 <= i < n && s[..n][i] == front[k] && Filter(p, s[..n][..i]) == front[..k];
      assert s[..n][..i] == s[..i];
      assert r[k] == front[k] && r[..k] == front[..k];
    } else {
      assert r[..k] == front;
    }
  }

  lemma TitleKeyAt(ms: seq<Milestone>, i: nat)
    requires i < |ms|
    ensures TitleKeys(ms)[i] == TitleValues(ms[i].title)
  {
  }

  /** An earlier element of the selection sorts strictly after the first
      minimal one. */
  lemma EarlierSortsAfter(selection: seq<Milestone>, k: nat, l: nat)
    requires l < k < |selection|
    requires forall j :: 0 <= j < k ==> CompareValues(TitleKeys(selection)[j], TitleKeys(selection)[k]) > 0
    ensures CompareTitles(selection[l].title, selection[k].title) > 0
  {
    TitleKeyAt(selection, l);
    TitleKeyAt(selection, k);
  }

  /** The milestone the stable sort puts first comes after no qualifying
      milestone that ties with it. */
  lemma SelectionFirst(milestones: seq<Milestone>, version: string, p: Milestone -> bool, selection: seq<Milestone>, k: nat)
    requires forall m :: p(m) == Includes(m.title, version)
    requires selection == Filter(p, milestones)
    requires k < |selection|
    requires forall j :: 0 <= j < k ==> CompareValues(TitleKeys(selection)[j], TitleKeys(selection)[k]) > 0
    ensures exists i :: 0 <= i < |milestones| && milestones[i] == selection[k]
              && forall j :: 0 <= j < i && Includes(milestones[j].title, version) ==>
                   CompareTitles(milestones[j].title, selection[k].title) > 0
  {
    FilterIndex(p, milestones, k);
    var i :| 0 <= i < |milestones| && milestones[i] == selection[k] && Filter(p, milestones[..i]) == selection[..k];
    BeforeFirstMinimal(milestones, version, p, selection, k, i);
  }

  /** The qualifying milestones before position `i`, which the filter
      keeps as the first `k` of the selection, sort after its `k`-th. */
  lemma BeforeFirstMinimal(milestones: seq<Milestone>, version: string, p: Milestone -> bool,
                           selection: seq<Milestone>, k: nat, i: nat)
    requires forall m :: p(m) == Includes(m.title, version)
    requires k < |selection| && i <= |milestones|
    requires Filter(p, milestones[..i]) == selection[..k]
    requires forall j :: 0 <= j < k ==> CompareValues(TitleKeys(selection)[j], TitleKeys(selection)[k]) > 0
    ensures forall j :: 0 <= j < i && Includes(milestones[j].title, version) ==>
              CompareTitles(milestones[j].title, selection[k].title) > 0
  {
    forall j | 0 <= j < i && Includes(milestones[j].title, version)
      ensures CompareTitles(milestones[j].title, selection[k].title) > 0
    {
      PickedBefore(p, milestones, i, j);
      var l :| 0 <= l < k && selection[..k][l] == milestones[j];
      assert selection[l] == milestones[j];
      EarlierSortsAfter(selection, k, l);
    }
  }

  /** An element the filter keeps from before position `i` is in the
      filter of the prefix. */
  lemma PickedBefore<T>(p: T -> bool, s: seq<T>, i: nat, j: nat)
    requires j < i <= |s| && p(s[j])
    ensures s[j] in Filter(p, s[..i])
  {
    assert s[..i][j] == s[j];
  }

  /** The minimal sort key, read back as a comparison of titles. */
  lemma KeysToTitles(selection: seq<Milestone>, k: nat)
    requires k < |selection|
    requires forall j :: 0 <= j < |selection| ==> CompareValues(TitleKeys(selection)[k], TitleKeys(selection)[j]) <= 0
    ensures forall i :: 0 <= i < |selection| ==> CompareTitles(selection[k].title, selection[i].title) <= 0
  {
    var keys := TitleKeys(selection);
    forall i | 0 <= i < |selection|
      ensures CompareTitles(selection[k].title, selection[i].title) <= 0
    {
      assert keys[i] == TitleValues(selection[i].title);
      assert CompareValues(keys[k], keys[i]) <= 0;
    }
  }

  /** A title minimal within the selection is minimal among all the
      milestones the selection keeps. */
  lemma SelectionMinimal(milestones: seq<Milestone>, version: string, selection: seq<Milestone>, k: nat)
    requires forall j :: 0 <= j < |milestones| && Includes(milestones[j].title, version) ==> milestones[j] in selection
    requires k < |selection|
    requires forall i :: 0 <= i < |selection| ==> CompareTitles(selection[k].title, selection[i].title) <= 0
    ensures forall j :: 0 <= j < |milestones| && Includes(milestones[j].title, version) ==>
              CompareTitles(selection[k].title, milestones[j].title) <= 0
  {
    forall j | 0 <= j < |milestones| && Includes(milestones[j].title, version)
      ensures CompareTitles(selection[k].title, milestones[j].title) <= 0
    {
      var i :| 0 <= i < |selection| && selection[i] == milestones[j];
    }
  }

  // ---------------------------------------------------------------------
  // getLabelsForPR

  /** A label matching `/^\d\./`, the kanban column labels. */
  predicate IsKanbanLabel(name: string) {
    |name| >= 2 && IsDigit(name[0]) && name[1] == '.'
  }

  predicate IsNotBackportLabel(name: string) {
    name != LABEL_BACKPORT
  }

  predicate IsNotKanbanLabel(name: string) {
    !IsKanbanLabel(name)
  }

  /** A label of the original pull request that the backport receives. */
  predicate IsCarriedLabel(name: string) {
    name != LABEL_BACKPORT && !IsKanbanLabel(name)
  }

  /** The to-review label when the repository has it. */
  function ReviewHead(repoLabels: seq<string>): seq<string> {
    if LABEL_TO_REVIEW in repoLabels then [LABEL_TO_REVIEW] else []
  }

  /** The labels of the original kept by the two filters. */
  function CarriedLabels(labels: seq<string>): (r: seq<string>)
    ensures forall i :: 0 <= i < |r| ==> r[i] in labels && IsCarriedLabel(r[i])
    ensures forall i :: 0 <= i < |labels| && IsCarriedLabel(labels[i]) ==> labels[i] in r
    ensures IsSubsequence(r, labels)
  {
    var once := Filter(IsNotBackportLabel, labels);
    var r := Filter(IsNotKanbanLabel, once);
    SubsequenceTransitive(r, once, labels);
    assert forall i :: 0 <= i < |labels| && IsCarriedLabel(labels[i]) ==> labels[i] in once;
    r
  }

  /** `getLabelsForPR`: the to-review column label when the repository has
      it, then the carried labels of the original, without duplicates. */
  method GetLabelsForPR(labels: seq<string>, repoLabels: seq<string>) returns (r: seq<string>)
    ensures Distinct(r)
    ensures LABEL_BACKPORT !in r
    ensures LABEL_TO_REVIEW in r <==> LABEL_TO_REVIEW in repoLabels
    ensures LABEL_TO_REVIEW in repoLabels ==> r[0] == LABEL_TO_REVIEW
    ensures forall i :: 0 <= i < |r| ==> r[i] == LABEL_TO_REVIEW || (r[i] in labels && IsCarriedLabel(r[i]))
    ensures forall i :: 0 <= i < |labels| && IsCarriedLabel(labels[i]) ==> labels[i] in r
    ensures IsSubsequence(r, ReviewHead(repoLabels) + labels)
    ensures r == Dedup(ReviewHead(repoLabels) + CarriedLabels(labels))
  {
    var results: seq<string> := [];
    if LABEL_TO_REVIEW in repoLabels {
      results := results + [LABEL_TO_REVIEW];
    }
    results := results + CarriedLabels(labels);
    r := Dedup(results);
    LabelsMembers(labels, repoLabels, results, r);
    LabelsOrder(labels, repoLabels, results, r);
  }

  lemma LabelsMembers(labels: seq<string>, repoLabels: seq<string>, results: seq<string>, r: seq<string>)
    requires results == ReviewHead(repoLabels) + CarriedLabels(labels) && r == Dedup(results)
    ensures LABEL_BACKPORT !in r
    ensures LABEL_TO_REVIEW in r <==> LABEL_TO_REVIEW in repoLabels
    ensures forall i :: 0 <= i < |r| ==> r[i] == LABEL_TO_REVIEW || (r[i] in labels && IsCarriedLabel(r[i]))
    ensures forall i :: 0 <= i < |labels| && IsCarriedLabel(labels[i]) ==> labels[i] in r
  {
    forall i | 0 <= i < |r|
      ensures r[i] == LABEL_TO_REVIEW || (r[i] in labels && IsCarriedLabel(r[i]))
    {
      DedupMembers(results, r[i]);
      ResultsMembers(labels, repoLabels, r[i]);
    }
    DedupMembers(results, LABEL_BACKPORT);
    DedupMembers(results, LABEL_TO_REVIEW);
    ColumnLabelsInResults(labels, repoLabels);
    forall i | 0 <= i < |labels| && IsCarriedLabel(labels[i]) ensures labels[i] in r {
      DedupMembers(results, labels[i]);
      ResultsMembers(labels, repoLabels, labels[i]);
    }
  }

  /** The two fixed labels in the list handed to the deduplication. */
  lemma ColumnLabelsInResults(labels: seq<string>, repoLabels: seq<string>)
    ensures LABEL_BACKPORT !in ReviewHead(repoLabels) + CarriedLabels(labels)
    ensures LABEL_TO_REVIEW in ReviewHead(repoLabels) + CarriedLabels(labels) <==> LABEL_TO_REVIEW in repoLabels
  {
    assert IsKanbanLabel(LABEL_TO_REVIEW);
    ResultsMembers(labels, repoLabels, LABEL_BACKPORT);
    ResultsMembers(labels, repoLabels, LABEL_TO_REVIEW);
  }

  /** What the list handed to the deduplication holds. */
  lemma ResultsMembers(labels: seq<string>, repoLabels: seq<string>, x: string)
    ensures x in ReviewHead(repoLabels) + CarriedLabels(labels)
            <==> (x == LABEL_TO_REVIEW && LABEL_TO_REVIEW in repoLabels) || (x in labels && IsCarriedLabel(x))
  {
    var kept := CarriedLabels(labels);
    assert IsKanbanLabel(LABEL_TO_REVIEW);
    if x in kept {
      var k :| 0 <= k < |kept| && kept[k] == x;
    }
    if x in labels && IsCarriedLabel(x) {
      var i :| 0 <= i < |labels| && labels[i] == x;
    }
  }

  lemma LabelsOrder(labels: seq<string>, repoLabels: seq<string>, results: seq<string>, r: seq<string>)
    requires results == ReviewHead(repoLabels) + CarriedLabels(labels) && r == Dedup(results)
    ensures IsSubsequence(r, ReviewHead(repoLabels) + labels)
  {
    SubsequencePrepend(ReviewHead(repoLabels), CarriedLabels(labels), labels);
    SubsequenceTransitive(r, results, ReviewHead(repoLabels) + labels);
  }

  // ---------------------------------------------------------------------
  // getBackportBody

  /** The to-do steps a body can list; `StepText` gives their wording. */
  datatype Step = ReviewConflicts | RemoveEmptyCommits | AmendSkipCi

  function StepText(step: Step): string {
    match step
    case ReviewConflicts => STEP_REVIEW_CONFLICTS
    case RemoveEmptyCommits => STEP_REMOVE_EMPTY_COMMITS
    case AmendSkipCi => STEP_AMEND_SKIP_CI
  }

  /** The two warnings a body can show; `WarningText` gives their wording. */
  datatype Warning = ConflictsWarning | DiffWarning

  function WarningText(w: Warning): string {
    match w
    case ConflictsWarning => WARN_CONFLICTS
    case DiffWarning => WARN_DIFF
  }

  /** The warning a body shows: the diff warning for a full request with a
      diff, otherwise the conflicts warning when there were conflicts. */
  function ExpectedWarning(hasConflicts: bool, hasDiff: bool, isFullRequest: bool): Option<Warning> {
    if hasDiff && isFullRequest then Some(DiffWarning)
    else if hasConflicts then Some(ConflictsWarning)
    else None
  }

  /** The to-do steps a body lists, each once, in a fixed order. */
  function ExpectedSteps(hasConflicts: bool, hasDiff: bool, hasEmptyCommits: bool,
                         hasSkipCiCommits: bool, isFullRequest: bool): seq<Step> {
    (if hasConflicts || (hasDiff && isFullRequest) then [ReviewConflicts] else [])
    + (if hasEmptyCommits then [RemoveEmptyCommits] else [])
    + (if hasSkipCiCommits then [AmendSkipCi] else [])
  }

  function WarningSection(warning: Option<Warning>): string {
    match warning
    case None => ""
    case Some(w) => "\n\n Warning, " + WarningText(w)
  }

  /** `- [ ] <step>` for each step. */
  function TodoItems(steps: seq<Step>): (r: seq<string>)
    ensures |r| == |steps|
  {
    seq(|steps|, i requires 0 <= i < |steps| => "- [ ] " + StepText(steps[i]))
  }

  function TodoSection(steps: seq<Step>): string {
    if steps == [] then "" else "\n\n## Todo \n" + Join(TodoItems(steps), "\n")
  }

  function BackportBodyHeader(prNumber: nat): string {
    "Backport of #" + NatToString(prNumber)
  }

  /** The body `getBackportBody` builds: the header, the warning, the to-do
      section and the link. */
  function BackportBody(prNumber: nat, hasConflicts: bool, hasDiff: bool, hasEmptyCommits: bool,
                        hasSkipCiCommits: bool, isFullRequest: bool): string {
    BackportBodyHeader(prNumber)
    + WarningSection(ExpectedWarning(hasConflicts, hasDiff, isFullRequest))
    + TodoSection(ExpectedSteps(hasConflicts, hasDiff, hasEmptyCommits, hasSkipCiCommits, isFullRequest))
    + LEARN_MORE
  }

  /** `getBackportBody`: collects the steps and the warning, then appends
      the sections. */
  method GetBackportBody(prNumber: nat, hasConflicts: bool, hasDiff: bool, hasEmptyCommits: bool,
                         hasSkipCiCommits: bool, isFullRequest: bool) returns (body: string)
    ensures body == BackportBody(prNumber, hasConflicts, hasDiff, hasEmptyCommits, hasSkipCiCommits, isFullRequest)
  {
    var steps, warning := CollectSteps(hasConflicts, hasDiff, hasEmptyCommits, hasSkipCiCommits, isFullRequest);
    StepsDedup(hasConflicts, hasDiff, hasEmptyCommits, hasSkipCiCommits, isFullRequest, steps);
    body := AppendSections(BackportBodyHeader(prNumber), WarningSection(warning), TodoSection(Dedup(steps)));
  }

  /** The collecting half of `getBackportBody`: one step per flag, the
      conflicts step possibly twice; a later warning overwrites an earlier
      one. */
  method CollectSteps(hasConflicts: bool, hasDiff: bool, hasEmptyCommits: bool,
                      hasSkipCiCommits: bool, isFullRequest: bool) returns (steps: seq<Step>, warning: Option<Warning>)
    ensures steps == (if hasConflicts then [ReviewConflicts] else [])
                     + (if hasDiff && isFullRequest then [ReviewConflicts] else [])
                     + (if hasEmptyCommits then [RemoveEmptyCommits] else [])
                     + (if hasSkipCiCommits then [AmendSkipCi] else [])
    ensures warning == ExpectedWarning(hasConflicts, hasDiff, isFullRequest)
  {
    steps := [];
    warning := None;
    if hasConflicts {
      steps := steps + [ReviewConflicts];
      warning := Some(ConflictsWarning);
    }
    if hasDiff && isFullRequest {
      steps := steps + [ReviewConflicts];
      warning := Some(DiffWarning);
    }
    if hasEmptyCommits {
      steps := steps + [RemoveEmptyCommits];
    }
    if hasSkipCiCommits {
      steps := steps + [AmendSkipCi];
    }
  }

  /** The appending half of `getBackportBody`: the header, then the warning
      and the to-do sections when they are not empty, then the link. */
  method AppendSections(header: string, warning: string, todo: string) returns (body: string)
    ensures body == header + warning + todo + LEARN_MORE
  {
    body := header;
    if warning != "" {
      body := body + warning;
    }
    ghost var withWarning := body;
    if todo != "" {
      body := body + todo;
    }
    assert body == withWarning + todo;
    body := body + LEARN_MORE;
  }

  /** The pushed steps, the conflicts step pushed once or twice,
      deduplicate to the expected list. */
  lemma StepsDedup(hasConflicts: bool, hasDiff: bool, hasEmptyCommits: bool,
                   hasSkipCiCommits: bool, isFullRequest: bool, steps: seq<Step>)
    requires steps == (if hasConflicts then [ReviewConflicts] else [])
                      + (if hasDiff && isFullRequest then [ReviewConflicts] else [])
                      + (if hasEmptyCommits then [RemoveEmptyCommits] else [])
                      + (if hasSkipCiCommits then [AmendSkipCi] else [])
    ensures Dedup(steps) == ExpectedSteps(hasConflicts, hasDiff, hasEmptyCommits, hasSkipCiCommits, isFullRequest)
    ensures steps == [] <==> Dedup(steps) == []
  {
    var e := ExpectedSteps(hasConflicts, hasDiff, hasEmptyCommits, hasSkipCiCommits, isFullRequest);
    assert Distinct(e);
    var rest := (if hasEmptyCommits then [RemoveEmptyCommits] else [])
                + (if hasSkipCiCommits then [AmendSkipCi] else []);
    if hasConflicts && hasDiff && isFullRequest {
      assert steps == [ReviewConflicts, ReviewConflicts] + rest;
      assert e == [ReviewConflicts] + rest;
      DedupRepeatedHead(ReviewConflicts, rest);
      DedupOfDistinct(e);
    } else {
      assert steps == e;
      DedupOfDistinct(e);
    }
  }

  /** Repeating the first element does not change the deduplication. */
  lemma {:induction false} DedupRepeatedHead<T>(x: T, rest: seq<T>)
    ensures Dedup([x, x] + rest) == Dedup([x] + rest)
    decreases |rest|
  {
    if rest == [] {
      assert [x, x] + rest == [x] + [x];
      assert ([x] + [x])[..1] == [x];
    } else {
      var last := rest[|rest| - 1];
      var r' := rest[..|rest| - 1];
      var a := [x, x] + rest;
      var b := [x] + rest;
      assert a[..|a| - 1] == [x, x] + r' && a[|a| - 1] == last;
      assert b[..|b| - 1] == [x] + r' && b[|b| - 1] == last;
      DedupRepeatedHead(x, r');
    }
  }

  /** The body starts with `Backport of #<n>` and ends with the link. */
  lemma BodyFrame(prNumber: nat, middle: string)
    ensures StartsWith(BackportBodyHeader(prNumber) + middle + LEARN_MORE, BackportBodyHeader(prNumber))
    ensures EndsWith(BackportBodyHeader(prNumber) + middle + LEARN_MORE, LEARN_MORE)
  {
    StartsWithConcat(BackportBodyHeader(prNumber), middle + LEARN_MORE);
    assert BackportBodyHeader(prNumber) + middle + LEARN_MORE == BackportBodyHeader(prNumber) + (middle + LEARN_MORE);
    EndsWithConcat(BackportBodyHeader(prNumber) + middle, LEARN_MORE);
  }

  /** The warning shown is the diff warning exactly for a full request with
      a diff; the To-do section appears exactly when some step applies and
      lists each step once. */
  lemma WarningAndTodo(hasConflicts: bool, hasDiff: bool, hasEmptyCommits: bool,
                       hasSkipCiCommits: bool, isFullRequest: bool)
    ensures ExpectedWarning(hasConflicts, hasDiff, isFullRequest) == Some(DiffWarning) <==> hasDiff && isFullRequest
    ensures ExpectedWarning(hasConflicts, hasDiff, isFullRequest).None? <==> !hasConflicts && !(hasDiff && isFullRequest)
    ensures var steps := ExpectedSteps(hasConflicts, hasDiff, hasEmptyCommits, hasSkipCiCommits, isFullRequest);
            (TodoSection(steps) != "" <==> hasConflicts || (hasDiff && isFullRequest) || hasEmptyCommits || hasSkipCiCommits)
            && Distinct(steps)
  {
    var steps := ExpectedSteps(hasConflicts, hasDiff, hasEmptyCommits, hasSkipCiCommits, isFullRequest);
    TodoSectionEmpty(steps);
    StepsInOrder(hasConflicts || (hasDiff && isFullRequest), hasEmptyCommits, hasSkipCiCommits);
  }

  /** One optional step of each kind, in a fixed order, never repeats. */
  lemma StepsInOrder(review: bool, empty: bool, skipCi: bool)
    ensures var steps := (if review then [ReviewConflicts] else [])
                         + (if empty then [RemoveEmptyCommits] else [])
                         + (if skipCi then [AmendSkipCi] else []);
            Distinct(steps) && (steps == [] <==> !review && !empty && !skipCi)
  {
    var a := if review then [ReviewConflicts] else [];
    var b := if empty then [RemoveEmptyCommits] else [];
    var c := if skipCi then [AmendSkipCi] else [];
    var steps := a + b + c;
    assert |steps| == |a| + |b| + |c|;
    assert forall i :: 0 <= i < |a| ==> steps[i] == ReviewConflicts;
    assert forall i :: |a| <= i < |a| + |b| ==> steps[i] == RemoveEmptyCommits;
    assert forall i :: |a| + |b| <= i < |steps| ==> steps[i] == AmendSkipCi;
  }

  /** The to-do section is empty exactly when no step applies. */
  lemma TodoSectionEmpty(steps: seq<Step>)
    ensures TodoSection(steps) == "" <==> steps == []
  {
    if steps != [] {
      var heading := "\n\n## Todo \n";
      assert |heading + Join(TodoItems(steps), "\n")| >= |heading| > 0;
    }
  }

  // ---------------------------------------------------------------------
  // getFailureCommentBody

  /** `commit.slice(0, 8)` for each commit. */
  function ShortShas(commits: seq<string>): (r: seq<string>)
    ensures |r| == |commits|
    ensures forall i :: 0 <= i < |r| ==>
              StartsWith(commits[i], r[i]) && |r[i]| == (if |commits[i]| < 8 then |commits[i]| else 8)
  {
    seq(|commits|, i requires 0 <= i < |commits| => if |commits[i]| < 8 then commits[i] else commits[i][..8])
  }

  /** The first line of the failure comment. */
  function FailureTitle(branch: string): string {
    "The backport to `" + branch + "` failed. Please do this backport manually."
  }

  /** The title and the instructions up to the branch creation. */
  function FailureTop(branch: string): string {
    FailureTitle(branch) + SwitchSteps(branch)
  }

  /** Switching to the target branch and updating it. */
  function SwitchSteps(branch: string): string {
    "\n\n"
    + "```bash\n"
    + "# Switch to the target branch and update it\n"
    + "git checkout " + branch + "\n"
    + "git pull origin " + branch + "\n\n"
    + "# Create the new backport branch\n"
  }

  function CheckoutLine(target: string): string {
    "git checkout -b " + target + "\n"
  }

  const PICK_INTRO: string :=
    "\n# Cherry pick the change from the commit sha1 of the change against the default branch\n"
    + "# This might cause conflicts, resolve them\n"

  /** The cherry-pick command with every commit shortened to 8 characters. */
  function PickLine(commits: seq<string>): string {
    "git cherry-pick " + Join(ShortShas(commits), " ") + "\n"
  }

  function FailureFooter(target: string): string {
    "\n# Push the cherry pick commit to the remote repository and open a pull request\n"
    + "git push origin " + target + "\n"
    + "```\n\n"
  }

  /** The error line, `Unknown error` when no error is given, then the link. */
  function ErrorTail(error: Option<string>): string {
    "Error: " + error.GetOr("Unknown error") + "\n\n" + LEARN_MORE
  }

  /** `getFailureCommentBody`: manual instructions for the target branch,
      the shortened commits to pick, and the error. */
  function GetFailureCommentBody(task: Task, target: string, error: Option<string>): (r: string)
    ensures StartsWith(r, FailureTitle(task.branch))
    ensures Includes(r, CheckoutLine(target))
    ensures Includes(r, PickLine(task.commits))
    ensures EndsWith(r, ErrorTail(error))
  {
    var top := FailureTop(task.branch);
    var checkout := CheckoutLine(target);
    var pick := PickLine(task.commits);
    var after := FailureFooter(target) + ErrorTail(error);
    var r := (top + checkout + PICK_INTRO) + pick + after;
    StartsWithConcat(FailureTitle(task.branch), SwitchSteps(task.branch));
    FailureProof(top, checkout, PICK_INTRO, pick, after, FailureTitle(task.branch), ErrorTail(error), FailureFooter(target), r);
    r
  }

  lemma FailureProof(top: string, checkout: string, intro: string, pick: string, after: string,
                     title: string, tail: string, footer: string, r: string)
    requires StartsWith(top, title)
    requires after == footer + tail
    requires r == (top + checkout + intro) + pick + after
    ensures StartsWith(r, title) && Includes(r, checkout) && Includes(r, pick) && EndsWith(r, tail)
  {
    IncludesMiddle(top + checkout + intro, pick, after);
    assert r == top + checkout + (intro + pick + after);
    IncludesMiddle(top, checkout, intro + pick + after);
    assert r[..|title|] == top[..|title|];
    assert r == ((top + checkout + intro) + pick + footer) + tail;
    EndsWithConcat((top + checkout + intro) + pick + footer, tail);
  }
}

/**
 * The command parser of the first version of the bot (lib/comment.js):
 * the first line of a comment that reads `/backport [commits] to <branch>`
 * gives the target branch and the commits, both matched without regard
 * to case.
 */
module LegacyComment {
  import opened Wrappers
  import opened Seqs
  import opened JsString
  import opened Constants

  /** A LineTerminator of ECMAScript: where `^` and `$` match under the `m` flag. */
  predicate IsLineTerminator(c: char) {
    c == '\n' || c == '\r' || c == '\U{2028}' || c == '\U{2029}'
  }

  /** The lines of a text, cut at every line terminator. */
  function Lines(s: string): (r: seq<string>)
    ensures |r| >= 1
    ensures forall i, k :: 0 <= i < |r| && 0 <= k < |r[i]| ==> !IsLineTerminator(r[i][k])
    decreases |s|
  {
    if s == [] then [""]
    else
      var front := Lines(s[..|s| - 1]);
      var c := s[|s| - 1];
      if IsLineTerminator(c) then front + [""]
      else front[..|front| - 1] + [front[|front| - 1] + [c]]
  }

  /** A text without line terminators is a single line. */
  lemma {:induction false} SingleLine(s: string)
    requires forall k :: 0 <= k < |s| ==> !IsLineTerminator(s[k])
    ensures Lines(s) == [s]
    decreases |s|
  {
    if s != [] {
      SingleLine(s[..|s| - 1]);
      assert s[..|s| - 1] + [s[|s| - 1]] == s;
    }
  }

  /** ASCII upper case to lower case; the only folding the `i` flag does
      for the characters of this pattern. */
  function Lower(c: char): char {
    if 'A' <= c <= 'Z' then (c as int + 32) as char else c
  }

  /** `s` equals the lower-case literal `lit` without regard to case. */
  predicate EqualsIgnoringCase(s: string, lit: string) {
    |s| == |lit| && forall i :: 0 <= i < |s| ==> Lower(s[i]) == lit[i]
  }

  /** `[a-f0-9,]` under the `i` flag. */
  predicate IsCommitListChar(c: char) {
    IsHexDigit(c) || c == ','
  }

  /** `[\d\w-._]`: a word character, `-` or `.`. */
  predicate IsTargetChar(c: char) {
    IsWordChar(c) || c == '-' || c == '.'
  }

  /** `[\d\w-._]+`. */
  predicate IsTargetName(s: string) {
    |s| >= 1 && forall i :: 0 <= i < |s| ==> IsTargetChar(s[i])
  }

  /** The length of the longest prefix of commit-list characters. */
  function CommitRunLen(s: string): (n: nat)
    ensures n <= |s|
    ensures forall i :: 0 <= i < n ==> IsCommitListChar(s[i])
    ensures n < |s| ==> !IsCommitListChar(s[n])
  {
    if s == [] || !IsCommitListChar(s[0]) then 0 else 1 + CommitRunLen(s[1..])
  }

  /** A listed commit that is kept: not empty and at least 7 characters. */
  predicate IsKeptCommit(commit: string) {
    commit != "" && |commit| >= 7
  }

  /** `commits.split(',').filter(commit => !!commit && commit.length >= 7)`. */
  function CommitList(group: string): seq<string> {
    Filter(IsKeptCommit, Split(group, ","))
  }

  /** A parsed command: the target branch and the commits to pick. */
  datatype Target = Target(branch: string, commits: seq<string>)

  const COMMAND: string := "/backport "

  /** What follows `^/backport `: `((?<commits>[a-f0-9,]*) )?to (?<branch>[\d\w-._]+)$`.
      The optional group is tried first; since its characters exclude the
      space, the only run it can take is the longest one. */
  function MatchRest(rest: string): Option<Target>
  {
    var n := CommitRunLen(rest);
    if n + 4 <= |rest| && EqualsIgnoringCase(rest[n..n + 4], " to ") && IsTargetName(rest[n + 4..]) then
      Some(Target(rest[n + 4..], CommitList(rest[..n])))
    else if 3 <= |rest| && EqualsIgnoringCase(rest[..3], "to ") && IsTargetName(rest[3..]) then
      Some(Target(rest[3..], []))
    else None
  }

  /** The pattern on one line: the command, then the rest. */
  function MatchLine(line: string): (r: Option<Target>)
    ensures r.Some? ==> StartsWithIgnoringCase(line, COMMAND)
  {
    if |line| < |COMMAND| || !EqualsIgnoringCase(line[..|COMMAND|], COMMAND) then None
    else MatchRest(line[|COMMAND|..])
  }

  /** `s` starts with the lower-case literal `lit`, without regard to case. */
  predicate StartsWithIgnoringCase(s: string, lit: string) {
    |lit| <= |s| && EqualsIgnoringCase(s[..|lit|], lit)
  }

  /** The kept commits of a run of commit-list characters are hexadecimal. */
  lemma CommitListHex(group: string)
    requires forall i :: 0 <= i < |group| ==> IsCommitListChar(group[i])
    ensures forall i :: 0 <= i < |CommitList(group)| ==>
              IsKeptCommit(CommitList(group)[i])
              && forall k :: 0 <= k < |CommitList(group)[i]| ==> IsHexDigit(CommitList(group)[i][k])
  {
    var pieces := Split(group, ",");
    SplitPiecesAvoidSeparator(group, ",");
    JoinSplit(group, ",");
    forall j, k | 0 <= j < |pieces| && 0 <= k < |pieces[j]|
      ensures IsHexDigit(pieces[j][k])
    {
      PieceChar(pieces, ",", j, k, IsCommitListChar);
      assert !OccursAt(pieces[j], ",", k);
      assert pieces[j][k..k + 1] == [pieces[j][k]];
    }
  }

  /** A character of a piece of a join is a character of the join. */
  lemma {:induction false} PieceChar(parts: seq<string>, sep: string, j: nat, k: nat, p: char -> bool)
    requires j < |parts| && k < |parts[j]|
    requires forall i :: 0 <= i < |Join(parts, sep)| ==> p(Join(parts, sep)[i])
    ensures p(parts[j][k])
    decreases |parts|
  {
    if |parts| == 1 {
      assert Join(parts, sep) == parts[0];
    } else {
      var rest := Join(parts[1..], sep);
      assert Join(parts, sep) == parts[0] + sep + rest;
      if j == 0 {
        assert Join(parts, sep)[k] == parts[0][k];
      } else {
        forall i | 0 <= i < |rest|
          ensures p(rest[i])
        {
          assert Join(parts, sep)[|parts[0]| + |sep| + i] == rest[i];
        }
        assert parts[j] == parts[1..][j - 1];
        PieceChar(parts[1..], sep, j - 1, k, p);
      }
    }
  }

  /** The first match among the lines, in order. */
  function FirstMatch(lines: seq<string>): Option<Target>
  {
    if lines == [] then None
    else if MatchLine(lines[0]).Some? then MatchLine(lines[0])
    else FirstMatch(lines[1..])
  }

  /** `match`: the first line that matches the command gives the target;
      `false` (here `None`) when no line does. */
  function Match(comment: string): (r: Option<Target>)
    ensures r.Some? <==> exists i :: 0 <= i < |Lines(comment)| && MatchLine(Lines(comment)[i]).Some?
    ensures r.Some? ==> exists i :: 0 <= i < |Lines(comment)| && MatchLine(Lines(comment)[i]) == r
                                    && forall k :: 0 <= k < i ==> MatchLine(Lines(comment)[k]).None?
  {
    FirstMatchShape(Lines(comment));
    assert FirstMatch(Lines(comment)).Some? ==> exists i :: 0 <= i < |Lines(comment)| && MatchLine(Lines(comment)[i]).Some?;
    assert (exists i :: 0 <= i < |Lines(comment)| && MatchLine(Lines(comment)[i]).Some?) ==> FirstMatch(Lines(comment)).Some?;
    FirstMatch(Lines(comment))
  }

  /** Both halves of `Match`'s contract, for any list of lines. */
  lemma FirstMatchShape(lines: seq<string>)
    ensures FirstMatch(lines).None? <==> forall i :: 0 <= i < |lines| ==> MatchLine(lines[i]).None?
    ensures FirstMatch(lines).Some? ==> exists i :: 0 <= i < |lines| && MatchLine(lines[i]) == FirstMatch(lines)
                                                    && forall k :: 0 <= k < i ==> MatchLine(lines[k]).None?
  {
    FirstMatchNone(lines);
    if FirstMatch(lines).Some? {
      FirstMatchIndex(lines);
    }
  }

  /** No match exactly when no line matches. */
  lemma {:induction false} FirstMatchNone(lines: seq<string>)
    ensures FirstMatch(lines).None? <==> forall i :: 0 <= i < |lines| ==> MatchLine(lines[i]).None?
  {
    if lines != [] {
      var tail := lines[1..];
      FirstMatchNone(tail);
      if MatchLine(lines[0]).None? {
        assert FirstMatch(lines) == FirstMatch(tail);
        if forall i :: 0 <= i < |lines| ==> MatchLine(lines[i]).None? {
          forall j | 0 <= j < |tail|
            ensures MatchLine(tail[j]).None?
          {
            assert tail[j] == lines[j + 1];
          }
        }
        if FirstMatch(tail).None? {
          forall i | 0 < i < |lines|
            ensures MatchLine(lines[i]).None?
          {
            assert lines[i] == tail[i - 1];
          }
        }
      }
    }
  }

  /** A match is the match of a line that no earlier line matches before. */
  lemma {:induction false} FirstMatchIndex(lines: seq<string>)
    requires FirstMatch(lines).Some?
    ensures exists i :: 0 <= i < |lines| && MatchLine(lines[i]) == FirstMatch(lines)
                        && forall k :: 0 <= k < i ==> MatchLine(lines[k]).None?
  {
    if MatchLine(lines[0]).Some? {
      assert MatchLine(lines[0]) == FirstMatch(lines);
    } else {
      var tail := lines[1..];
      FirstMatchIndex(tail);
      var j :| 0 <= j < |tail| && MatchLine(tail[j]) == FirstMatch(tail) && forall k :: 0 <= k < j ==> MatchLine(tail[k]).None?;
      assert lines[j + 1] == tail[j];
      forall k | 0 <= k < j + 1
        ensures MatchLine(lines[k]).None?
      {
        if k > 0 {
          assert lines[k] == tail[k - 1];
        }
      }
      assert MatchLine(lines[j + 1]) == FirstMatch(lines);
    }
  }

  /** A valid target: a branch name, and commits that are hexadecimal and
      at least 7 characters long. */
  predicate IsValidTarget(t: Target) {
    IsTargetName(t.branch)
    && forall i :: 0 <= i < |t.commits| ==>
         IsKeptCommit(t.commits[i]) && forall k :: 0 <= k < |t.commits[i]| ==> IsHexDigit(t.commits[i][k])
  }

  /** Whatever follows the command, a match is a valid target. */
  lemma MatchRestValid(rest: string)
    requires MatchRest(rest).Some?
    ensures IsValidTarget(MatchRest(rest).value)
  {
    var n := CommitRunLen(rest);
    if n + 4 <= |rest| && EqualsIgnoringCase(rest[n..n + 4], " to ") && IsTargetName(rest[n + 4..]) {
      CommitListHex(rest[..n]);
    }
  }

  /** Every target `match` returns is valid. */
  lemma MatchValid(comment: string)
    requires Match(comment).Some?
    ensures IsValidTarget(Match(comment).value)
  {
    var lines := Lines(comment);
    var i :| 0 <= i < |lines| && MatchLine(lines[i]) == Match(comment);
    MatchRestValid(lines[i][|COMMAND|..]);
  }

  /** A text without line terminators. */
  predicate IsOneLine(s: string) {
    forall k :: 0 <= k < |s| ==> !IsLineTerminator(s[k])
  }

  /** On a single line, `match` is the line's own match. */
  lemma MatchOneLine(line: string)
    requires IsOneLine(line)
    ensures Match(line) == MatchLine(line)
  {
    SingleLine(line);
    assert [line][1..] == [];
    assert FirstMatch([line]) == if MatchLine(line).Some? then MatchLine(line) else FirstMatch([]);
  }

  /** A command followed by a single line is a single line. */
  lemma CommandLine(tail: string)
    requires IsOneLine(tail)
    ensures IsOneLine(COMMAND + tail)
    ensures StartsWithIgnoringCase(COMMAND + tail, COMMAND)
    ensures (COMMAND + tail)[|COMMAND|..] == tail
  {
    var line := COMMAND + tail;
    forall k | 0 <= k < |line|
      ensures !IsLineTerminator(line[k])
    {
      if k >= |COMMAND| {
        assert line[k] == tail[k - |COMMAND|];
      }
    }
    assert line[..|COMMAND|] == COMMAND;
  }

  /** The command without commits, `/backport to <branch>`, gives no commits. */
  lemma NoCommitGroup(branch: string)
    requires IsTargetName(branch)
    ensures Match(COMMAND + "to " + branch) == Some(Target(branch, []))
  {
    var tail := "to " + branch;
    assert COMMAND + "to " + branch == COMMAND + tail;
    forall k | 0 <= k < |tail|
      ensures !IsLineTerminator(tail[k])
    {
      if k >= 3 {
        assert tail[k] == branch[k - 3];
      }
    }
    CommandLine(tail);
    MatchOneLine(COMMAND + tail);
    assert MatchLine(COMMAND + tail) == MatchRest(tail);
    assert tail[..3] == "to ";
    assert tail[3..] == branch;
    TargetOnly(tail);
  }

  /** A rest that starts with `to ` and a valid branch is the form without
      commits. */
  lemma TargetOnly(rest: string)
    requires 3 <= |rest| && rest[..3] == "to " && IsTargetName(rest[3..])
    ensures MatchRest(rest) == Some(Target(rest[3..], []))
  {
    assert CommitRunLen(rest) == 0;
    BareSeparatorIgnoringCase();
    assert EqualsIgnoringCase(rest[..3], "to ");
    if 4 <= |rest| {
      assert rest[0..4][0] == 't' && Lower('t') != ' ';
    }
  }

  /** Splitting valid commits joined with `,` and keeping the long ones
      gives the commits back. */
  lemma CommitListJoin(commits: seq<string>)
    requires forall i :: 0 <= i < |commits| ==>
               IsKeptCommit(commits[i]) && forall k :: 0 <= k < |commits[i]| ==> IsHexDigit(commits[i][k])
    ensures CommitList(Join(commits, ",")) == commits
  {
    if commits == [] {
      SplitNoSeparator("", ",");
    } else {
      assert forall i :: 0 <= i < |commits| ==> ',' !in commits[i];
      SplitJoin(commits, ',');
      FilterAll(IsKeptCommit, commits);
    }
  }

  /** Round trip after the command: valid commits joined with `,`, then
      ` to ` and a valid branch, are parsed back to the commits and the
      branch. */
  lemma RestRoundTrip(commits: seq<string>, branch: string)
    requires IsTargetName(branch)
    requires forall i :: 0 <= i < |commits| ==>
               IsKeptCommit(commits[i]) && forall k :: 0 <= k < |commits[i]| ==> IsHexDigit(commits[i][k])
    ensures MatchRest(Join(commits, ",") + " to " + branch) == Some(Target(branch, commits))
  {
    var list := Join(commits, ",");
    JoinChars(commits, ",", IsCommitListChar);
    var after := " to " + branch;
    var tail := list + after;
    assert list + " to " + branch == tail;
    RunOfList(list, after);
    var n := |list|;
    assert tail[n..n + 4] == after[..4] == " to ";
    assert tail[n + 4..] == after[4..] == branch;
    assert tail[..n] == list;
    CommitListJoin(commits);
    GroupThenTarget(tail, n);
  }

  /** A run of commit characters, then ` to ` and a valid branch, is the
      form with commits. */
  lemma GroupThenTarget(rest: string, n: nat)
    requires CommitRunLen(rest) == n && n + 4 <= |rest|
    requires rest[n..n + 4] == " to " && IsTargetName(rest[n + 4..])
    ensures MatchRest(rest) == Some(Target(rest[n + 4..], CommitList(rest[..n])))
  {
    SeparatorIgnoringCase();
    assert EqualsIgnoringCase(rest[n..n + 4], " to ");
  }

  /** ` to ` matches itself without regard to case. */
  lemma SeparatorIgnoringCase()
    ensures EqualsIgnoringCase(" to ", " to ")
  {
    var lit := " to ";
    assert lit[0] == ' ' && lit[1] == 't' && lit[2] == 'o' && lit[3] == ' ';
  }

  /** `to ` matches itself without regard to case. */
  lemma BareSeparatorIgnoringCase()
    ensures EqualsIgnoringCase("to ", "to ")
  {
    var lit := "to ";
    assert lit[0] == 't' && lit[1] == 'o' && lit[2] == ' ';
  }

  /** Round trip: the command written for valid commits and a valid branch
      is parsed back to them. */
  lemma MatchRoundTrip(commits: seq<string>, branch: string)
    requires IsTargetName(branch)
    requires forall i :: 0 <= i < |commits| ==>
               IsKeptCommit(commits[i]) && forall k :: 0 <= k < |commits[i]| ==> IsHexDigit(commits[i][k])
    ensures Match(COMMAND + Join(commits, ",") + " to " + branch) == Some(Target(branch, commits))
  {
    var list := Join(commits, ",");
    JoinChars(commits, ",", IsCommitListChar);
    var tail := list + " to " + branch;
    assert COMMAND + list + " to " + branch == COMMAND + tail;
    forall k | 0 <= k < |tail|
      ensures !IsLineTerminator(tail[k])
    {
      if k < |list| {
        assert tail[k] == list[k];
      } else if k >= |list| + 4 {
        assert tail[k] == branch[k - |list| - 4];
      }
    }
    CommandLine(tail);
    MatchOneLine(COMMAND + tail);
    RestRoundTrip(commits, branch);
  }

  /** The commit run of `list + tail` is `list` when `tail` starts with a
      space. */
  lemma {:induction false} RunOfList(list: string, tail: string)
    requires forall i :: 0 <= i < |list| ==> IsCommitListChar(list[i])
    requires |tail| > 0 && tail[0] == ' '
    ensures CommitRunLen(list + tail) == |list|
    decreases |list|
  {
    if list != [] {
      assert (list + tail)[1..] == list[1..] + tail;
      RunOfList(list[1..], tail);
    }
  }
}

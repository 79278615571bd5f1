/**
 * Parsing of the comment command `/backport[!] [commits] to <branch>`:
 * the commit list, the target branch and the politeness check
 * (src/payloadUtils.ts).
 */
module PayloadUtils {
  import opened Wrappers
  import opened Seqs
  import opened JsString
  import opened Constants

  /** The text between the command word and the first ` to `, trimmed. */
  function CommitsChain(payload: string): string {
    Trim(Slice(Split(payload, TO_SEPARATOR)[0], |COMMAND_PREFIX|))
  }

  predicate NotForceFlag(token: string) {
    !StartsWith(token, "!")
  }

  /** The space-separated tokens of the chain, force flags (`!…`) removed. */
  function CommitTokens(chain: string): seq<string> {
    Filter(NotForceFlag, Split(chain, " "))
  }

  function CommitsError(payload: string): string {
    "Failed to extract commits from payload: `" + payload + "`"
  }

  /** `extractCommitsFromPayload`: every remaining token must be a commit
      sha, unless the chain is empty; the error message quotes the payload. */
  function ExtractCommitsFromPayload(payload: string): (r: Result<seq<string>, string>)
    ensures r.Success? ==> forall i :: 0 <= i < |r.value| ==> IsCommitSha(r.value[i])
    ensures r.Success? ==> IsSubsequence(r.value, Split(CommitsChain(payload), " "))
    ensures r.Failure? ==> r.error == CommitsError(payload)
  {
    var chain := CommitsChain(payload);
    var commits := CommitTokens(chain);
    if chain != "" && exists i :: 0 <= i < |commits| && !IsCommitSha(commits[i]) then
      Failure(CommitsError(payload))
    else
      var r := Filter(IsCommitSha, commits);
      SubsequenceTransitive(r, commits, Split(chain, " "));
      Success(r)
  }

  /** The call throws exactly when the chain is non-empty and some token
      other than a force flag is not a commit sha; otherwise the result is
      every such token, in order, and nothing for an empty chain. */
  lemma ExtractCommitsOutcome(payload: string)
    ensures var chain := CommitsChain(payload);
            var tokens := CommitTokens(chain);
            match ExtractCommitsFromPayload(payload)
            case Failure(_) => chain != "" && exists i :: 0 <= i < |tokens| && !IsCommitSha(tokens[i])
            case Success(cs) => (chain == "" ==> cs == []) && (chain != "" ==> cs == tokens)
  {
    var chain := CommitsChain(payload);
    var tokens := CommitTokens(chain);
    if chain == "" {
      SplitNoSeparator("", " ");
      assert Split(chain, " ") == [""];
      assert NotForceFlag("") && !IsCommitSha("");
      assert [""][..0] == [];
      assert tokens == [""];
      assert Filter(IsCommitSha, tokens) == [];
      assert ExtractCommitsFromPayload(payload) == Success([]);
    } else if forall i :: 0 <= i < |tokens| ==> IsCommitSha(tokens[i]) {
      FilterAll(IsCommitSha, tokens);
      assert ExtractCommitsFromPayload(payload) == Success(tokens);
    } else {
      assert ExtractCommitsFromPayload(payload) == Failure(CommitsError(payload));
    }
  }

  /** `extractBranchFromPayload`: the trimmed text after the first ` to ` of
      the first line, or `''` when there is none. */
  function BranchCandidate(payload: string): string {
    var firstLine := Split(payload, "\n")[0];
    var parts := Split(firstLine, TO_SEPARATOR);
    if |parts| >= 2 then Trim(parts[1]) else ""
  }

  function ExtractBranchFromPayload(payload: string): (r: Result<string, string>)
    ensures r.Success? <==> IsBranchName(BranchCandidate(payload))
    ensures r.Success? ==> r.value == BranchCandidate(payload) && IsBranchName(r.value)
    ensures r.Failure? ==> r.error == "Branch name `" + BranchCandidate(payload) + "` is invalid"
  {
    var branch := BranchCandidate(payload);
    if !IsBranchName(branch) then Failure("Branch name `" + branch + "` is invalid")
    else Success(branch)
  }

  /** `isFriendly`: the command ends with `please`. */
  predicate IsFriendly(payload: string)
    ensures IsFriendly(payload) <==> exists front :: payload == front + "please"
  {
    EndsWithIffSuffix(payload, "please");
    EndsWith(payload, "please")
  }

  /** The command a user writes to request `commits` onto `branch`. */
  function FormatCommand(commits: seq<string>, branch: string): string {
    CommandHead(commits) + TO_SEPARATOR + branch
  }

  /** `/backport` followed by the space-separated shas. */
  function CommandHead(commits: seq<string>): string {
    COMMAND_PREFIX + ShaList(commits)
  }

  function ShaList(commits: seq<string>): string {
    if commits == [] then "" else " " + Join(commits, " ")
  }

  predicate IsShaOrSpace(c: char) {
    IsHexDigit(c) || c == ' '
  }

  lemma ShaListChars(commits: seq<string>)
    requires forall i :: 0 <= i < |commits| ==> IsCommitSha(commits[i])
    ensures forall i :: 0 <= i < |ShaList(commits)| ==> IsShaOrSpace(ShaList(commits)[i])
  {
    if commits != [] {
      JoinChars(commits, " ", IsShaOrSpace);
      var j := Join(commits, " ");
      assert forall i :: 1 <= i < |ShaList(commits)| ==> ShaList(commits)[i] == j[i - 1];
    }
  }

  /** ` to ` needs a space followed by `t`, which the command word and the
      shas never have. */
  lemma HeadAvoidsSeparator(commits: seq<string>, branch: string)
    requires forall i :: 0 <= i < |commits| ==> IsCommitSha(commits[i])
    ensures forall k :: 0 <= k < |CommandHead(commits)| ==>
              !OccursAt(FormatCommand(commits, branch), TO_SEPARATOR, k)
  {
    var tail := ShaList(commits);
    var p := CommandHead(commits);
    var u := FormatCommand(commits, branch);
    ShaListChars(commits);
    assert u == p + TO_SEPARATOR + branch;
    forall k | 0 <= k < |p| ensures !OccursAt(u, TO_SEPARATOR, k) {
      if k < 9 {
        assert u[k] == COMMAND_PREFIX[k];
        assert u[k] != ' ';
      } else if k + 1 < |p| {
        assert u[k + 1] == tail[k - 8];
        assert IsShaOrSpace(tail[k - 8]);
        assert u[k + 1] != 't';
      } else {
        assert u[k + 1] == ' ';
      }
      if k + 4 <= |u| {
        assert u[k..k + 4][0] == u[k] && u[k..k + 4][1] == u[k + 1];
      }
    }
  }

  /** The first ` to ` of a command is the one before the branch. */
  lemma FormatSplit(commits: seq<string>, branch: string)
    requires forall i :: 0 <= i < |commits| ==> IsCommitSha(commits[i])
    requires IsBranchName(branch)
    ensures Split(FormatCommand(commits, branch), TO_SEPARATOR) == [CommandHead(commits), branch]
  {
    HeadAvoidsSeparator(commits, branch);
    assert FormatCommand(commits, branch) == CommandHead(commits) + TO_SEPARATOR + branch;
    SplitAtFirst(CommandHead(commits), TO_SEPARATOR, branch);
    assert forall i :: 0 <= i < |branch| ==> IsBranchChar(branch[i]);
    MissingFirstChar(branch, TO_SEPARATOR);
    SplitNoSeparator(branch, TO_SEPARATOR);
  }

  /** The commit chain of a command is its sha list without the leading space. */
  lemma FormatChain(commits: seq<string>, branch: string)
    requires forall i :: 0 <= i < |commits| ==> IsCommitSha(commits[i])
    requires IsBranchName(branch)
    ensures CommitsChain(FormatCommand(commits, branch)) == if commits == [] then "" else Join(commits, " ")
  {
    var tail := ShaList(commits);
    FormatSplit(commits, branch);
    assert (COMMAND_PREFIX + tail)[|COMMAND_PREFIX|..] == tail;
    assert CommitsChain(FormatCommand(commits, branch)) == Trim(tail);
    if commits != [] {
      ShaListTrim(commits);
    }
  }

  lemma ShaListTrim(commits: seq<string>)
    requires commits != []
    requires forall i :: 0 <= i < |commits| ==> IsCommitSha(commits[i])
    ensures Trim(ShaList(commits)) == Join(commits, " ")
  {
    var j := Join(commits, " ");
    var first := commits[0];
    var last := commits[|commits| - 1];
    assert IsCommitSha(first) && IsCommitSha(last);
    JoinStarts(commits, " ");
    JoinEnds(commits, " ");
    assert j[0] == first[0] by {
      assert j[..|first|] == first;
    }
    assert j[|j| - 1] == last[|last| - 1] by {
      assert j[|j| - |last|..] == last;
    }
    HexDigitIsNotWhitespace(first[0]);
    HexDigitIsNotWhitespace(last[|last| - 1]);
    TrimPadded(" ", j);
  }

  /** A commit sha holds no space and is not a force flag. */
  lemma ShaToken(c: string)
    requires IsCommitSha(c)
    ensures ' ' !in c && NotForceFlag(c)
  {
    assert forall k :: 0 <= k < |c| ==> c[k] != ' ';
    assert c[..1][0] == c[0] != '!';
  }

  /** The tokens of a joined sha list are the shas. */
  lemma ShaTokens(commits: seq<string>)
    requires commits != []
    requires forall i :: 0 <= i < |commits| ==> IsCommitSha(commits[i])
    ensures CommitTokens(Join(commits, " ")) == commits
  {
    forall i | 0 <= i < |commits| ensures ' ' !in commits[i] && NotForceFlag(commits[i]) {
      ShaToken(commits[i]);
    }
    SplitJoin(commits, ' ');
    FilterAll(NotForceFlag, commits);
  }

  /** Parsing a well-formed command gives back its commits. */
  lemma CommitsRoundTrip(commits: seq<string>, branch: string)
    requires forall i :: 0 <= i < |commits| ==> IsCommitSha(commits[i])
    requires IsBranchName(branch)
    ensures ExtractCommitsFromPayload(FormatCommand(commits, branch)) == Success(commits)
  {
    var u := FormatCommand(commits, branch);
    FormatChain(commits, branch);
    if commits == [] {
      ExtractCommitsOutcome(u);
    } else {
      ShaTokens(commits);
      ExtractCommitsOutcome(u);
    }
  }

  /** Parsing a well-formed command gives back its branch. */
  lemma BranchRoundTrip(commits: seq<string>, branch: string)
    requires forall i :: 0 <= i < |commits| ==> IsCommitSha(commits[i])
    requires IsBranchName(branch)
    ensures ExtractBranchFromPayload(FormatCommand(commits, branch)) == Success(branch)
  {
    var u := FormatCommand(commits, branch);
    NoNewlineInCommand(commits, branch);
    MissingFirstChar(u, "\n");
    SplitNoSeparator(u, "\n");
    FormatSplit(commits, branch);
    assert BranchCandidate(u) == Trim(branch);
    WordCharIsNotWhitespace(branch[0]);
    WordCharIsNotWhitespace(branch[|branch| - 1]);
    TrimUnchanged(branch);
  }

  /** A well-formed command is a single line. */
  lemma NoNewlineInCommand(commits: seq<string>, branch: string)
    requires forall i :: 0 <= i < |commits| ==> IsCommitSha(commits[i])
    requires IsBranchName(branch)
    ensures '\n' !in FormatCommand(commits, branch)
  {
    ShaListChars(commits);
    assert '\n' !in ShaList(commits);
    assert '\n' !in COMMAND_PREFIX && '\n' !in TO_SEPARATOR;
    assert forall i :: 0 <= i < |branch| ==> IsBranchChar(branch[i]);
    assert '\n' !in branch;
  }

}

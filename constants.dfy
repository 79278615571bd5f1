/**
 * The constants of the bot, its two validation regular expressions written
 * out as character predicates, and the shared record types (a backport
 * task, the outcome of a cherry-pick, the change counts of a pull request).
 */
module Constants {
  import opened JsString

  const COMMAND_PREFIX: string := "/backport"
  const TO_SEPARATOR: string := " to "

  const LABEL_BACKPORT: string := "backport-request"
  const LABEL_TO_REVIEW: string := "3. to review"

  const STEP_REVIEW_CONFLICTS: string := "Review and resolve any conflicts"
  const STEP_REMOVE_EMPTY_COMMITS: string := "Remove all the empty commits"
  const STEP_AMEND_SKIP_CI: string := "Amend HEAD commit to remove `[skip ci]` tag"

  /** The warning sign emoji that ends both warnings (U+26A0 U+FE0F). */
  const WARNING_SIGN: string := "\U{26A0}\U{FE0F}"

  const WARN_CONFLICTS: string :=
    "This backport had conflicts that were resolved with the `ours` merge strategy and is likely incomplete "
    + WARNING_SIGN
  const WARN_DIFF: string :=
    "This backport's changes differ from the original and might be incomplete " + WARNING_SIGN

  const LEARN_MORE: string :=
    "\n---\n\nLearn more about backports at https://docs.nextcloud.com/server/stable/go.php?to=developer-backports."

  /** A hexadecimal digit in either case (`[0-9a-f]` under the `i` flag). */
  predicate IsHexDigit(c: char) {
    IsDigit(c) || ('a' <= c <= 'f') || ('A' <= c <= 'F')
  }

  lemma HexDigitIsNotWhitespace(c: char)
    requires IsHexDigit(c)
    ensures !IsWhitespace(c)
  {
  }

  lemma WordCharIsNotWhitespace(c: char)
    requires IsWordChar(c)
    ensures !IsWhitespace(c)
  {
  }

  /** A regular-expression word character, `[A-Za-z0-9_]`. */
  predicate IsWordChar(c: char) {
    IsDigit(c) || ('a' <= c <= 'z') || ('A' <= c <= 'Z') || c == '_'
  }

  /** `[a-z0-9-_./]` under the `i` flag: case folding without the `u` flag
      only relates ASCII letters here. */
  predicate IsBranchChar(c: char) {
    IsWordChar(c) || c == '-' || c == '.' || c == '/'
  }

  /** `COMMIT_REGEX`: 7 to 40 hexadecimal digits and nothing else.  The
      word boundaries always hold because hex digits are word characters. */
  predicate IsCommitSha(s: string) {
    7 <= |s| <= 40 && forall i :: 0 <= i < |s| ==> IsHexDigit(s[i])
  }

  /** `BRANCH_REGEX`: 1 to 100 branch characters; the word boundary after
      `^` and the one before `$` need a word character at either end. */
  predicate IsBranchName(s: string) {
    1 <= |s| <= 100
    && (forall i :: 0 <= i < |s| ==> IsBranchChar(s[i]))
    && IsWordChar(s[0]) && IsWordChar(s[|s| - 1])
  }

  /** One backport request: a target branch and the commits to pick. */
  datatype Task = Task(
    installationId: int,
    owner: string,
    repo: string,
    branch: string,
    commits: seq<string>,
    prNumber: nat,
    prTitle: string,
    commentId: int,
    author: string)

  datatype CherryPickResult = OK | CONFLICTS

  /** The change counts of a pull request. */
  datatype PrChanges = PrChanges(additions: int, deletions: int, changedFiles: int)
}

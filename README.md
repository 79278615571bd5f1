# backportbot — a Dafny model of its request handling

backportbot is a GitHub App for Nextcloud repositories. A collaborator writes
`/backport [sha1 sha2 …] to <branch>` in a comment on a pull request. Once the
pull request is merged, the bot does the following:

1. It cherry-picks the commits onto a new branch `backport/<pr>/<branch>` and
   opens a pull request against `<branch>`.
2. It copies labels, a milestone, reviewers and the assignee from the original.
3. It rewrites the new pull request's body when the backport is doubtful.
4. It comments on the original with manual instructions when something fails.

This project models the decision logic of that bot in Dafny:

- which comments are requests;
- how commits and the branch are parsed out of a command;
- which requests survive duplicates;
- what the cherry-pick loop does with each commit;
- which labels and milestone carry over;
- what the generated texts contain;
- which stages of a backport are fatal.

The model covers the current TypeScript implementation (`src/`) and the
earlier JavaScript implementation (`index.js`, `lib/`). Both are described in
the bot's own terms.

GitHub, git and the file system are not called. Every answer the bot would
receive from them becomes a parameter of the model:

- a cherry-pick attempt's success;
- a `git diff --stat` text;
- the list of reviews, comments or milestones;
- whether an API call threw.

Calls the bot makes for their effect are returned as a sequence of `Call`
values. The model then states, and proves, what those calls are.

Modules:

| module | models |
|---|---|
| `PayloadUtils` | `src/payloadUtils.ts` — commit and branch extraction from a command |
| `GitUtils` | `src/gitUtils.ts` — the cherry-pick loop, `[skip ci]` amend, diff and empty-commit probes |
| `GithubUtils` | `src/githubUtils.ts` — reviewers, backport-request filtering, pull-request fields, commit list |
| `NextcloudUtils` | `src/nextcloudUtils.ts` — version comparison, milestone choice, labels, bodies of the generated texts |
| `Backport` | `src/backport.ts` — the staged backport procedure with fatal and non-fatal steps |
| `IndexHandlers` | `src/index.ts` — the `pull_request.closed` and `issue_comment.created` handlers |
| `LegacyComment` | `lib/comment.js` — the line-anchored, case-insensitive command regex |
| `LegacyBackport` | `lib/backport.js` — milestone lookup by title prefix, label filtering, commit choice |
| `LegacyIndex` | `index.js` — the legacy command handler and the close handler |
| `Constants`, `JsString`, `Seqs`, `Wrappers` | the regex-shaped predicates and constants of `src/constants.ts`; the JavaScript string operations (`split`, `join`, `trim`, `indexOf`, `startsWith`); sequence filtering, `Set` de-duplication and subsequences; Option/Result |

## Model

| member | source | states |
|---|---|---|
| PayloadUtils.ExtractCommitsFromPayload | src/payloadUtils.ts:8-22 | On success, every commit is a valid SHA (7 to 40 hex digits) and the commits are a subsequence of the space-separated tokens of the command's commit chain. On failure, the error is "Failed to extract commits from payload: \`<payload>\`". |
| PayloadUtils.ExtractCommitsOutcome | src/payloadUtils.ts:8-22 | Extraction fails exactly when the chain is non-empty and some non-`!` token is not a SHA. An empty chain gives no commits. Otherwise the result is exactly the non-`!` tokens. |
| PayloadUtils.ExtractBranchFromPayload | src/payloadUtils.ts:24-33 | Succeeds iff the trimmed text after the first " to " of the first line matches the branch pattern, and then returns that text. Otherwise it fails with "Branch name \`…\` is invalid". |
| PayloadUtils.IsFriendly | src/payloadUtils.ts:35-37 | A payload is friendly iff it is some text followed by "please". |
| PayloadUtils.CommitsRoundTrip | src/payloadUtils.ts:8-22 | For valid SHAs and a valid branch, extracting commits from `/backport <shas> to <branch>` gives back exactly those SHAs. |
| PayloadUtils.BranchRoundTrip | src/payloadUtils.ts:24-33 | For valid SHAs and a valid branch, extracting the branch from the formatted command gives back exactly that branch. |
| PayloadUtils.FormatSplit | src/payloadUtils.ts:10 | A formatted command splits on " to " into exactly the command head and the branch, because SHAs and branch names contain no " to ". |
| GitUtils.CherryPickCommits | src/gitUtils.ts:86-149 | The result, the last valid commit and the git calls equal the fold `Replay` over the per-commit attempts. A failing `cherry-pick --abort` makes the whole call fail. When there were conflicts and a commit was applied, the `[skip ci]` amend calls follow. |
| GitUtils.Replay | src/gitUtils.ts:88-122 | After the loop, a failed abort implies there were conflicts. The last valid commit is "" or one of the commits. |
| GitUtils.PickOne | src/gitUtils.ts:92-121 | One iteration of the loop updates the conflict flag, the last valid commit and the git calls exactly as the fold step `PickStep` does. |
| GitUtils.AmendCalls | src/gitUtils.ts:126-146 | At most two calls follow the loop. The log of the last valid commit is read iff there were conflicts and some commit was applied. The amend follows iff that read succeeded with a non-empty body, and it carries that body. |
| GitUtils.ReadAndAmend | src/gitUtils.ts:126-146 | The code after the loop makes exactly the calls `AmendCalls` describes. |
| GitUtils.ReplayStep | src/gitUtils.ts:92-122 | The state after i+1 commits is one loop step applied to the state after i commits. |
| GitUtils.StepAppends | src/gitUtils.ts:92-121 | A step whose aborts succeed appends the plain pick, then the abort and the `ours` pick when the plain pick failed, then an abort when that failed too. It contains exactly one plain pick. |
| GitUtils.FailureIsSticky | src/gitUtils.ts:99-103 | Once an abort has failed, the later commits change nothing: the replay of the whole list equals the replay of the prefix. |
| GitUtils.ConflictsIffPlainPickFailed | src/gitUtils.ts:88-148 | The result is CONFLICTS iff the plain cherry-pick failed for at least one commit. |
| GitUtils.LastValidIsLastApplied | src/gitUtils.ts:89-115 | The last valid commit is the last commit whose plain or `ours` cherry-pick succeeded, or "" when none did. |
| GitUtils.CommitsPickedInOrder | src/gitUtils.ts:92-95 | The plain cherry-pick calls name every commit exactly once, in the order of `task.commits`. |
| GitUtils.OursFollowsAbortedPlainPick | src/gitUtils.ts:99-113 | Every `ours`-strategy cherry-pick comes right after an abort of a plain cherry-pick of the same commit. |
| GitUtils.AmendArgsShape | src/gitUtils.ts:136-140 | The amend call is `commit --amend` followed by one `-m <trimmed line>` pair per line of the original body, then `-m ""` and `-m [skip ci]`. |
| GitUtils.TaggedMessageArgs | src/gitUtils.ts:137-139 | Appending "\n\n" and a one-line tag to a message adds exactly the two `-m` pairs for an empty line and the tag. |
| GitUtils.MessageArgsAt | src/gitUtils.ts:139 | Argument 2i is "-m" and argument 2i+1 is the cleaned i-th line. |
| GitUtils.HasSkipCiCommits | src/gitUtils.ts:157-166 | True iff some commit body contains "[skip ci]". |
| GitUtils.HasDiff | src/gitUtils.ts:168-173 | A diff exists iff `git diff --stat` succeeded with non-empty output. A failing git call passes its error on. |
| GitUtils.HasEmptyCommits | src/gitUtils.ts:175-184 | The probe stops at the first commit whose diff is empty, or at the first failing diff, whose error it passes on. The result is true iff such an empty diff was found. It is false iff all `commits` probes succeeded with a non-empty diff. |
| GithubUtils.ApprovedLogins | src/githubUtils.ts:52-56 | The logins are, in order, those of the approved, non-NONE reviews that have a user. |
| GithubUtils.GetReviewers | src/githubUtils.ts:42-60 | The reviewers are distinct and non-empty, in first-approval order (a subsequence of the approved logins). |
| GithubUtils.ReviewersMembers | src/githubUtils.ts:52-59 | A login is a reviewer iff some approved review by a non-NONE author carries it. |
| GithubUtils.LoginFromReview | src/githubUtils.ts:52-56 | Every approved login comes from an approved review by a non-NONE author that has a user. |
| GithubUtils.ReviewGivesLogin | src/githubUtils.ts:52-56 | Every such review contributes its login. |
| GithubUtils.GetBackportRequestsFromPR | src/githubUtils.ts:205-221 | The result is a subsequence of the comments. It holds exactly the comments whose trimmed body starts with `/backport`, whose author is not NONE, and that have no confused reaction. |
| GithubUtils.RequestsExclude | src/githubUtils.ts:217-220 | A comment by a NONE author, or with a missing or non-zero confused count, is never a request. |
| GithubUtils.BackportPullRequest | src/githubUtils.ts:72-85 | The backport pull request goes from the given head to the task branch, in the task's repository. It is a draft iff there were conflicts, and it allows maintainer edits. Its body is "Backport of PR #" followed by the decimal numeral of the pull-request number, with no leading zero. Its title is "[" + branch + "] " + title. |
| GithubUtils.GetCommitsForPR | src/githubUtils.ts:23-30 | The commit list is the SHAs of the pull request's commits, in order. |
| NextcloudUtils.TitleValues | src/nextcloudUtils.ts:6-15 | One value per dot-separated segment. A segment is its decimal value, or 0 when it is not a number. |
| NextcloudUtils.CompareSemanticVersions | src/nextcloudUtils.ts:4-24 | The loop computes the recursive comparison, and it is antisymmetric. |
| NextcloudUtils.CompareAntisymmetric | src/nextcloudUtils.ts:4-24 | Swapping the operands negates the comparison. |
| NextcloudUtils.CompareZeroIffEqual | src/nextcloudUtils.ts:4-24 | The comparison is 0 iff the segment values are equal. |
| NextcloudUtils.CompareTransitive | src/nextcloudUtils.ts:4-24 | The comparator is transitive, so it is a total preorder that `sort` can use. |
| NextcloudUtils.LongerSortsFirst | src/nextcloudUtils.ts:23 | When one version extends the other, the longer one sorts first. |
| NextcloudUtils.NonNumericSegmentIsZero | src/nextcloudUtils.ts:14-15 | A segment that is not a number counts as 0. |
| NextcloudUtils.NonDigitPrefixLen | src/nextcloudUtils.ts:28 | The length of the maximal non-digit prefix. |
| NextcloudUtils.AsWrittenDotVersion | src/nextcloudUtils.ts:28 | The version pattern as written extracts "." from the branch `feature.x`. |
| NextcloudUtils.ExtractVersion | src/nextcloudUtils.ts:28-31 | A version exists iff the branch has a non-empty non-digit prefix followed by something. The version then starts with a digit, has only digits and dots, and starts the rest of the branch. |
| NextcloudUtils.ExtractVersionAgrees | src/nextcloudUtils.ts:28 | On every branch that contains a digit, the corrected extraction equals the pattern as written. |
| NextcloudUtils.ExtractVersionAsWritten | src/nextcloudUtils.ts:28 | The pattern as written finds a version iff some position after the first character, inside the non-digit prefix or right after it, holds a digit or a dot. The version is then a non-empty run of digits and dots starting at such a position. |
| NextcloudUtils.VersionMatch | src/nextcloudUtils.ts:28 | The backtracking search: no match iff no candidate position holds a digit or dot. A match is the greedy run at the last such position, as `\D+` backtracks from its longest extent. |
| NextcloudUtils.NoDigitNoVersion | src/nextcloudUtils.ts:28-31 | A branch without a digit has no version. |
| NextcloudUtils.FirstMinimal | src/nextcloudUtils.ts:34-35 | The chosen index is the first of the minimal elements, as a stable `sort(...)[0]` picks it. |
| NextcloudUtils.FirstMinimalUnique | src/nextcloudUtils.ts:34-35 | Any first minimal index is the one `FirstMinimal` finds. |
| NextcloudUtils.GetMilestoneFromBase | src/nextcloudUtils.ts:26-36 | It fails with "Could not extract version…" iff the branch has no version. Otherwise it returns a milestone whose title contains the version and that sorts no later than any other such milestone; among equals it is the earliest in the input. It returns none when no title contains the version. |
| NextcloudUtils.MilestoneForVersion | src/nextcloudUtils.ts:29-35 | Without a version it fails with "Could not extract version from branch…". Otherwise it returns none iff no title contains the version. A returned milestone contains the version and sorts no later than any other such milestone. Among equal ones it is the earliest in the input, as a stable sort keeps it. |
| NextcloudUtils.GetMilestoneFromBaseAsWritten | src/nextcloudUtils.ts:26-36 | With the pattern as written, the lookup fails iff that pattern finds no version. When it finds nothing, no title contains the version found. |
| NextcloudUtils.MilestoneAsWrittenAgrees | src/nextcloudUtils.ts:26-36 | On every branch name containing a digit, the lookup as written equals the intended lookup. |
| NextcloudUtils.MilestoneAsWrittenDotBranch | src/nextcloudUtils.ts:26-36 | On `feature.x` the intended lookup fails with the version error. The lookup as written succeeds, returns none iff no title contains a dot, and otherwise returns a milestone whose title contains a dot. |
| NextcloudUtils.DotVersionMilestone | src/nextcloudUtils.ts:32-35 | With "." as the version, the lookup never fails and finds nothing iff no title contains a dot. |
| NextcloudUtils.SelectionFirst | src/nextcloudUtils.ts:32-35 | The milestone picked from the sorted selection is the first, in input order, among the minimal titles. |
| NextcloudUtils.SelectionMinimal | src/nextcloudUtils.ts:32-35 | The minimum of the filtered selection is minimal among all milestones that contain the version. |
| NextcloudUtils.CarriedLabels | src/nextcloudUtils.ts:46-52 | The result keeps exactly the labels that are neither "backport-request" nor a kanban label (digit then dot), in order. |
| NextcloudUtils.GetLabelsForPR | src/nextcloudUtils.ts:38-55 | The labels are distinct and never "backport-request". "3. to review" is included iff the repository has it, and then comes first. Every carried label of the original is included, in original order. |
| NextcloudUtils.LabelsMembers | src/nextcloudUtils.ts:38-55 | Membership: only the review label and carried labels, and every carried label. |
| NextcloudUtils.LabelsOrder | src/nextcloudUtils.ts:38-55 | The order is that of the review label followed by the original labels. |
| NextcloudUtils.ResultsMembers | src/nextcloudUtils.ts:39-52 | Before de-duplication, a label is in the list iff it is "3. to review" and the repository has it, or it is a carried label of the original. |
| NextcloudUtils.ColumnLabelsInResults | src/nextcloudUtils.ts:39-52 | "backport-request" is never in the list. "3. to review" is in it iff the repository has it. |
| NextcloudUtils.GetBackportBody | src/nextcloudUtils.ts:57-94 | The step-by-step construction equals the body built from the expected warning and the de-duplicated steps. |
| NextcloudUtils.CollectSteps | src/nextcloudUtils.ts:61-78 | The pushed steps are, in order: review conflicts for conflicts, again for a changed diff of a full request, remove empty commits, amend `[skip ci]`. The warning is the expected one. |
| NextcloudUtils.AppendSections | src/nextcloudUtils.ts:80-91 | The body is the header, the warning, the Todo section and the footer, in that order. |
| NextcloudUtils.TodoSectionEmpty | src/nextcloudUtils.ts:82-88 | The Todo section is empty iff there are no steps. |
| NextcloudUtils.StepsDedup | src/nextcloudUtils.ts:61-88 | De-duplicating the pushed steps gives the expected distinct steps. There are no steps iff none were pushed. |
| NextcloudUtils.WarningAndTodo | src/nextcloudUtils.ts:61-89 | The diff warning wins iff the diff differs in a full request. There is no warning iff there were neither conflicts nor such a diff. The Todo section exists iff any flag is set, and its steps are distinct. |
| NextcloudUtils.BodyFrame | src/nextcloudUtils.ts:80-91 | The body starts with "Backport of #<number>" and ends with the "Learn more" footer. |
| NextcloudUtils.ShortShas | src/nextcloudUtils.ts:111 | Each short SHA is the first 8 characters of its commit, or the whole commit when it is shorter. |
| NextcloudUtils.GetFailureCommentBody | src/nextcloudUtils.ts:96-120 | The failure comment starts with "The backport to \`<branch>\` failed" and contains `git checkout -b <target>` and the cherry-pick line of short SHAs. It ends with the error, or "Unknown error", followed by the footer. |
| Backport.BackportBranch | src/backport.ts:17 | The backport branch starts with "backport/" and ends with "/<branch>". The digits in between are the decimal numeral of the pull-request number, with no leading zero. |
| Backport.ChosenTitle | src/backport.ts:68-78 | The title changes only for a partial request with exactly one commit, and then becomes that commit's title when it is non-empty. |
| Backport.RunStages | src/backport.ts:29-66 | Clone, cherry-pick, diff check and push run in order and stop at the first fatal failure. The temp dir is remembered only when the clone succeeded. |
| Backport.StagesComplete | src/backport.ts:29-100 | When no stage failed and every stage was attempted, all fatal stages succeeded, and conversely. |
| Backport.OpenStage | src/backport.ts:68-100 | Opening the pull request fails iff reviewers or creation failed. On success the calls are the creation with the chosen title, followed by the follow-up calls. |
| Backport.RequestReviews | src/backport.ts:86-97 | The original reviewers are asked first when there are any. The author is asked last when the first request succeeded or there was none. Every request names the pull request and at least one login. The calls are those of `ReviewRequests`. |
| Backport.LabelUpdate | src/backport.ts:102-112 | Labels are set iff both label listings succeeded, in a single call. The labels are distinct and never "backport-request". "3. to review" is among them iff the repository has it. They include every carried label of the original, and only those and "3. to review". |
| Backport.MilestoneUpdate | src/backport.ts:114-123 | No milestone is set iff the listing failed, the branch has no version, or no title contains it. A set milestone is from the listing, contains the version, and sorts no later than any other such milestone. |
| Backport.FoundMilestoneAsWritten | src/backport.ts:117-118 | On every branch name with a digit, the milestone the pipeline sets is the one the lookup as written (src/nextcloudUtils.ts:28) selects, or none when it selects none or the listing failed. |
| Backport.BodyUpdate | src/backport.ts:134-158 | A body update is requested iff the comparison succeeded and there were conflicts, changed counts, empty commits or `[skip ci]` commits. It is then one update of the new pull request with the body built from exactly those flags. Any comparison failure is swallowed. |
| Backport.FollowUp | src/backport.ts:86-158 | The follow-up calls of a created pull request are the reviews, labels, milestone, assignee and body calls, in that order. |
| Backport.FollowUpOrder | src/backport.ts:86-158 | Every follow-up addresses the new pull request. The calls are ordered by step: at most two review requests, at most one label call, at most one milestone call, the assignment of the author, and at most one body update, which comes last. Each step's calls are exactly that step's own calls. |
| Backport.MilestoneOnlyChangesItsStep | src/backport.ts:114-123 | A different milestone listing changes no step other than the milestone call. |
| Backport.ComparisonOnlyChangesBody | src/backport.ts:134-158 | A different comparison answer changes no step other than the body update. |
| Backport.DiffChanges | src/backport.ts:138-140 | The counts differ iff the additions, deletions and changed files are not all equal. |
| Backport.Backport | src/backport.ts:10-187 | The attempted stages are a prefix of the stage list, and all but the last succeeded. The backport succeeds iff every fatal stage succeeds. On failure the error is "Failed to backport: <stage error>" and the only call is the failure comment. On success the calls are the creation and the follow-ups. The temp dir is removed iff it was created and still exists. |
| Backport.EarlyFailureOutcome | src/backport.ts:29-175 | A fatal failure before the pull request is opened ends the backport with "Failed to backport: <error>" and the failure comment only. |
| Backport.OpenFailureOutcome | src/backport.ts:80-175 | A failure to open the pull request ends the backport with that error and the failure comment, which uses the chosen title. |
| Backport.OpenSuccessOutcome | src/backport.ts:80-158 | After four successful stages and a successful creation, the backport succeeds with the creation followed by the follow-up calls. |
| Backport.AllFourStages | src/backport.ts:29-100 | Four successful stages followed by the outcome of opening the pull request give a run through all five stages. |
| Backport.FailureCommentIgnoresTitle | src/backport.ts:166 | The failure comment does not depend on the pull request title. |
| IndexHandlers.TaskTitle | src/index.ts:34 | The task title is the pull request's title, or "Backport of PR #<number>" when that is empty. |
| IndexHandlers.IsFullRequest | src/index.ts:80 | A request is full iff its trimmed body is "/backport to " followed by something. |
| IndexHandlers.RequestTask | src/index.ts:59-92 | A comment yields a task iff both its commits and its branch parse (and, for a full request, the commit list was fetched). The task carries the parsed branch, the listed commits (or all commits for a full request), the comment id, and the pull request's number, author and title. |
| IndexHandlers.ParseAllIndex | src/index.ts:59-92 | Parsing all comments parses each comment on its own. |
| IndexHandlers.Admit | src/index.ts:75-100 | The admitted tasks are at most as many as the requests. There are none iff no request yields a task. |
| IndexHandlers.AdmitDistinctBranches | src/index.ts:75-100 | The admitted tasks target pairwise distinct branches. |
| IndexHandlers.AdmitComplete | src/index.ts:75-100 | Every branch that some request parses to is admitted. |
| IndexHandlers.AdmitFromFirstRequest | src/index.ts:75-100 | Each admitted task is the first parsed request for its branch. |
| IndexHandlers.LastRequestWins | src/index.ts:44-105 | Over the reversed comment list, each task comes from the last request for its branch, every requested branch is covered, and branches are distinct. |
| IndexHandlers.ClosedTasksFromLastRequests | src/index.ts:44-105 | The same three properties for the tasks the closed handler collects from the request comments. |
| IndexHandlers.AdmitStep | src/index.ts:75-101 | One loop iteration appends the comment's task exactly when it parses to a branch not yet processed. |
| IndexHandlers.ProcessRequest | src/index.ts:60-104 | A comment is turned into a task iff it parses and its branch is not yet processed. |
| IndexHandlers.CollectTasks | src/index.ts:57-105 | The loop's tasks equal the admitted tasks of the parsed requests. |
| IndexHandlers.HandleClosed | src/index.ts:19-124 | Nothing happens for other owners or unmerged pull requests. Otherwise the tasks are those admitted from the reversed request list. The label is removed iff there were requests and no task was rejected. |
| IndexHandlers.HandleComment | src/index.ts:126-258 | Each outcome is stated iff its condition holds: ignored, rejected as unmerged, unparsable, failed, waiting or queued. A queued or waiting task carries the parsed branch and commits. A partial request without commits fails with "No commits found in payload". The label is removed iff the queued backport succeeded. |
| IndexHandlers.WaitingRequestAdmittedOnClose | src/index.ts:59-209 | A request that waits for the merge is parsed to the same task when the pull request is later closed. |
| LegacyComment.Lines | lib/comment.js:4 | Splitting at line terminators gives at least one line, none containing a terminator. |
| LegacyComment.SingleLine | lib/comment.js:4 | Text without line terminators is one line. |
| LegacyComment.CommitRunLen | lib/comment.js:4 | The maximal run of `[a-f0-9,]` characters at the start. |
| LegacyComment.MatchLine | lib/comment.js:4-8 | A matching line starts with "/backport " ignoring case. |
| LegacyComment.Match | lib/comment.js:2-20 | A comment matches iff one of its lines matches. The target is that of the first matching line. |
| LegacyComment.CommitListHex | lib/comment.js:14-18 | Every kept commit is hex and at least 7 characters long. |
| LegacyComment.FirstMatchNone | lib/comment.js:4-8 | No match iff no line matches. |
| LegacyComment.FirstMatchIndex | lib/comment.js:4-5 | A match is the target of the first matching line. |
| LegacyComment.FirstMatchShape | lib/comment.js:4-8 | Both facts for any list of lines: no match iff no line matches, and a match comes from the first matching line. |
| LegacyComment.MatchRestValid | lib/comment.js:4-19 | A parsed command has a valid branch and valid commits. |
| LegacyComment.MatchValid | lib/comment.js:2-20 | A matched target has a non-empty branch of word characters, '-' and '.', and commits of at least 7 hex digits. |
| LegacyComment.MatchOneLine | lib/comment.js:4 | For a one-line comment, the match is that of the line. |
| LegacyComment.CommandLine | lib/comment.js:4 | "/backport " followed by one line is one line starting with the command. |
| LegacyComment.NoCommitGroup | lib/comment.js:4-18 | "/backport to <branch>" matches with that branch and no commits. |
| LegacyComment.CommitListJoin | lib/comment.js:14-18 | Splitting comma-joined valid commits and filtering gives them back. |
| LegacyComment.RestRoundTrip | lib/comment.js:4-18 | The text after the command, "<c1,c2,…> to <branch>", parses back to the same commits and branch. |
| LegacyComment.GroupThenTarget | lib/comment.js:4 | A commit group followed by " to " and a branch name parses to that branch and that group's commits. |
| LegacyComment.MatchRoundTrip | lib/comment.js:2-20 | "/backport <c1,c2,…> to <branch>" matches with exactly those commits and that branch. |
| LegacyComment.RunOfList | lib/comment.js:4 | The commit run of a commit list followed by a space is the whole list. |
| LegacyBackport.StripNonDigits | lib/backport.js:9-17 | Removes the maximal non-digit prefix: the result is a suffix that starts with a digit or is empty. |
| LegacyBackport.LexLessIrreflexive | lib/backport.js:24 | The string order used for titles is irreflexive. |
| LegacyBackport.LexLessTransitive | lib/backport.js:24 | The string order used for titles is transitive. |
| LegacyBackport.LexLessTotal | lib/backport.js:24 | Any two distinct strings are ordered. |
| LegacyBackport.GetMilestoneIdForTarget | lib/backport.js:6-32 | The loop computes the scan of the milestones for the stripped target. |
| LegacyBackport.ScanStep | lib/backport.js:20-29 | A milestone whose stripped title does not start with the target keeps the pick. Otherwise the pick becomes that milestone when nothing was picked yet or its stripped title is strictly smaller, and stays unchanged otherwise. |
| LegacyBackport.Scan | lib/backport.js:11-31 | The pick is the initial "none" or a qualifying milestone of the list, with its stripped title. |
| LegacyBackport.ScanOneMore | lib/backport.js:20-29 | The scan of one more milestone is one loop step after the scan of the prefix. |
| LegacyBackport.PrefixZeroIffNone | lib/backport.js:11-31 | After any prefix, the id is 0 iff no milestone of the prefix qualifies. |
| LegacyBackport.StepKeepsSmallest | lib/backport.js:20-29 | One step keeps the pick equal to the first smallest qualifying milestone so far. |
| LegacyBackport.ScanFindsSmallestAmong | lib/backport.js:6-32 | After any prefix, a non-zero pick is the first smallest qualifying milestone of that prefix. |
| LegacyBackport.NoQualifyingMilestone | lib/backport.js:20-31 | When no stripped title starts with the stripped target, the id is 0. |
| LegacyBackport.ScanZeroIffNone | lib/backport.js:11-31 | The id is 0 iff no milestone qualifies. |
| LegacyBackport.FirstQualifying | lib/backport.js:24-28 | The first qualifying milestone is the first smallest so far. |
| LegacyBackport.KeepPick | lib/backport.js:24-28 | A milestone that is not strictly smaller keeps the pick. |
| LegacyBackport.ReplacePick | lib/backport.js:24-28 | A strictly smaller stripped title replaces the pick. |
| LegacyBackport.ScanFindsFirstSmallest | lib/backport.js:6-32 | A non-zero id is that of the first qualifying milestone with the smallest stripped title. |
| LegacyBackport.LegacyLabels | lib/backport.js:42-54 | The loop keeps exactly the labels that are neither "backport-request" nor a kanban label, in order. |
| LegacyBackport.LegacyLabelsAgree | lib/backport.js:42-54 | The legacy label filter keeps the same labels as the current implementation's filter. |
| LegacyBackport.CommitsToPick | lib/backport.js:66 | The commits are the listed ones when there are any, and otherwise the commits of the pull request. The result is empty iff both are. |
| LegacyBackport.BranchOnlyPicksAll | lib/backport.js:66 | A command without commits backports all of the pull request's commits. |
| LegacyBackport.ListedCommitsPicked | lib/backport.js:66 | A command with commits backports exactly those commits. |
| LegacyIndex.CommandDecision | index.js:10-57 | Each outcome iff its condition: not a pull request, invalid target, closed unmerged, awaiting merge, backported. The target is the parsed one. With the corrected call, a backport removes the label iff the run succeeds with true, reacts confused iff it succeeds with false, and is rejected iff the run rejects. |
| LegacyIndex.LegacyRun | lib/backport.js:34 | A run whose third argument is not a list rejects with "targets is not iterable". With a list, the answer is that of the run for those targets. |
| LegacyIndex.RunAsWritten | index.js:50 | The call as written, with the targets as `id` and the logger as `targets`, always rejects. |
| LegacyIndex.RunCorrected | index.js:50 | The call with the pull-request number and the targets answers as the run does for those targets. |
| LegacyIndex.CommandEnd | index.js:50-56 | The command handler removes the label iff the run succeeds with true. It reacts confused iff the run succeeds with false. It is rejected iff the run rejects. |
| LegacyIndex.ClosedEnd | index.js:96-100 | The closing handler removes the label iff the run succeeds with true. It keeps the label iff the run succeeds with false. It is rejected iff the run rejects. |
| LegacyIndex.CommandDecisionAsWritten | index.js:10-57 | With the call as written, a merged pull request with a valid target always ends rejected. The handler reaches that point iff the issue is a pull request, the target parses and the pull request is merged. |
| LegacyIndex.RunArgumentsSwapped | index.js:50 | When the run would succeed, the call as written ends rejected while the corrected call removes the label. |
| LegacyIndex.HandleCommandAsWritten | index.js:10-57 | Any accepted target is valid. |
| LegacyIndex.ToBranchArgumentsRejected | index.js:23 | As written, the arguments "to <branch>" of a valid command are rejected as an invalid target. |
| LegacyIndex.HandleCommand | index.js:10-57 | Any accepted target is valid. |
| LegacyIndex.BranchCommandAccepted | index.js:23-56 | "to <branch>" backports that branch when merged and waits when open. |
| LegacyIndex.ListedCommandAccepted | index.js:23-56 | "<c1,…> to <branch>" on a merged pull request backports those commits to that branch. |
| LegacyIndex.IndexOfBranch | index.js:84 | The index of the target for a branch, or none when no target has it. |
| LegacyIndex.MatchAll | index.js:82 | One parse per comment, in order. |
| LegacyIndex.Targets | index.js:80-89 | There are at most as many targets as comments. There are none iff no comment matches. |
| LegacyIndex.Acknowledged | index.js:81-86 | At most one acknowledgement per comment. |
| LegacyIndex.AcknowledgedFromMatch | index.js:81-86 | Every acknowledged id is that of a matching comment. |
| LegacyIndex.MatchAcknowledged | index.js:81-86 | Every matching comment is acknowledged. |
| LegacyIndex.AcknowledgedAsWritten | index.js:81-86 | As written, each matching comment's `+1` goes to an undefined comment id: one per matching comment, all undefined. |
| LegacyIndex.UndefinedCommentId | index.js:81 | A command comment with id 42 should be acknowledged as 42, but as written its `+1` goes to an undefined id. |
| LegacyIndex.AssignShape | index.js:84 | Assigning a target replaces the one with the same branch in place, or appends it. |
| LegacyIndex.TargetsDistinct | index.js:80-89 | Collected targets have pairwise distinct branches. |
| LegacyIndex.TargetsComplete | index.js:80-89 | Every branch that some comment matches is collected. |
| LegacyIndex.TargetsFromLastMention | index.js:80-89 | Each collected target is the last one mentioned for its branch. |
| LegacyIndex.FirstMention | index.js:80-89 | The index of the first comment that mentions a branch. |
| LegacyIndex.TargetsInFirstMentionOrder | index.js:80-91 | Targets appear in the order in which their branches were first mentioned. |
| LegacyIndex.CollectTargets | index.js:80-89 | The loop's targets and acknowledged comments equal the collected targets and the matching comments. |
| LegacyIndex.HandleClosed | index.js:60-101 | Each outcome iff its condition: invalid pull request, not merged, nothing to backport. A backport run uses the collected targets and acknowledges the matching comments by their ids. With the corrected call, the label is removed iff the run succeeds with true, kept iff it succeeds with false, and the handler is rejected iff the run rejects. |
| LegacyIndex.ClosedRunAsWrittenRejects | index.js:96 | The closing handler's call as written rejects, whatever the targets. |

## Left out

- GitHub and git I/O, the job queue, the webhook server, authentication and logging are not modelled. Their answers are parameters and their calls are returned as values.
- Reactions (`+1`, `-1`, `eyes`, `confused`, `hooray`) are not emitted as calls. Two exceptions: the legacy command handler's confused reaction after an unsuccessful run is part of its outcome (`LegacyIndex.CommandEnd`), and the legacy closing handler's `+1` targets are modelled as the acknowledged comment ids. Where reactions decide something (the confused-reaction filter), they are inputs.
- `cloneAndCacheRepo`, `pushBranch` and `setGlobalGitConfig` (src/gitUtils.ts:8-84,151-155) are modelled only by their success or error message.
- Backport.Backport: `getCommitTitle` is imported by src/backport.ts:4 but is not defined in src/gitUtils.ts, so it is not part of this model. Its answer is a string parameter, and an empty answer keeps the title. A rejection of that call would reach the outer catch of src/backport.ts:162 and fail the backport; the model does not include that path.
- Backport.MilestoneUpdate: the milestone step (and so Backport.FollowUp and Backport.Backport) uses the corrected lookup `NextcloudUtils.GetMilestoneFromBase`, not the regex as written at src/nextcloudUtils.ts:28. On a branch name without any digit but with a dot, such as `feature.x`, the source selects a milestone whose title contains a dot (see `NextcloudUtils.MilestoneAsWrittenDotBranch`), while the model sets none. On every branch name with a digit the two agree (`Backport.FoundMilestoneAsWritten`).
- Backport.Backport: the failure comment and the amend call are recorded by their arguments. Their texts are proved about separately.
- The unary `+` and `Number()` conversion of version segments: the model counts only decimal digit strings (after trimming) and gives 0 for anything else. Hex, exponent and sign forms are not modelled. The source converts a segment to an IEEE double, so digit strings above 2^53 lose precision: `+"9007199254740993"` equals `+"9007199254740992"`, and the source compares those two segments as equal, while the model's unbounded values tell them apart.
- LegacyBackport.LexLess: compares code points, while JavaScript compares UTF-16 code units. The two agree on the Basic Multilingual Plane.
- NextcloudUtils.FirstMinimal: assumes a stable `sort` (as required since ES2019).
- `isFullRequest` in src/backport.ts and src/nextcloudUtils.ts is never set on a Task. The model takes it as an explicit parameter.
- Git error texts are opaque strings.
- lib/git.js and the legacy per-target loop of lib/backport.js:60-97 (pull request creation, labels, milestone, success and failure comments, review requests) are not part of this model. Only the milestone choice, label filtering and commit choice are modelled.
- lib/pr.js defines only `isMerged`. `getNumber`, `isClosed`, `addLabels`, `removeBackportRequestLabel`, `getPR`, and the `minusOne`/`eyes`/`confused` helpers of lib/comment.js are not part of this model. Their answers are parameters.
- probot-commands is not part of this model: `command.arguments` is an input.
- LegacyIndex.Targets: `Object.values` lists integer-like keys first in ascending order; the model keeps insertion order for every branch name. A branch named `__proto__` would set the object's prototype at index.js:84 instead of adding a target, so `Object.values` would not list it; the model treats it as any other branch.
- LegacyIndex.HandleClosed: comment bodies are strings. A comment whose body is `null` is not modelled separately: `exec(null)` searches the text "null", which never matches, so it is skipped like any non-matching comment.
- LegacyBackport.ScanZeroIffNone and LegacyBackport.ScanFindsFirstSmallest require non-zero milestone numbers, as GitHub numbers milestones from 1.
- IndexHandlers.RequestTask: every full request of one pull request is given the same answer of the commit listing. src/index.ts:80-83 lists the commits once per full request, so two such calls could answer differently.
- LegacyIndex.CollectTargets: acknowledges each matching comment by its id, which is what index.js:81-86 intends. As written, the destructured `commentId` is undefined; that version is `LegacyIndex.AcknowledgedAsWritten` (see Findings).
- LegacyIndex.HandleCommand and LegacyIndex.HandleClosed: use the corrected call into lib/backport.js. The calls as written at index.js:50 and index.js:96 always reject; that version is `LegacyIndex.RunAsWritten` (see Findings).
- The owner allow-list (nextcloud, skjnldsv) is modelled as a predicate. No other repository settings are modelled.

## Findings

| source | as written | input that shows it | evidently intended | confidence | as-written member | corrected member |
|---|---|---|---|---|---|---|
| src/nextcloudUtils.ts:28 | `/^\D+([\d.]+)/` backtracks into the non-digit prefix, so a branch without any digit but with a dot yields the version "." | branch `feature.x`: version ".", so every dotted milestone title qualifies | a version starts with a digit; a branch without a digit has no version and is reported as an error | not executed | NextcloudUtils.AsWrittenDotVersion | NextcloudUtils.ExtractVersion |
| index.js:23 | `comment.match(command.arguments)` runs the `^/backport …` pattern on the arguments, which no longer start with "/backport " | comment `/backport to stable19`, whose arguments are `to stable19`: outcome InvalidTarget | the command line is matched with its "/backport " prefix, so the target `stable19` is accepted | not executed; assumes probot-commands passes the text after the command name | LegacyIndex.ToBranchArgumentsRejected | LegacyIndex.BranchCommandAccepted |
| index.js:50 | `backport(context, [target], logger)` passes the targets as `id` and the logger as `targets`, while lib/backport.js:34 takes `(context, id, targets)` | a merged pull request, the comment `/backport to stable19`, and a run that would succeed: the loop over the logger throws, so the outcome is rejected and the label stays | `backport(context, issueId, [target])`, so a successful run removes the label | not executed | LegacyIndex.CommandDecisionAsWritten | LegacyIndex.CommandDecision |
| index.js:96 | `backport(context, Object.values(targets), logger)` has the same swapped arguments | a merged pull request with one comment `/backport to stable19` and a run that would succeed: the run rejects | `backport(context, issueId, Object.values(targets))` | not executed | LegacyIndex.RunAsWritten | LegacyIndex.RunCorrected |
| index.js:81 | `for (const { body, commentId } of comments.data)` reads a field comments do not have, so `commentId` is undefined | a comment with id 42 and body `/backport to stable19`: the `+1` goes to an undefined id instead of 42 | destructure `id` and react on that comment | not executed | LegacyIndex.AcknowledgedAsWritten | LegacyIndex.Acknowledged |

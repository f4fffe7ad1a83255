# release — a Dafny model of the release tool's core

`release` is a small command-line tool that drives `git` and the GitHub CLI
(`gh`). It has two commands:

- `release <patch|minor|major>` brings every remote trunk branch up to date
  (`develop`, `main`, `master`). It then bumps the version in `package.json`,
  opens a section for the new version in `CHANGELOG.md`, and cuts a
  `release/v<version>` branch. When `main` or `master` is among the trunks, it
  merges that production branch into the release branch. Last, it commits the
  two files.
- `pr [reviewers..]` runs from a release branch. It opens one pull request per
  remote trunk branch, one `gh pr create` after another.

The model covers the parts of `src/utils.ts`, `src/cmd/pr.ts` and
`src/cmd/release.ts` that decide behaviour:

- how the branch listing is read and filtered down to trunks;
- how the repository name is extracted from the remote URL;
- the release-branch guard and the reviewer flags;
- the next-version rule and the changelog rewrite;
- the choice of the production branch;
- the exact, ordered commands both handlers issue, and what happens when one
  of them fails.

Modules, one file each:

| file | module | what it holds |
|---|---|---|
| `wrappers.dfy` | `Wrappers` | `Option` and `Result` |
| `text.dfy` | `Text` | JavaScript `indexOf`, `split` and `replace` (first occurrence, with the `$` substitution patterns), on `seq<char>` |
| `workspace.dfy` | `Workspace` | the manifest's JSON values, commands, errors; the semantics of awaiting commands one after another (`Run`, `RunResult`); the class `Repo` whose `log`, `manifest` and `changelog` fields the handlers update |
| `utils.dfy` | `Utils` | `getBranches`, `getMainBranches`, `getCurrentBranch`, `getRepoName` |
| `semver.dfy` | `SemVer` | `semver.inc` on plain `X.Y.Z` versions |
| `pr.dfy` | `Pr` | the `pr` command |
| `release.dfy` | `Release` | the `release` command |

Processes are not run. Each `exec` appends its command to `Repo.log`. Whether
the process exits with status 0 comes from a parameter
`ok: (nat, Command) -> bool`, keyed by the command's position in the log, so
two identical `git pull`s can behave differently. A non-zero exit rejects the
awaited promise, so nothing after it starts; `Run` and `RunResult` state
exactly this.

Both handlers are methods that change a `Repo` step by step, in the order of
the source.

- The `pr` handler's postcondition states its new log through `Run` over
  `PrPlan`, the invocations its chain issues.
- The `release` handler is also modelled as functions on a `Snapshot` of the
  repository (`PublishRun`, `ReleaseRun`, `HandlerRun`). Each of its methods'
  postconditions ties the new state and the outcome to the matching function
  applied to the old state. Lemmas about those functions state the
  properties.

The outputs of the `git` queries, today's date, the manifest and the changelog
text are parameters or fields.

Behaviour of the code worth knowing, which the model follows:

- A manifest version that is not a valid semantic version is not an error.
  `semver.inc` returns `null`, the manifest's `version` becomes `null`, and the
  branch name, commit message and changelog heading all read `vnull`.
- A changelog without `## [Unreleased]` is not an error. `replace` finds
  nothing and the text is written back unchanged.
- The new section does not go above the marker. The marker stays where it
  was, followed by the five empty subsections and the new version's heading.
  Everything that followed the marker now follows that heading.
- The number of markers is kept, not forced to one: with two markers, both
  remain and only the first is rewritten.
- The trunk list is not deduplicated. Two listing lines that name the same
  trunk give two entries, two syncs and two pull requests.
- The organisation in the repository-name pattern is the literal
  `labforward/`.

## Model

| member | source | states |
|---|---|---|
| Text.IndexOf | src/cmd/release.ts:60-61 | the result is the first position at or after `from` where the pattern occurs, or none when it occurs nowhere there |
| Text.Split | src/utils.ts:24 | `split` on one separator gives at least one piece, no piece holds the separator, and joining the pieces gives the text back |
| Text.SplitCount | src/utils.ts:24 | `split('\n')` yields one piece more than there are newlines |
| Text.SplitJoin | src/utils.ts:24 | splitting a join of separator-free pieces gives exactly those pieces |
| Text.OccurrencesZero | src/cmd/release.ts:60-61 | the marker occurs nowhere exactly when `indexOf` finds nothing |
| Text.Substitute | src/cmd/release.ts:62-74 | a replacement without `$` is inserted as written |
| Text.ReplaceFirst | src/cmd/release.ts:60-75 | without an occurrence the text is unchanged; otherwise only the first occurrence is replaced, with the substituted replacement, and the text around it is kept |
| Text.ReplaceFirstLeading | src/cmd/release.ts:60-75 | a `$`-free replacement that starts with the pattern is spliced in at the first occurrence, which stays the first occurrence |
| Text.SharedPrefixCount | src/cmd/release.ts:60-75 | occurrences that start inside a prefix depend only on the prefix and the next `|pattern| - 1` characters |
| Workspace.SucceedsEach | src/cmd/release.ts:31-39 | a sequence of commands succeeds exactly when each command exits with 0 at its own log position |
| Workspace.RunResult | src/cmd/release.ts:31-39 | no contract of its own; how an awaited chain settles: success when every command exits with 0, otherwise the rejection of the first that does not. Its properties are stated by `RunResultAppend`, `RunFailsWithin` and `RunNext` |
| Workspace.Run | src/cmd/release.ts:31-39 | when every command succeeds, all of them are started |
| Workspace.RunStopsAtFirstFailure | src/cmd/release.ts:31-39 | when the `k`-th command is the first to fail, exactly the commands up to and including it are started, and the run does not succeed |
| Workspace.RunAppend | src/cmd/release.ts:85-94 | awaiting `a` then `b` starts `b` only when all of `a` succeeded |
| Workspace.SucceedsAppend | src/cmd/release.ts:85-94 | `a + b` succeeds exactly when `a` succeeds and then `b` succeeds from where it starts |
| Workspace.RunResultAppend | src/cmd/release.ts:85-94 | `a + b` settles as `b` when `a` succeeds, and as `a` otherwise |
| Workspace.RunFailsWithin | src/cmd/release.ts:31-39 | when a middle part fails after a clean prefix, nothing after it starts and the whole run settles as that part |
| Workspace.PlanStage | src/cmd/pr.ts:50-52 | one stage of a plan that has run cleanly so far either extends the clean prefix or ends the plan, which then settles as that stage |
| Workspace.RunExtends | src/cmd/release.ts:31-94 | a log extended by a run keeps what it held, and a failed run ends with the command that failed |
| Workspace.RunNext | src/cmd/release.ts:85-94 | the next command of a plan after a clean prefix: success extends the prefix; failure ends the run of the whole plan with that command |
| Workspace.RunAfter | src/cmd/release.ts:29-94 | a run of `b` appended after a clean run of `a` is the run of `a + b`, and it settles as `b` |
| Workspace.Repo.Exec | src/utils.ts:5-15 | `exec` appends the command to the log and reports whether it exited with 0 at that position |
| Workspace.Truthy | src/cmd/release.ts:44 | no contract of its own; the JavaScript truthiness of a JSON value, the test of `?:`. `NextVersionCases` states what each side of the test gives |
| Utils.LeadingSpaces | src/utils.ts:24 | the count covers exactly the leading spaces |
| Utils.MarkerPrefix | src/utils.ts:24 | no contract of its own; the prefixes `/^\*? +/` matches, written independently of `StripMarker`, which `StripMarker`'s contract is stated against |
| Utils.StripMarker | src/utils.ts:24 | the result is a suffix of the line. Either the line is kept whole or the removed prefix matches `\*? +`, and no longer prefix matches (a line without a leading space, such as `*main`, is kept whole) |
| Utils.StripAll | src/utils.ts:24 | one stripped entry per line, in order |
| Utils.GetBranches | src/utils.ts:17-25 | missing or empty output is the error `NoBranches`; otherwise there is one entry per line, that is, one more than the number of newlines |
| Utils.BranchesOfLines | src/utils.ts:24 | a listing made of lines gives back exactly those lines, in order, each stripped |
| Utils.MatchTrunk | src/utils.ts:3 | a captured name is one of `develop`, `main`, `master`, and the line ends with `remotes/origin/` and that name |
| Utils.TrunkMatchAt | src/utils.ts:3 | no contract of its own; a match of `remotes/origin/` then `develop`, `main` or `master` at the end of the line, starting at a position, written independently of `MatchTrunk`; `MatchTrunkCaptures`, `MatchTrunkNone` and `MatchIndicesComplete` are stated against it |
| Utils.MatchTrunkCaptures | src/utils.ts:3 | whenever the anchored expression matches with some capture, that capture is what `MatchTrunk` reports |
| Utils.MatchTrunkNone | src/utils.ts:3 | `MatchTrunk` reports nothing exactly when the expression matches nowhere in the line |
| Utils.MainBranches | src/utils.ts:30-36 | the fold keeps at most one entry per line, and every entry is a trunk name |
| Utils.MatchIndices | src/utils.ts:30-36 | every listed index is a line the expression matches |
| Utils.MatchIndicesIncrease | src/utils.ts:30-36 | the matching indices come in listing order |
| Utils.MatchIndicesComplete | src/utils.ts:30-36 | every matching line's index is listed |
| Utils.MainBranchesAreMatches | src/utils.ts:30-36 | the trunk list holds the captured names of exactly the matching lines, one per line, in listing order, with no deduplication |
| Utils.MainBranchesEmpty | src/utils.ts:30-36 | the trunk list is empty, which is not an error, exactly when no line matches |
| Utils.MainBranchesAppend | src/utils.ts:30-36 | the fold over a concatenated listing is the concatenation of the folds |
| Utils.GetMainBranches | src/utils.ts:27-37 | `getMainBranches` fails exactly when `getBranches` does, with `NoBranches`, and otherwise returns only trunk names |
| Utils.GetCurrentBranch | src/utils.ts:39-50 | missing or empty output is the error `NoCurrentBranch`; otherwise the output is returned as it is |
| Utils.LineEnd | src/utils.ts:58 | the first line terminator at or after a position, or the end of the text |
| Utils.LastOccurrence | src/utils.ts:58 | the last position within a window where `.git` occurs |
| Utils.RepoMatchesAt | src/utils.ts:58 | from a `labforward/` at `i`, the longest match ends at the last `.git` before the line ends; without `labforward/` at `i`, or without such a `.git`, no match starts at `i` |
| Utils.RepoMatch | src/utils.ts:58 | no contract of its own; a match of `labforward\/(.*)\.git` spanning a window, with no line terminator in the group, written independently of the scan; `RepoMatchesAt` and `FindRepoMatch` are stated against it |
| Utils.ChosenMatch | src/utils.ts:58 | no contract of its own; the match a backtracking engine reports: the leftmost start, then the longest group. `RepoName`'s contract returns its group |
| Utils.FindRepoMatch | src/utils.ts:58 | the scan reports the leftmost match and, for it, the longest group; when it reports nothing, no match exists |
| Utils.RepoName | src/utils.ts:52-65 | `getRepoName` fails with the raw output when it is missing, when nothing matches or when the group is empty; otherwise it returns the group of the leftmost, longest match |
| Utils.RepoNameOf | src/utils.ts:58-64 | a URL whose first `labforward/` is followed by a name and a final `.git` on the same line yields that name, or the error when the name is empty |
| Utils.RepoNameWidgets | src/utils.ts:58-64 | `git@github.com:labforward/widgets.git` gives `widgets` |
| Utils.RepoNameGreedy | src/utils.ts:58-64 | the group is greedy: `labforward/a.git.git` gives `a.git` |
| Utils.RepoNameEmptyGroup | src/utils.ts:60-62 | `labforward/.git` is an error |
| Utils.RepoNameOutsideOrg | src/utils.ts:60-62 | a URL in which `labforward/` occurs nowhere is an error |
| SemVer.NatToString | src/cmd/release.ts:45 | a number is written as a canonical decimal numeral |
| SemVer.ValueOfNatToString | src/cmd/release.ts:45 | the numeral written for `n` reads back as `n` |
| SemVer.FormatThenParse | src/cmd/release.ts:45 | every version reads back from its text |
| SemVer.ParseThenFormat | src/cmd/release.ts:45 | a text that reads as a version is exactly that version's text |
| SemVer.Bump | src/cmd/release.ts:45 | the bumped version is greater and has zeros right of the bumped component, and it is the least version with both properties |
| SemVer.IncParses | src/cmd/release.ts:45 | `inc` gives a version exactly when its input is one; the result reads as the bump, which is greater |
| SemVer.Inc | src/cmd/release.ts:45 | no contract of its own; `semver.inc` on plain versions, `None` for `null`. `IncParses`, `IncExamples` and `IncRejects` state what it gives |
| SemVer.FormatDigitsAndDots | src/cmd/release.ts:45 | a version's text holds only digits and dots |
| SemVer.IncExamples | src/cmd/release.ts:45 | `1.2.3` becomes `1.2.4`, `1.3.0` and `2.0.0` |
| SemVer.IncRejects | src/cmd/release.ts:45 | `1.2` is not a version, so `inc` gives `null` |
| SemVer.ParseEmpty | src/cmd/release.ts:44-45 | the empty string is not a version |
| Pr.ReleaseBranchExamples | src/cmd/pr.ts:13 | `release/v2.0.0` passes the guard; `feature/x`, `main` and `release/x` do not |
| Pr.IsReleaseBranch | src/cmd/pr.ts:13 | no contract of its own; `RELEASE_RE`: the prefix `release/v`, then the rest of one line. `ReleaseBranchExamples` checks it, and `Pr.Handler` stops with `NotReleaseBranch` when it fails (src/cmd/pr.ts:36-37) |
| Pr.ReviewerFlags | src/cmd/pr.ts:42-44 | the expansion has length `2n`, position `2i` is `--reviewer` and position `2i+1` is the `i`-th reviewer, in order |
| Pr.Targets | src/cmd/pr.ts:49 | one entry per line, each the capture of that line |
| Pr.Creates | src/cmd/pr.ts:57-70 | one `gh pr create` per base, in order, each against its base |
| Pr.PrCreate | src/cmd/pr.ts:57-70 | no contract of its own; the `gh pr create` invocation with its title, body, `--base` and reviewer flags. `PrExample` shows it in use, and `PrPlanBases` states its base |
| Pr.PrStep | src/cmd/pr.ts:52-73 | no contract of its own; one callback of the chain: an invocation for a trunk line, nothing otherwise. `PrStepLemma` and `OpenFor` state its effect |
| Pr.PrPlan | src/cmd/pr.ts:48-75 | no contract of its own; the invocations of the chain when each succeeds. `PrPlanCreates`, `PrPlanBases` and `PrPlanFirst` state its properties |
| Pr.PrPlanFirst | src/cmd/pr.ts:48-75 | the first line contributes an invocation exactly when it names a trunk, and that trunk heads the trunk list |
| Pr.PrPlanCreates | src/cmd/pr.ts:48-75 | the invocations of the chain are one `gh pr create` per entry of `getMainBranches` on the same listing, in order |
| Pr.PrPlanBases | src/cmd/pr.ts:12 | the `--base` of the `k`-th invocation is the `k`-th trunk that `getMainBranches` returns, and there are as many invocations as trunks |
| Pr.PrStepLemma | src/cmd/pr.ts:50-53 | one match of the chain: a non-trunk line adds nothing, a trunk line's invocation extends the clean prefix or ends the run |
| Pr.OpenFor | src/cmd/pr.ts:52-73 | for a trunk, exactly the `gh pr create` invocation is started, and the outcome reports its exit; for any other line nothing starts |
| Pr.OpenPullRequests | src/cmd/pr.ts:48-75 | the log gains the run of the whole chain, awaited in order; the outcome is success exactly when every invocation succeeds, and a failure names the last command started |
| Pr.Handler | src/cmd/pr.ts:31-76 | no current branch, a branch that is not a release branch, or no listing each end with their error and no command started; otherwise the log gains the run of the invocations, the outcome is success exactly when each succeeds, and a failure is `CommandFailed` of the last command started |
| Pr.PrExample | src/cmd/pr.ts:48-75 | with `develop` and `main` listed and the reviewer `alice`: the `develop` invocation first, then `main`, both with `--reviewer alice` |
| Release.NextVersionCases | src/cmd/release.ts:44-46 | a missing or falsy version gives `1.0.0`; a truthy version that is not a string reading as a version (a number, `true` or an object included) gives `null`; any next version that is not `null` reads as a version |
| Release.NextVersion | src/cmd/release.ts:44-46 | no contract of its own; the next version, `None` standing for `null`. `NextVersionCases` and `NextVersionBumps` state what it gives |
| Release.FirstVersionParses | src/cmd/release.ts:46 | `1.0.0` reads as version (1, 0, 0) |
| Release.NextVersionBumps | src/cmd/release.ts:44-45 | a version that reads as one is bumped by the requested kind, and the next version is greater |
| Release.RenderVersion | src/cmd/release.ts:74 | no contract of its own; how `${nextVersion}` renders, `null` as `null`. `RenderedVersionPlain` states that the result holds no `$` and no `#` |
| Release.RenderedVersionPlain | src/cmd/release.ts:44-46 | the rendered next version (`1.0.0`, `null` or a bumped `X.Y.Z`) holds no `$` and no `#` |
| Release.SetVersion | src/cmd/release.ts:48 | `version` takes the next version (or `null`), and every other field is kept as read |
| Release.HashFreeClear | src/cmd/release.ts:62-74 | text without `#` cannot start an occurrence of the marker |
| Release.ClearAppend | src/cmd/release.ts:62-74 | text that cannot start an occurrence of the marker stays that way when concatenated |
| Release.ClearCount | src/cmd/release.ts:62-74 | a prefix that cannot start an occurrence of the marker adds no occurrence |
| Release.MarkerLeads | src/cmd/release.ts:62 | text that starts with the marker has one occurrence more than what follows the marker |
| Release.SubsectionClear | src/cmd/release.ts:64-72 | an empty `###` subsection heading holds no marker |
| Release.ReleaseHeadingClear | src/cmd/release.ts:74 | the version heading holds no marker when the inserted values have no `#` |
| Release.SectionBodyClear | src/cmd/release.ts:62-74 | when the version, repository name and date hold no `#`, nothing after the leading marker of the replacement can start a marker |
| Release.SectionLiteral | src/cmd/release.ts:62-74 | with no `$` in the inserted values, the replacement has no `$`, so `replace` inserts it as written |
| Release.TaggedVersionWithout | src/cmd/release.ts:74 | a character absent from the version, repository name, date and fixed text is absent from the heading |
| Release.RewriteSection | src/cmd/release.ts:60-75 | when the version, repository name and date hold no `$` and the marker is first at `i`, the text before it is kept and the section takes the marker's place. What followed the marker follows the section, and the marker is still first at `i` |
| Release.RewriteWithoutMarker | src/cmd/release.ts:60-62 | without the marker the changelog is written back unchanged |
| Release.RewriteKeepsMarkerCount | src/cmd/release.ts:60-75 | the rewrite keeps the number of `## [Unreleased]` markers |
| Release.SpliceKeepsCount | src/cmd/release.ts:60-75 | putting text that cannot start a marker right after a marker occurrence keeps the number of markers |
| Release.InsertAfterMarker | src/cmd/release.ts:60-75 | inserting such text after a marker adds no marker |
| Release.RewriteExample | src/cmd/release.ts:60-75 | a changelog that starts with the marker gets the section in its place, followed by the old entries |
| Release.Section | src/cmd/release.ts:62-74 | no contract of its own; the replacement text. `SectionBodyClear`, `SectionLiteral` and `RewriteSection` state its properties |
| Release.RewriteChangelog | src/cmd/release.ts:60-75 | no contract of its own; `changelog.replace('## [Unreleased]', section)`. `RewriteSection`, `RewriteWithoutMarker`, `RewriteKeepsMarkerCount` and `PublishKeepsMarkerCount` state its properties |
| Release.PublishKeepsMarkerCount | src/cmd/release.ts:58-76 | publishing keeps the number of `## [Unreleased]` markers whenever the repository name and date hold no `$` and no `#`; the inserted version never does |
| Release.MainBranch | src/cmd/release.ts:80-82 | the result is nothing exactly when no trunk is `main` or `master`, and otherwise the first trunk that is |
| Release.SyncPlanAt | src/cmd/release.ts:33-37 | trunk `k` is synced by `fetch origin`, `checkout` and `pull` at positions `3k`, `3k+1` and `3k+2` |
| Release.SyncPlanLayout | src/cmd/release.ts:31-39 | the sync plan has three commands per trunk, in listing order: `fetch origin b`, `checkout b`, `pull` |
| Release.SyncTriple | src/cmd/release.ts:34-36 | no contract of its own; `fetch origin b`, `checkout b`, `pull` for one trunk. `SyncPlanAt` states its positions |
| Release.SyncPlan | src/cmd/release.ts:31-39 | no contract of its own; the sync commands of every trunk, when each succeeds. `SyncPlanAt`, `SyncPlanLayout` and `SyncPlanNoMerge` state its properties |
| Release.TailPlan | src/cmd/release.ts:84-94 | no contract of its own; cut, the merge when a production branch exists, add, commit. `ReleasePlanOrder` and `ReleasePlanMergesOnce` state its properties |
| Release.ReleasePlan | src/cmd/release.ts:29-94 | no contract of its own; the sync plan followed by the tail. `ReleasePlanOrder` and `ReleasePlanMergesOnce` state its properties |
| Release.ReleasePlanOrder | src/cmd/release.ts:29-94 | all syncing comes first, then `checkout -b release/v<version>`, then the merge exactly when a production branch exists, then `add` and `commit` as the final two |
| Release.SyncPlanNoMerge | src/cmd/release.ts:34-36 | no sync command is a merge |
| Release.ReleasePlanMergesOnce | src/cmd/release.ts:88-90 | the only merge is right after the release branch is cut, and only when a production branch exists |
| Release.AwaitNext | src/cmd/release.ts:85-94 | one awaited command of a plan: success extends the clean prefix; failure leaves the log holding the run of the whole plan, settled by that command |
| Release.SyncBranch | src/cmd/release.ts:33-37 | the log gains the run of `fetch`, `checkout`, `pull` for the trunk, and the outcome is how that run settles |
| Release.SyncTrunks | src/cmd/release.ts:31-39 | the log gains the run of the whole sync plan, trunk after trunk, and the first failure stops the rest |
| Release.SyncStep | src/cmd/release.ts:31-39 | one trunk of the loop: its triple extends the clean prefix or ends the run of the whole plan |
| Release.CommitRelease | src/cmd/release.ts:85-94 | the log gains the run of cut, optional merge, add and commit, and the outcome is how that run settles |
| Release.BumpVersion | src/cmd/release.ts:42-50 | the manifest takes the next version, and the method returns it |
| Release.WriteChangelog | src/cmd/release.ts:52-76 | without a repository name, the error and an untouched changelog; otherwise the changelog is rewritten with the section |
| Release.ReleaseRunCases | src/cmd/release.ts:29-55 | a failed sync ends the release with only the sync commands logged and both files untouched. After a clean sync the manifest is bumped; without a repository name the changelog is untouched and nothing else runs |
| Release.ReleaseRunPublishes | src/cmd/release.ts:29-94 | after a clean sync with a repository name, the changelog gets the section, and the log and outcome are the run of the whole release plan |
| Release.PublishRunRuns | src/cmd/release.ts:41-94 | with a repository name, publishing logs the run of the cut, merge and commit commands and settles as that run |
| Release.ReleaseRunLog | src/cmd/release.ts:25-95 | the log only grows, and a failed command is the last one started |
| Release.PublishRun | src/cmd/release.ts:41-94 | no contract of its own; the reference for lines 41-94 on a snapshot. `Publish` is proved equal to it; `PublishRunRuns` and `PublishKeepsMarkerCount` state its properties |
| Release.ReleaseRun | src/cmd/release.ts:29-94 | no contract of its own; the reference for lines 29-94 on a snapshot. `Release` is proved equal to it; `ReleaseRunCases`, `ReleaseRunPublishes` and `ReleaseRunLog` state its properties |
| Release.HandlerRun | src/cmd/release.ts:25-95 | no contract of its own; the reference for the whole handler on a snapshot. `Release.Handler` is proved equal to it |
| Release.Publish | src/cmd/release.ts:41-94 | the outcome and new state are those `PublishRun` gives for the old state |
| Release.Release | src/cmd/release.ts:29-94 | the outcome and new state are those `ReleaseRun` gives for the old state |
| Release.Handler | src/cmd/release.ts:25-95 | the outcome and new state are those `HandlerRun` gives for the old state: without a listing nothing changes |

## Left out

- `src/cli.ts` is not part of this model. It holds command registration,
  `dotenv` loading, the banner and reading the tool's own `package.json`.
- Process spawning through `execa` (src/utils.ts:5-15) is not modelled. Output
  inheritance and streaming are left out; a started process is a log entry,
  and its exit status comes from the `ok` parameter.
- The three query commands (`git branch -a`, `git branch --show-current`,
  `git config --get remote.origin.url`) are not logged. The handlers receive
  their combined output as `Option<string>` parameters; `None` is missing
  output. A query that exits with a non-zero status makes `execa` reject with
  its own error before the guards at src/utils.ts:20, 45 and 60 are reached
  (`git config --get remote.origin.url` exits 1 when there is no `origin`
  remote). The model folds that case into `None`, so it reports `NoBranches`,
  `NoCurrentBranch` or `NoRepoName(None)` instead of the process error.
- File I/O through `fs-extra` is not modelled. The manifest is a map of
  top-level fields and the changelog is a string. Read and write failures
  (a missing or malformed file), JSON formatting with two spaces, and key
  order are left out.
- The manifest's numbers are modelled as integers; arrays and objects are
  opaque. Only their truthiness matters to the next-version rule.
- `new Date().toISOString().split('T')`: the date is the parameter `today`.
- `console.log` of each trunk name in the `pr` handler is left out.
- yargs argument handling (`choices`, `demandOption`, the
  `DEFAULT_PR_REVIEWER` default) is left out. The bump kind is the datatype
  `ReleaseType`, and reviewers arrive as the resolved list.
- Pr.Handler: the manifest's version arrives as the text the title template
  renders. Reading it with `readJson` and rendering a non-string value in the
  template are left out.
- SemVer.Inc: restricted to plain `X.Y.Z` versions without leading zeros.
  Pre-release and build tags, a leading `v` and surrounding spaces, all of
  which `semver`'s strict grammar accepts, give `None` here (the `null` of an
  invalid version). Components are unbounded `nat`s and the text has no length
  limit: `semver` also gives `null` for a version text over 256 characters or
  a component above 2^53 - 1, which the model bumps instead. The source of
  `semver` is not part of this model.
- Release.RewriteKeepsMarkerCount: proved only when the version, repository
  name and date contain no `$` and no `#`. A `$` would be a replacement pattern
  for `replace`; a `#` could spell a new marker.
  `Release.PublishKeepsMarkerCount` discharges the version's part, since the
  inserted version never holds either character.
- Release.PublishKeepsMarkerCount: proved only when the repository name and
  date contain no `$` and no `#`, for the same reasons.
- Release.RewriteSection: proved only when the version, repository name and
  date contain no `$`. A `$&` in one of them makes `replace` insert the matched
  marker there, so the section is not spliced in as written.
- Release.SectionBodyClear: proved only when the version, repository name and
  date contain no `#`; a `#` in them could spell a further marker.
- Release.SectionLiteral: proved only when the inserted values contain no `$`.
  With a `$`, `Text.ReplaceFirst` still applies the substitution patterns, but
  no lemma describes the resulting text.
- Utils.RepoName: the regular expression is modelled by its leftmost-longest
  match, which is what a backtracking engine reports for `labforward\/(.*)\.git`.
  The engine itself is not modelled.
- Promise chaining is modelled as strict sequencing, because each callback
  awaits the previous promise. No concurrency is modelled.

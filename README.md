# android-kxxt/cicd: the changelog generator and two CI helper scripts, in Dafny

This project models the sequential text and collection logic of the
android-kxxt CI tooling, and proves properties of that model.

- **Changelog generator** (Rust, `changelog-generator/src`):
  - From the text of two tree snapshots (`<path>: <commit>` per repository) it
    works out which repositories were added, removed or moved to another
    commit. It does this in `changelog.rs`.
  - For each of them it collects the commits between the two pinned commits.
    Each commit's `git show --format=fuller --date=unix` text is parsed into
    an author, a date, a title, a description and a `Change-Id` in
    `repo_log.rs`.
  - Three text helpers of its templates live in `template.rs`: link-description
    escaping, indentation and byte slicing.
- **git-dirty-status.rb** sorts `git status --porcelain` lines into the sets
  Modified, Untracked, Deleted and Other, and prints a `(Dirty, …)` summary.
- **parse-targets.py** turns a comma-separated target list with `+` and `*`
  suffixes into build-matrix entries with `sign` and `unsigned` flags.

Modules, one file each:

| module | file | models |
|---|---|---|
| `Wrappers` | wrappers.dfy | `Option` and `Result`, with `:-` early return |
| `Text` | text.dfy | the string functions the code relies on: Rust `str::lines`, `trim`, `split_once`, `rsplit_once`, `strip_prefix`, `strip_suffix`, `replace`; Python `split` and joining |
| `KeyOrder` | key_order.dfy | the byte-wise order of `ArcStr` keys, and the ascending key list a `BTreeSet` iterates |
| `Snapshot` | snapshot.dfy | snapshot.rs |
| `Process` | process.dfy | what xshell's `Cmd::output` hands back |
| `Changes` | changes.dfy | `Change`, `ChangeKind` and `RepoChangeLog` |
| `RepoLog` | repo_log.dfy | repo_log.rs |
| `Changelog` | changelog.dfy | changelog.rs |
| `Template` | template.dfy | template.rs |
| `DirtyStatus` | dirty_status.dfy | git-dirty-status.rb |
| `ParseTargets` | parse_targets.dfy | parse-targets.py |

External commands (`git`, `repo info`) are not run. Their results are inputs:
- a `Process.Run` value for a single command;
- functions from arguments to `Run` for commands that take a path or a commit (`Changelog.Host`, `RepoLog.RepoChangelogOf`'s `show`).

Loops in the source are methods, each proved equal to a specification
function on the same inputs. The properties are proved about those
functions. The loops are:
- `Snapshot.Parse`;
- `RepoLog.ParseCommitText`;
- `RepoLog.GenerateRepoChangelog`;
- the three loops of `Changelog.GenerateFrom`;
- `Template.Indent`;
- `DirtyStatus.ClassifyLines` and `DirtyStatus.Summary`;
- `ParseTargets.BuildInclude`.

Panics are modelled as error results:
- indexing a `BTreeMap` with a missing key gives `IndexPanic`;
- `unwrap()` of a failed `CommitHash::try_new` gives `UnwrapPanic`;
- `start + max_len` overflowing in `slice` gives `AddOverflow`: a debug build panics on the addition, and in a release build the wrapped end is below `start`, so `&content[start..end]` panics;
- in the Ruby script, `markdown_code(nil)` gives `NilFile`.

Where the code does something other than what its names and types suggest, the model follows the code:
- **CommitHash validation.** The `regex = "[0-9a-f]{8, 40}"` validation of the nutype attribute at snapshot.rs:24 looks like a check for 8 to 40 hex digits. It has no anchors, so any text containing eight lowercase hex digits in a row is accepted (`Snapshot.IsCommitHash`, `Snapshot.UnanchoredAcceptsSurroundings`).
- **The added/removed classification.** The names `target_repos`, `added` and `removed` at changelog.rs:88-90 show that repositories only in the target, or only in the original, are meant to be reported. Line 88 builds the target key set from the original snapshot, so no repository is ever added or removed (see Findings).
- **The `commit` field.** repo_log.rs:285 fills a `commit` field of `Change`, but the `Change` struct at changelog.rs:50-59 has no such field. The model gives `Change` the field, as repo_log.rs uses it.
- **The `log` field.** The changelog's `log` ("changes ordered by datetime") is always the empty vector (changelog.rs:132), and the model keeps it so.
- **Failed commands.** xshell's `output()` returns an error when a command exits unsuccessfully, unless `.ignore_status()` is set. So in repo_log.rs the `Git` error of `output2string` is only reached if an unsuccessful output is ever returned. Only `repo info` ignores its status (changelog.rs:143). In changelog.rs, `output2string` looks only at the standard output.

## Model

| member | source | states |
|---|---|---|
| Text.Lines | changelog-generator/src/repo_log.rs:71 | `str::lines`: no piece contains a line feed; the result is empty exactly for the empty text |
| Text.LinesCons | changelog-generator/src/repo_log.rs:71 | a terminated first line is split off, without a trailing carriage return |
| Text.LinesOfTerminated | changelog-generator/src/template.rs:54-58 | joining plain lines each followed by a line feed and splitting again gives those lines back |
| Text.TrimBy | changelog-generator/src/snapshot.rs:57-58 | the result is a slice of the text with only whitespace before and after it, and neither starts nor ends with whitespace; an all-whitespace text gives the empty text |
| Text.TrimPadded | changelog-generator/src/snapshot.rs:57-58 | whitespace in front of a trimmed non-empty text is removed, and nothing else |
| Text.TrimByPadded | changelog-generator/src/snapshot.rs:57-58 | whitespace on both sides of a trimmed non-empty text is removed, and nothing else |
| Text.SplitOnce | changelog-generator/src/repo_log.rs:86 | `split_once` fails exactly when the separator is absent; otherwise the text is first part, separator, rest, and the first part holds no separator |
| Text.SplitOnceOf | changelog-generator/src/repo_log.rs:86 | a text made of a separator-free part, the separator and a rest splits into exactly those |
| Text.RSplitOnce | changelog-generator/src/snapshot.rs:52 | `rsplit_once` fails exactly when the separator is absent; otherwise the last part holds no separator |
| Text.RSplitOnceOf | changelog-generator/src/snapshot.rs:52 | a separator-free last part is split off exactly |
| Text.RSplitOnceStr | changelog-generator/src/repo_log.rs:178 | `rsplit_once("\n\n")` fails exactly when the pattern does not occur; otherwise the text is before, pattern, after |
| Text.RSplitOnceStrOf | changelog-generator/src/repo_log.rs:178 | the split is at the last occurrence of the pattern |
| Text.StripPrefix | changelog-generator/src/repo_log.rs:101-107 | `strip_prefix` succeeds exactly when the text starts with the prefix, and gives what follows it |
| Text.StripPrefixOf | changelog-generator/src/repo_log.rs:101-107 | prefix plus rest strips to the rest |
| Text.StripSuffix | changelog-generator/src/repo_log.rs:153-157 | `strip_suffix` succeeds exactly when the text ends with the suffix, and gives what precedes it |
| Text.StripSuffixOf | changelog-generator/src/repo_log.rs:153-157 | rest plus suffix strips to the rest |
| Text.Split | parse-targets.py:5 | `str.split(",")`: at least one piece, and no piece contains the separator |
| Text.JoinSplit | parse-targets.py:5 | rejoining the pieces with the separator gives the text back |
| Text.SplitJoin | parse-targets.py:5 | splitting separator-free pieces joined by the separator gives the pieces back |
| Text.ReplaceCharAppend | changelog-generator/src/template.rs:26-28 | `replace` of one character distributes over concatenation |
| Text.ReplaceCharMembers | changelog-generator/src/template.rs:26-28 | each character of the result comes from the replacement or is an unreplaced character of the input |
| Text.ReplaceCharAbsent | changelog-generator/src/template.rs:26-28 | without an occurrence of the character nothing changes |
| Text.IndexOf | changelog-generator/src/repo_log.rs:86 | the first occurrence of a character: absent exactly when the character is not in the text |
| Text.LastIndexOf | changelog-generator/src/snapshot.rs:52 | the last occurrence of a character: absent exactly when the character is not in the text |
| Text.RFind | changelog-generator/src/repo_log.rs:178 | the last position of a pattern, absent exactly when the pattern does not occur |
| KeyOrder.BelowTotal | changelog-generator/src/changelog.rs:87-91 | the key order is total |
| KeyOrder.BelowAntisymmetric | changelog-generator/src/changelog.rs:87-91 | the key order is antisymmetric |
| KeyOrder.BelowTransitive | changelog-generator/src/changelog.rs:87-91 | the key order is transitive |
| KeyOrder.BelowReflexive | changelog-generator/src/changelog.rs:87-91 | the key order is reflexive |
| KeyOrder.LeastExists | changelog-generator/src/changelog.rs:87-91 | every non-empty key set has a least key |
| KeyOrder.LeastUnique | changelog-generator/src/changelog.rs:87-91 | and only one |
| KeyOrder.Ascending | changelog-generator/src/changelog.rs:87-91 | iterating a `BTreeSet`: every element once, nothing else, strictly ascending |
| Snapshot.CommitHashRun | changelog-generator/src/snapshot.rs:20-26 | a commit hash is accepted exactly when eight lowercase hex digits occur in a row somewhere in it |
| Snapshot.AnchoredIsAccepted | changelog-generator/src/snapshot.rs:20-26 | every string of 8 to 40 lowercase hex digits is accepted |
| Snapshot.UnanchoredAcceptsSurroundings | changelog-generator/src/snapshot.rs:20-26 | any text around such a run is accepted too: neither the length bound nor the other characters are checked |
| Snapshot.TestHashes | changelog-generator/src/snapshot.rs:86-95 | the hashes of the tests are accepted, and `invalid_commit` is not |
| Snapshot.SplitStatusLine | changelog-generator/src/snapshot.rs:52-58 | a line without `:` is kept whole for the error; a line with one splits at its last `:` (the commit part holds none) into the trimmed path and the trimmed commit |
| Snapshot.SplitTrimsPadding | changelog-generator/src/snapshot.rs:52-58 | a path and a commit padded with whitespace on both sides come out without the padding |
| Snapshot.TrimsWhitespaceTest | changelog-generator/src/snapshot.rs:137-141 | the test line ` system/core :  413223ae32d8f  ` gives the path `system/core` and the commit `413223ae32d8f` |
| Snapshot.Parse | changelog-generator/src/snapshot.rs:49-77 | the parsing loop computes `SnapshotOf` |
| Snapshot.AddLineVerdict | changelog-generator/src/snapshot.rs:52-74 | one line is accepted exactly when it has a `:`, its path is new and its commit is valid, and then it adds path ↦ commit; otherwise the error is the first failed check |
| Snapshot.AddLinesAccepts | changelog-generator/src/snapshot.rs:51-75 | the parse succeeds exactly when every line is accepted after the lines before it |
| Snapshot.AddLinesFirstError | changelog-generator/src/snapshot.rs:51-75 | a failed parse reports the verdict of the first rejected line |
| Snapshot.AddLinesContents | changelog-generator/src/snapshot.rs:64-74 | a successful parse maps exactly the paths of the lines, one per line, each to its own commit, and keeps earlier entries |
| Snapshot.AddLinesKeys | changelog-generator/src/snapshot.rs:59-74 | a successful parse has the earlier paths and those of the lines as keys, one more per line |
| Snapshot.AddLinesKeeps | changelog-generator/src/snapshot.rs:59-74 | earlier entries are kept unchanged |
| Snapshot.AddLinesEntry | changelog-generator/src/snapshot.rs:64-74 | each line's path maps to that line's commit |
| Snapshot.ParseAccepts | changelog-generator/src/snapshot.rs:49-77 | the whole parse succeeds exactly when every line is accepted; the map then has one key per line, each with its line's commit |
| Snapshot.ParseFirstError | changelog-generator/src/snapshot.rs:49-77 | a failed parse reports the error of the first line that is rejected |
| Snapshot.NoColonRejected | changelog-generator/src/snapshot.rs:52-56 | a line without `:` is rejected with `InvalidRepoStatusInput` carrying the line (test at 99-109) |
| Snapshot.DuplicateBeforeCommitCheck | changelog-generator/src/snapshot.rs:59-63 | a repeated path is rejected as `DuplicatedRepo` before its commit is validated (test at 112-120) |
| Snapshot.SplitWritten | changelog-generator/src/snapshot.rs:52-58 | a written line `<path>:<commit>` splits back into the path and the commit |
| Snapshot.RenderedLines | changelog-generator/src/snapshot.rs:51 | the lines of a rendered snapshot are its entries, in order |
| Snapshot.StatusLines | changelog-generator/src/snapshot.rs:52 | writing entries gives one `<path>:<commit>` line per entry, in order |
| Snapshot.ReadBack | changelog-generator/src/snapshot.rs:59-74 | distinct writable entries are all accepted and give a map with exactly their paths, each with its commit |
| Snapshot.RoundTrip | changelog-generator/src/snapshot.rs:49-77 | rendering distinct plain paths with valid commits and parsing gives exactly those paths and commits |
| Snapshot.Entries | changelog-generator/src/snapshot.rs:12 | one entry per key of the map, each with its commit, keys distinct |
| Snapshot.SnapshotRoundTrip | changelog-generator/src/snapshot.rs:49-77 | every snapshot whose paths and commits can be written parses back from its rendering unchanged |
| RepoLog.ParseCommitText | changelog-generator/src/repo_log.rs:57-216 | the stage loop and the checks after it compute `ParsedCommitOf` |
| RepoLog.ScanAppend | changelog-generator/src/repo_log.rs:78-136 | scanning two blocks of lines is scanning the first and then, unless it failed, the second |
| RepoLog.ScanHeaders | changelog-generator/src/repo_log.rs:79-98 | header lines leave the stage unchanged; `Author` and `CommitDate` take the value of their last occurrence, or keep the earlier value when no line has the key; other keys are ignored |
| RepoLog.LastValueNone | changelog-generator/src/repo_log.rs:93-97 | a header is missing exactly when no header line has its key |
| RepoLog.LastValueAt | changelog-generator/src/repo_log.rs:93-97 | a header's value is that of its last occurrence |
| RepoLog.HeaderValueOf | changelog-generator/src/repo_log.rs:86-92 | `Key: value` yields the trimmed value for that key |
| RepoLog.ScanTitle | changelog-generator/src/repo_log.rs:109-128 | indented title fragments join with exactly one space between consecutive fragments, untrimmed |
| RepoLog.StepBody | changelog-generator/src/repo_log.rs:129-132 | a body line adds its trimmed text and a line feed to the description |
| RepoLog.ScanBody | changelog-generator/src/repo_log.rs:129-132 | the description is each trimmed body line followed by a line feed |
| RepoLog.ScanCommitLines | changelog-generator/src/repo_log.rs:78-136 | headers, a blank line, titles, a blank indented line and a body give the last `Author` and `CommitDate`, the joined title and the trimmed, terminated body |
| RepoLog.ScanCommitText | changelog-generator/src/repo_log.rs:71-136 | the same for the whole `git show` text: its first line is skipped |
| RepoLog.ParseWellFormed | changelog-generator/src/repo_log.rs:57-216 | a well-formed commit text parses to its author name and email, its date, its title and the description and `Change-Id` of its body |
| RepoLog.WellFormedErrors | changelog-generator/src/repo_log.rs:137-169 | the checks after the loop fail in source order: no author, author not `name <email>`, no commit date, date not a `u32` |
| RepoLog.ErrorPersists | changelog-generator/src/repo_log.rs:78-136 | an error of the loop is the error of the parse, carrying the commit and the raw text |
| RepoLog.MissingSeparator | changelog-generator/src/repo_log.rs:86-90 | a non-empty header line without `:` fails with "header does not contain key-value separator" |
| RepoLog.MissingTitle | changelog-generator/src/repo_log.rs:111-117 | an empty indented line while the title is still empty fails with "does not have a title" (test at 346-358) |
| RepoLog.ParseWithoutBody | changelog-generator/src/repo_log.rs:109-136 | a text that ends inside the title raises no title error and has an empty description and no `Change-Id` |
| RepoLog.UnindentedTitleLine | changelog-generator/src/repo_log.rs:101-107 | a title line not starting with four spaces fails with "does not start with 4 spaces" |
| RepoLog.UnindentedBodyLine | changelog-generator/src/repo_log.rs:101-107 | so does a body line |
| RepoLog.SplitAuthorOf | changelog-generator/src/repo_log.rs:142-157 | `name <email>` with a space-free email splits into the name and the email |
| RepoLog.SplitAuthorShape | changelog-generator/src/repo_log.rs:142-157 | every author that splits is `name <email>` with a space-free email |
| RepoLog.ParseU32 | changelog-generator/src/repo_log.rs:163-169 | a parsed date is below 2^32 |
| RepoLog.ParseDecimal | changelog-generator/src/repo_log.rs:163-169 | a decimal numeral parses to its value exactly when that is below 2^32, and an optional leading `+` changes nothing |
| RepoLog.ParseU32Rejects | changelog-generator/src/repo_log.rs:163-169 | the empty text, a lone `+` and any text with a non-digit (other than a leading `+`) are rejected |
| RepoLog.TestDates | changelog-generator/src/repo_log.rs:375-388 | `1751211480` parses and `not_a_date` does not |
| RepoLog.TrailersAfterBlankLine | changelog-generator/src/repo_log.rs:177-193 | the description is split at its last blank line, and the `Change-Id` is looked up in the trailers after it |
| RepoLog.ChangeIdFirst | changelog-generator/src/repo_log.rs:188-192 | the first `Change-Id:` line counts, with its value trimmed |
| RepoLog.ChangeIdAbsent | changelog-generator/src/repo_log.rs:188-192 | there is no `Change-Id` exactly when no line starts with `Change-Id:` |
| RepoLog.ParagraphKept | changelog-generator/src/repo_log.rs:195-206 | a single paragraph whose first line has no `: ` stays the description, with no `Change-Id` |
| RepoLog.ParagraphAsTrailers | changelog-generator/src/repo_log.rs:195-203 | a single paragraph whose first line has `: ` is read as trailers and the description becomes empty |
| RepoLog.SingleBodyLine | changelog-generator/src/repo_log.rs:391-405 | a one-line body keeps its line feed and has no `Change-Id` |
| RepoLog.OutputText | changelog-generator/src/repo_log.rs:291-304 | the text is the standard output exactly when the command ran and succeeded; a command that failed to run is `CommandExecution`, an unsuccessful one is `Git` with its standard error |
| RepoLog.GenerateRepoChangelog | changelog-generator/src/repo_log.rs:218-289 | the loop computes `RepoChangelogOf` |
| RepoLog.ChangeForFields | changelog-generator/src/repo_log.rs:254-286 | a commit's change exists exactly when its `git show` runs and parses; it carries the commit, the repository, the parsed fields, and `Merge` exactly for merge commits |
| RepoLog.ChangesOfShape | changelog-generator/src/repo_log.rs:252-288 | the list succeeds exactly when every commit's change does, and then has one change per commit, in order |
| RepoLog.CollectShape | changelog-generator/src/repo_log.rs:254-287 | collecting per-commit results in order succeeds exactly when each succeeds, and then gives one value per commit, each that commit's |
| RepoLog.ChangesOfFirstError | changelog-generator/src/repo_log.rs:254-287 | the error is that of the first commit whose change fails |
| RepoLog.RepoChangelogShape | changelog-generator/src/repo_log.rs:218-289 | a successful changelog has one change per first-parent commit, in order, each with its commit, repository, kind and parsed fields |
| RepoLog.RepoChangelogSucceeds | changelog-generator/src/repo_log.rs:218-289 | the changelog succeeds exactly when both `rev-list` queries succeed and every listed commit's `git show` succeeds and parses |
| RepoLog.RepoChangelogFirstError | changelog-generator/src/repo_log.rs:254-287 | otherwise it fails with the error of the first commit that does not |
| RepoLog.QueryErrors | changelog-generator/src/repo_log.rs:232-251 | a failed merge-commit query is reported before a failed first-parent query |
| Changelog.Stdout | changelog-generator/src/changelog.rs:229-231 | this `output2string` gives the standard output of any command that ran, whatever its status |
| Changelog.StampOf | changelog-generator/src/changelog.rs:155-159 | the stamp is `m/` and the branch with one leading `refs/heads/` removed |
| Changelog.ManifestBranchFirst | changelog-generator/src/changelog.rs:147-150 | the first `Manifest branch:` line counts, its rest trimmed |
| Changelog.ManifestBranchNone | changelog-generator/src/changelog.rs:147-154 | there is no manifest branch exactly when no line starts with `Manifest branch:` |
| Changelog.SyncStampOf | changelog-generator/src/changelog.rs:138-160 | `repo info` output whose first manifest line names `refs/heads/<b>` or `<b>` gives `m/<b>` |
| Changelog.StampOfLines | changelog-generator/src/changelog.rs:147-159 | the same for the lines of the output |
| Changelog.ManifestLine | changelog-generator/src/changelog.rs:149-159 | a `Manifest branch:` line with padding and an optional `refs/heads/` gives `m/<b>` |
| Changelog.NoSyncStamp | changelog-generator/src/changelog.rs:151-154 | without a manifest line the result is `CommandFailure("repo info", …)` |
| Changelog.StartOf | changelog-generator/src/changelog.rs:183-186 | the start commit is the first line of the window output; an empty output is `NoHistory` |
| Changelog.StartOfWindow | changelog-generator/src/changelog.rs:183-186 | that is, the oldest of the listed commits |
| Changelog.RemoteOf | changelog-generator/src/changelog.rs:196-202 | the remote is the part before the first `/`; without `/` the result is `CommandFailure` |
| Changelog.RemoteOfRef | changelog-generator/src/changelog.rs:196-202 | `remote/branch` gives `remote` |
| Changelog.RepoLogOf | changelog-generator/src/changelog.rs:213-221 | the single-repository changelog, its error wrapped as `SingleRepo` for that repository |
| Changelog.NewRepoStatusShape | changelog-generator/src/changelog.rs:162-227 | a new repository's status has the trimmed remote URL, the changes from the oldest of the last ten commits to the current one, and the current commit |
| Changelog.NewRepoStatusCommit | changelog-generator/src/changelog.rs:222-226 | the status records the current commit |
| Changelog.NewRepoStatusErrors | changelog-generator/src/changelog.rs:183-202 | any window command that ran with empty output, whatever its status and standard error, gives `NoHistory`; an upstream ref without `/` is the missing-remote `CommandFailure` |
| Changelog.Changed | changelog-generator/src/changelog.rs:92 | only common repositories present in both snapshots can have moved; one at the same commit in both has not; one at different commits has |
| Changelog.AscendingWithin | changelog-generator/src/changelog.rs:87-91 | iterating a subset stays in the superset |
| Changelog.ChangedLoop | changelog-generator/src/changelog.rs:99-108 | the loop over moved repositories computes `ChangedFrom` |
| Changelog.AddedLoop | changelog-generator/src/changelog.rs:110-119 | the loop over added repositories computes `AddedFrom` |
| Changelog.RemovedLoop | changelog-generator/src/changelog.rs:121-128 | the loop over removed repositories computes `RemovedFrom` |
| Changelog.GenerateFrom | changelog-generator/src/changelog.rs:86-135 | the body of `generate` for a given target key set computes `ChangeLogOf` |
| Changelog.Generate | changelog-generator/src/changelog.rs:86-135 | `generate` as written, whose target key set is the original's keys (line 88) |
| Changelog.GenerateCorrected | changelog-generator/src/changelog.rs:86-135 | `generate` with the target's own keys |
| Changelog.ChangedFromShape | changelog-generator/src/changelog.rs:92-108 | the changes map holds the earlier entries and exactly the listed repositories that moved, each with its own changelog |
| Changelog.AddedFromShape | changelog-generator/src/changelog.rs:110-119 | the added map holds exactly the listed repositories, each with its new-repository status |
| Changelog.RemovedFromShape | changelog-generator/src/changelog.rs:121-128 | the removed map holds exactly the listed repositories, each with its last seen commit |
| Changelog.ChangesPart | changelog-generator/src/changelog.rs:91-108 | the changes are those of the moved repositories among the common ones |
| Changelog.AddedPart | changelog-generator/src/changelog.rs:89-119 | the added repositories are those of the target key set missing from the original |
| Changelog.RemovedPart | changelog-generator/src/changelog.rs:90-128 | the removed repositories are those of the original missing from the target key set |
| Changelog.ChangeLogShape | changelog-generator/src/changelog.rs:86-135 | a successful changelog is described by all three parts and has an empty `log` |
| Changelog.ChangeLogErrorOrder | changelog-generator/src/changelog.rs:92-108 | the sync-stamp error comes first, then the error of the moved repositories |
| Changelog.LiteralKeysHideAddedAndRemoved | changelog-generator/src/changelog.rs:88-90 | as written, a successful changelog never lists an added or a removed repository |
| Changelog.LiteralKeysFailOnRemoval | changelog-generator/src/changelog.rs:88-92 | as written, a repository missing from the target makes `generate` fail |
| Changelog.IntendedClassification | changelog-generator/src/changelog.rs:86-135 | with the target's keys: added = target − original, removed = original − target, changes = the moved common repositories, with the right commits; the three are pairwise disjoint, and a repository at the same commit in both is in none |
| Changelog.IntendedSets | changelog-generator/src/changelog.rs:89-128 | a changelog built with the target's keys lists the added and removed repositories and the moved common ones, with the target's and the original's commits |
| Changelog.ChangedFromNoPanic | changelog-generator/src/changelog.rs:92-108 | when every listed repository is in both snapshots, the only error of the changes loop is that of a single repository's changelog |
| Changelog.AddedFromNoPanic | changelog-generator/src/changelog.rs:110-119 | when every listed repository is in the target, the added loop never fails on a map lookup |
| Changelog.NewRepoStatusNoIndexPanic | changelog-generator/src/changelog.rs:162-227 | the new-repository status never fails on a map lookup |
| Changelog.IntendedNeverPanicsOnIndex | changelog-generator/src/changelog.rs:92-128 | with the target's keys no map lookup panics |
| Template.LinkDescriptionPerChar | changelog-generator/src/template.rs:25-28 | the three replacements equal escaping each character on its own |
| Template.LinkDescriptionSingleLine | changelog-generator/src/template.rs:28 | the escaped text has no line feed |
| Template.BracketsEscaped | changelog-generator/src/template.rs:26-27 | every bracket of the escaped text is preceded by a backslash |
| Template.LinkDescriptionSpec | changelog-generator/src/template.rs:25-28 | all three together for the helper's text |
| Template.ClampIndent | changelog-generator/src/template.rs:48 | the width is the argument, at most 256 |
| Template.Spaces | changelog-generator/src/template.rs:53 | exactly `n` spaces |
| Template.Indent | changelog-generator/src/template.rs:53-58 | the loop writes each line of the content, prefixed with the spaces and followed by a line feed |
| Template.IndentBounds | changelog-generator/src/template.rs:48-58 | empty content gives empty output, and widths above 256 act as 256 |
| Template.IndentLines | changelog-generator/src/template.rs:53-58 | the lines of the output are the content's lines, each prefixed |
| Template.SliceSpec | changelog-generator/src/template.rs:89-100 | empty content gives nothing; a start at or past the end is an error; otherwise the output is the content from `start`, at most `max_len` bytes, never reaching the last byte |
| Template.SliceDropsLastByte | changelog-generator/src/template.rs:99-100 | when the window reaches the end of the content, the last byte is left out |
| Template.SliceOfAbc | changelog-generator/src/template.rs:99-100 | `slice 0 3 "abc"` gives `ab` as written and `abc` when corrected |
| Template.SliceCorrectedSpec | changelog-generator/src/template.rs:99-100 | with the end clamped to the length, the output is `min(max_len, len − start)` bytes from `start` and reaches the last byte when the window does |
| DirtyStatus.NextFieldSpace | git-dirty-status.rb:10 | the first separator at or after a position |
| DirtyStatus.SplitField | git-dirty-status.rb:10 | `split(' ', 2)` yields at most two fields |
| DirtyStatus.SplitFieldOf | git-dirty-status.rb:10 | a status, separators and a file split into the status and the file |
| DirtyStatus.StripPadded | git-dirty-status.rb:10 | `strip` removes exactly the padding of a text that does not start or end with whitespace |
| DirtyStatus.FieldsOf | git-dirty-status.rb:10 | a padded line of status, separators and path gives that status and that path |
| DirtyStatus.FieldsOfStatusOnly | git-dirty-status.rb:10 | a bare status has no file |
| DirtyStatus.FieldsOfBlank | git-dirty-status.rb:10 | a blank line has neither status nor file |
| DirtyStatus.StatusLine | git-dirty-status.rb:10-15 | ` M path` gives status `M` and `?? path` gives `??`, each with the path |
| DirtyStatus.ClassifyLines | git-dirty-status.rb:9-21 | the loop over the input lines computes `Classify` |
| DirtyStatus.AddLineGroup | git-dirty-status.rb:11-20 | a line changes only the set its status selects: `??`, exactly `M`, exactly `D`, anything else |
| DirtyStatus.InsertMembers | git-dirty-status.rb:13-19 | adding to a set keeps it free of duplicates and adds exactly that element |
| DirtyStatus.ClassifyGroups | git-dirty-status.rb:4-21 | each set holds exactly the files listed under its status, each once |
| DirtyStatus.ClassifyGrowsAtEnd | git-dirty-status.rb:4-21 | a set only grows at its end, so files keep the order in which they were first seen |
| DirtyStatus.UnescapeEscape | git-dirty-status.rb:24 | undoing the backtick escape gives the text back |
| DirtyStatus.MarkdownCodeRoundTrip | git-dirty-status.rb:23-26 | the code span starts and ends with a backtick, and its inside unescapes to the input |
| DirtyStatus.Summary | git-dirty-status.rb:28-37 | the summary loop computes `SummaryOf` |
| DirtyStatus.CodesFail | git-dirty-status.rb:33 | mapping `markdown_code` fails exactly when a set holds `nil` |
| DirtyStatus.PartsFail | git-dirty-status.rb:31-35 | building the parts fails exactly when some set holds `nil` |
| DirtyStatus.SummaryOutcome | git-dirty-status.rb:28-37 | a clean tree prints nothing; otherwise the script dies exactly when a set holds `nil` |
| DirtyStatus.PresentKeyed | git-dirty-status.rb:31-32 | the sets are taken in the order Modified, Untracked, Deleted, Other, with the empty ones left out |
| DirtyStatus.PartsOk | git-dirty-status.rb:31-35 | without `nil`s the parts are `Key: ` and the set's code spans joined by `, `, one per non-empty set |
| DirtyStatus.SummaryDirty | git-dirty-status.rb:30-37 | a changed tree without `nil`s prints `(Dirty, ` + the parts joined by `, ` + `)` |
| DirtyStatus.SummaryExample | git-dirty-status.rb:30-37 | an unstaged change to `a` and an untracked `b` print `(Dirty, Modified: ` + `` `a` `` + `, Untracked: ` + `` `b` `` + `)` |
| DirtyStatus.MissingFileFails | git-dirty-status.rb:10-33 | a line without a file, such as a blank line, makes the script die |
| DirtyStatus.NilFails | git-dirty-status.rb:23-33 | a `nil` in any set makes the script die |
| ParseTargets.BuildInclude | parse-targets.py:8-32 | one entry per target, in order, each the entry its suffix selects |
| ParseTargets.ParseInput | parse-targets.py:5-32 | the script's entries are those of `IncludeList` |
| ParseTargets.IncludeRoundTrip | parse-targets.py:9-32 | no entry has both flags false, and the name plus the suffix its flags stand for is the target read |
| ParseTargets.IncludeFlags | parse-targets.py:9-32 | `sign` exactly for a `+` or `*` suffix, `unsigned` exactly without `+`, and the name unchanged without a suffix |
| ParseTargets.TargetsPieces | parse-targets.py:5 | one target per piece, one more than there are commas, each the stripped piece, and the pieces rejoin to the input |
| ParseTargets.SplitCount | parse-targets.py:5 | the split has one more piece than the text has commas |
| ParseTargets.TargetsStripped | parse-targets.py:5 | a target has no comma and no whitespace at either end |
| ParseTargets.EmptyInput | parse-targets.py:5-32 | an empty input is one empty target, built unsigned only |

## Left out

- Running `git` and `repo info`, and `Shell::new` (`ShellCreation`): external processes. Their results are inputs.
- UTF-8 decoding of command output and `InvalidEncoding`: the model's outputs are already decoded text.
- Error messages and `Display` formatting: errors are datatypes carrying the same fields and reasons, except for four values no behaviour depends on. The `source` of `CommandExecution` (an xshell error) and of `InvalidCommit` (a `CommitHashError`) is not kept. `ParseDate` carries no reason, since only one is reachable. The exit status that `Git`'s message includes is folded into the output's `success`.
- chrono's `DateTime::from_timestamp`: the date is kept as the number of seconds. Its out-of-range branch cannot occur for a `u32`.
- The Handlebars registry and `format_changelog`, and the HTML escape function the link helper applies last: library code.
- The parameter extraction of the three template helpers (`ParamNotFoundForIndex`, `InvalidParamType`): Handlebars plumbing. The helpers take their parameters directly.
- Template.Slice: character-boundary panics of `&content[start..end]` on multi-byte UTF-8 are not modelled. The content is a byte sequence.
- `main.rs` and `cli.rs` (argument parsing, reading files, printing the result): I/O around the core.
- Reading the input in the scripts (ARGF, stdin), `print`, and the JSON encoding of parse-targets.py: I/O. The scripts' inputs are the lines or the text, and their outputs are values.
- DirtyStatus.RubyStrip: takes Ruby's `strip` as removing null, tab, line feed, vertical tab, form feed, carriage return and space at both ends, as current Ruby documents.
- The `log` field of the changelog is always empty in the source and is kept empty; no order by date is modelled.
- The concrete multi-line commit texts of the repo_log.rs tests are not restated as literal strings. Their shape is covered by `RepoLog.ParseWellFormed`, `RepoLog.MissingTitle` and `RepoLog.ParseWithoutBody`, and their dates and hashes by `RepoLog.TestDates` and `Snapshot.TestHashes`.

## Findings

| source | as written | input that shows it | evidently intended | confidence | as-written member | corrected member |
|---|---|---|---|---|---|---|
| changelog-generator/src/changelog.rs:88 | `target_repos` is collected from `orig.repos`, so it equals `orig_repos` | an original snapshot `{a}` and a target `{a, b}`: `b` is never listed as added; an original `{a, b}` and a target `{a}`: the changed filter indexes `target.repos["b"]` and panics | `target_repos` collected from `target.repos` | high (not executed) | Changelog.LiteralKeysHideAddedAndRemoved | Changelog.IntendedClassification |
| changelog-generator/src/template.rs:99 | the end is clamped to `len - 1`, so the last byte is never output | `slice 0 3 "abc"` writes `ab` | the end clamped to `len` | medium (not executed) | Template.SliceDropsLastByte | Template.SliceCorrectedSpec |

The as-written members show the problem:
- `Changelog.LiteralKeysFailOnRemoval` shows the failure of removal.
- `Template.SliceOfAbc` shows both slices side by side.

The corrected definitions are `Changelog.GenerateCorrected` and `Template.SliceCorrected`. They are proved to behave as intended:
- `Changelog.IntendedClassification` and `Changelog.IntendedNeverPanicsOnIndex` for the changelog.
- `Template.SliceCorrectedSpec` for the slice.

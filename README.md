# mdb-code-insights: the commit-log parser and the query pipelines, in Dafny

mdb-code-insights loads a git repository's history into a MongoDB collection.
It then answers four questions with aggregation pipelines:
- the average number of files per commit, per author;
- which files change together with a given file;
- who changes a given file;
- which files change most.

This project models the three parts of that program that are pure logic once
the git and MongoDB calls are taken away:

- **The `Load` parser** (`src/main.rs`). It reads the lines of
  `git log --numstat --date=short --pretty=format:"--%h--%cd--%aN--%s" --no-renames`
  and folds them into `GitCommit` records.
  - A non-blank line starting with `--` is a header. Its `--`-separated
    pieces 1 to 4 are the hash, date, author and summary.
  - Any other non-blank line after a header is a numstat line: added,
    deleted, path.
  - Blank lines are skipped.
  - Dates go through `iso_date_to_datetime` (midnight UTC).
  - The loop is the method `LogParser.ScanLines`. It is proved against the
    fold `LogParser.RunFrom`, which applies one loop pass (`LogParser.Step`)
    per line. The loop body is the method `LogParser.ScanLine`, proved equal
    to `Step`.
  - The program's panics become `Failure` results, raised in the program's
    order of evaluation: an index past the end of a split line, or `unwrap`
    on a bad date.
- **The pipeline builders** (`src/db.rs`): `create_filter`, `file_activity`,
  `file_per_commit`, `file_coupling` and `file_ownership`. Each BSON stage
  document is a value of the datatype `Pipeline.Stage`. The builders return
  the ordered list of stages.
- **The duplicate-key rule of `insert_commits`** (`src/db.rs`). It is a
  function of the result `insert_many` returned.

The modules follow the program's structure:
- `Text`: the pieces of Rust's string library the parser uses;
- `Dates`: `iso_date_to_datetime`;
- `Commits`: the record types;
- `LogParser`: the `Load` loop;
- `LogFormat`: the log text of a list of commits, which the parse inverts;
- `Pipeline`: the query builders;
- `Insert`: the insert rule;
- `Wrappers`: `Option` and `Result`.

Four behaviours of the code are easy to mistake:
- The last commit of a log is never stored: nothing pushes the commit in
  progress once the lines run out (src/main.rs:69-97; see Findings).
- A header date with a time part, such as `2024-01-01T00:00:00Z`, fails
  the `%Y-%m-%d` parse and makes the load panic (src/main.rs:155;
  `Dates.TimePartRejected`).
- A numstat path holding a space, which git prints unquoted, is cut at the
  space: the file name is the path's first word (src/main.rs:87-92;
  `LogFormat.PathWithSpaceCut`).
- `file_ownership` neither unwinds `files` nor leaves out its date clause
  when no since-date is given (src/db.rs:182-196; see Findings).

## Model

| member | source | states |
|---|---|---|
| Text.Trim | src/main.rs:71 | `trim` keeps a contiguous part of the line that neither starts nor ends with whitespace; `trim_start` and `trim_end` remove only whitespace |
| Text.BlankIsTrimEmpty | src/main.rs:71 | `trim().is_empty()` holds exactly when every character of the line is Unicode whitespace (`Text.IsBlank`) |
| Text.SplitMarker | src/main.rs:78 | `split("--")` always gives at least one piece, even for an empty line; its pieces are pinned down by `Text.SplitMarkerCharacterised` |
| Text.SplitPieces | src/main.rs:78 | no piece of `split("--")` holds `--`, and no piece but the last ends in a dash, because matching is leftmost and non-overlapping (`a---b` gives `a` and `-b`) |
| Text.SplitMarkerCharacterised | src/main.rs:78 | a list of pieces is the result of `split("--")` exactly when the pieces join back with `--` to the line and none holds `--` or, except the last, ends in a dash |
| Text.JoinSplit | src/main.rs:78 | splitting a line on `--` loses nothing: joining the pieces back with `--` gives the line |
| Text.SplitJoin | src/main.rs:78 | pieces without `--`, all but the last without a trailing dash, are recovered exactly by joining then splitting |
| Text.ThreeTokens | src/main.rs:87 | three non-empty words separated by one ASCII whitespace character each are exactly the three tokens of `split_ascii_whitespace` |
| Text.AsciiTokens | src/main.rs:87 | every token of `split_ascii_whitespace` is non-empty and free of ASCII whitespace; which tokens a line has is fixed for every line by `Text.AsciiTokensCharacterised` |
| Text.TokensOfInterleaving | src/main.rs:87 | a line made of words (non-empty, no ASCII whitespace) with ASCII-whitespace runs between them, non-empty between two words and optional before the first and after the last, has exactly those words as its tokens, in order |
| Text.LineIsInterleaving | src/main.rs:87 | every line is such a layout of its own tokens: the tokens are its maximal non-whitespace runs, and only ASCII whitespace lies between and around them |
| Text.AsciiTokensCharacterised | src/main.rs:87 | for every line and every list of strings, the list is the tokens of the line exactly when the line lays the list out with ASCII-whitespace separators as above |
| Text.ParseU64 | src/main.rs:89-90 | `u64::from_str` accepts only an optional `+` followed by digits, at least one; a string of digits is accepted exactly when its value is below 2^64, and then gives that value |
| Text.ParseU64SignAndZeros | src/main.rs:89-90 | one leading `+` and a leading zero leave the value unchanged; a second sign is an error |
| Text.ParseU64Overflow | src/main.rs:89-90 | 2^64 - 1 parses and 2^64 overflows to an error, so its count becomes 0 |
| Text.ParseU64OrZero | src/main.rs:89-90 | `parse().unwrap_or_default()` is the `u64` value when the token parses and 0 when it does not |
| Text.ParseDecimalString | src/main.rs:89-90 | every `u64` parses back from its decimal rendering |
| Text.DashDoesNotParse | src/main.rs:89-90 | git's `-` for binary files, the empty string and a lone `+` are not numbers, so the count is 0 |
| Dates.ParseDate | src/main.rs:155-156 | an accepted date is a real calendar day with a year of at most four digits |
| Dates.ParseFormatDate | src/main.rs:155-156 | every valid date is accepted from its `YYYY-MM-DD` rendering and read back unchanged |
| Dates.ParsedDateIsCanonical | src/main.rs:155-156 | a string that is accepted is exactly the rendering of the date returned |
| Dates.IsoDateToDateTime | src/main.rs:153-160 | the result is the date the string spells at 00:00:00 UTC; no result (the panic) exactly when no valid date is spelled that way |
| Dates.TimePartRejected | src/main.rs:155-156 | a timestamp with a time part and 30 February are rejected, not defaulted |
| LogParser.Classify | src/main.rs:71-72 | a line is blank exactly when it is whitespace only, a header exactly when it is not blank and its first two characters are `--` (checked before any trimming), and a numstat line otherwise |
| LogParser.ClassifyEdges | src/main.rs:71-72 | `--` alone is a header, an indented header is a numstat line, whitespace is blank, and git's binary-file line `-\t-\tpath` is a numstat line |
| LogParser.ParseHeader | src/main.rs:78-85 | a header succeeds iff splitting on `--` gives at least five pieces and piece 2 is a date; pieces 1, 3, 4 are hash, author and summary, so a summary is cut at its first `--`; a bad date is reported before a missing field |
| LogParser.ParseNumstat | src/main.rs:87-92 | a numstat line succeeds iff it has at least three tokens; added and deleted are the `u64` values of tokens 0 and 1, or 0; the file name is exactly token 2 |
| LogParser.NumstatOfLayout | src/main.rs:87-92 | whatever ASCII whitespace surrounds or separates the fields of a numstat line with at least three words, the change is read from its first three words and any further words are dropped |
| LogParser.Step | src/main.rs:71-93 | one pass of the loop body fails exactly on a header that does not parse or on a numstat line with too few tokens once a commit is in progress; emitted commits are never changed, at most one is added, and only a header adds one or replaces the commit in progress (the cases are spelled out by `BlankLineIsNoOp`, `HeaderEmitsCurrent` and `NumstatExtendsCurrent`) |
| LogParser.RunFrom | src/main.rs:69-95 | the loop over the lines, stopping at the first failure, only ever appends to `commit_list`, at most one commit per line |
| LogParser.ScanLine | src/main.rs:70-93 | the loop body on one line, updating the three variables branch by branch, computes exactly one `Step`: the same new state or the same panic |
| LogParser.ScanLines | src/main.rs:66-95 | the loop with `commit_list`, `current_commit` and `file_list` computes the fold of the loop body over the lines, stopping at the first failing line |
| LogParser.StepKeepsHeaderOrder | src/main.rs:72-93 | one pass of the loop body appends the line's hash (a header's piece 1, nothing for other lines) after the hashes emitted or in progress, and keeps the accumulator empty while no commit is in progress |
| LogParser.RunKeepsHeaderOrder | src/main.rs:69-95 | after any successful prefix, the hashes of the emitted commits followed by the one in progress are the header hashes in input order; with no header yet nothing is emitted or accumulated |
| LogParser.ParseLog | src/main.rs:66-97 | with h header lines the load yields h - 1 commits (0 if h = 0), in header order: the commit of the last header is never pushed |
| LogParser.ParseLogFlushed | src/main.rs:66-97 | with the end-of-stream push added, every header yields one commit, in order |
| LogParser.BlankLineIsNoOp | src/main.rs:71 | a blank or whitespace-only line leaves the state unchanged |
| LogParser.BlankLinesIgnored | src/main.rs:69-71 | removing every blank line from the input does not change the outcome |
| LogParser.HeaderEmitsCurrent | src/main.rs:72-85 | on a header the commit in progress is emitted with exactly the changes accumulated since its header, the new header's commit replaces it and the accumulator is emptied |
| LogParser.NumstatExtendsCurrent | src/main.rs:86-93 | a numstat line before any header is ignored; after a header it appends its change and emits nothing; a line with too few tokens is a failure |
| LogParser.LeadingLinesIgnored | src/main.rs:86 | non-header lines before the first header do not affect the result |
| LogFormat.HeaderLineParses | src/main.rs:72-85 | the `--%h--%cd--%aN--%s` line of a commit is a header and parses back to the commit without files |
| LogFormat.NumstatLineTokens | src/main.rs:87 | the tokens of a commit's numstat line are its added count, its deleted count and its path |
| LogFormat.NumstatLineParses | src/main.rs:86-92 | the numstat line of a file change is a numstat line and parses back to that change |
| LogFormat.PathWithSpaceCut | src/main.rs:87-92 | the numstat line of a change whose path is two words separated by a space parses back to a change named by the first word only |
| LogFormat.NumstatLinesAccumulate | src/main.rs:86-92 | while a commit is in progress, its numstat lines append exactly their changes, in order |
| LogFormat.CommitLinesRun | src/main.rs:72-92 | one commit's block emits the commit in progress and leaves the block's commit in progress with its changes |
| LogFormat.LogLinesState | src/main.rs:66-95 | after the log of n >= 1 commits, the first n - 1 are emitted and the last is in progress with its changes |
| LogFormat.LastCommitDropped | src/main.rs:69-97 | as written, the log of n >= 1 commits loads only the first n - 1 |
| LogFormat.FlushedRoundTrip | src/main.rs:66-97 | with the flush, parsing the log of any list of representable commits gives the list back |
| LogFormat.EmptyCommitKept | src/main.rs:73-77 | a commit with no file changes is emitted with an empty file list, not dropped |
| Pipeline.Filter | src/db.rs:224-237 | the date stage is present iff a since-date is given and comes first; the unwind is always present, exactly once, right after it; the `^prefix` regex stage is present iff a prefix is given and comes last; the length is 1 plus one per option given |
| Pipeline.CreateFilter | src/db.rs:224-237 | the stages pushed one by one are exactly the shared filter |
| Pipeline.FileActivity | src/db.rs:198-209 | the pipeline is the shared filter followed by a count per file name; every per-file stage comes after the unwind, and no date is compared with null |
| Pipeline.ActivityWellFormed | src/db.rs:203-206 | for every since-date and prefix, the activity pipeline unwinds before any per-file stage and compares no date with null |
| Pipeline.SinceOmittedNotNeutralised | src/db.rs:226-228 | without a since-date the pipeline is the dated one minus its first stage, not one with an always-true filter |
| Pipeline.PrefixAnchored | src/db.rs:231-234 | the prefix stage's pattern is `^` followed by the prefix unescaped |
| Pipeline.FilePerCommit | src/db.rs:121-139 | three stages: the per-commit file count, a group by author that averages that field and counts commits, and a descending sort on the average |
| Pipeline.CouplingFacet | src/db.rs:161-176 | the facet counts the matching commits and ranks the other files they touch, after an unwind and the exclusion of the target |
| Pipeline.FileCoupling | src/db.rs:141-180 | two stages: a match on the file, with the date clause present iff a since-date is given, then the facet; no date is compared with null |
| Pipeline.FileOwnership | src/db.rs:182-196 | as written, two stages: a match on the file that always carries `date > since`, then a count per author; no unwind; a null comparison iff no since-date is given |
| Pipeline.OwnershipComparesWithNull | src/db.rs:187-191 | without a since-date, the ownership match compares the date with null, where the coupling match has no date clause |
| Pipeline.FileOwnershipCorrected | src/db.rs:182-196 | corrected: the date clause is present iff a since-date is given, and no date is compared with null |
| Pipeline.OwnershipCorrectedAgrees | src/db.rs:187-191 | the correction shares the coupling match and changes nothing when a since-date is given |
| Insert.AnyNotDuplicate | src/db.rs:110 | true iff some write failure has a code other than 11000 |
| Insert.InsertCommits | src/db.rs:101-119 | success iff the insert succeeded or failed with a bulk-write error whose failure list is present and all 11000; otherwise the original error, unchanged |
| Insert.InsertCommitsEdges | src/db.rs:107-118 | an empty failure list is success; a missing list propagates; one non-duplicate failure among duplicates propagates the whole error |
| Insert.VerdictIgnoresDuplicates | src/db.rs:109-113 | adding or removing a duplicate-key failure never changes the verdict; adding any other failure makes it an error |

## Left out

- `GitProxy::log` (src/git.rs:16-22) runs git as a subprocess. The parser takes the lines as a parameter, with their line terminators already removed. The `unwrap` on a line that is not valid UTF-8 is not modelled.
- `Config::from_yaml_file`, `MongoInstance::new`, `create_indexes`, the `insert_many` call itself and `aggregate` are file and network I/O. Only the stage lists and the error decision are modelled, not how MongoDB runs a pipeline or stores a document.
- The uniqueness of the `commit` index, and the fact that re-loading the same commits leaves the collection unchanged, are properties of the store and are not modelled.
- Command-line parsing, `main`, the `Instant` timings and all printing are left out. So are the report arms of `execute`: their percentages use `f64`, and `total_commits[0]` indexes opaque query results.
- Dates.ParseDate: stricter than chrono's `%Y-%m-%d`. Chrono also accepts one- to three-digit years, signed years of any length, and one-digit months and days; here exactly `YYYY-MM-DD` with a year up to 9999 is accepted. git's `--date=short` always prints that form.
- Stages are typed values, not BSON documents. The BSON encoding of `DateTime`, the key order inside a document and the regex engine are left out; a regex is an uninterpreted string.
- Insert.InsertCommits: a write failure keeps only its index and code. The driver's message and details are dropped, and the `i32` code is an unbounded integer, which the comparison with 11000 does not need.
- `commit.clone()` and the moves of `file_list` are value copies here.

## Findings

| source | as written | input that shows it | evidently intended | confidence | as-written member | corrected member |
|---|---|---|---|---|---|---|
| src/main.rs:69-97 | after the `for` loop nothing pushes `current_commit`, so the commit of the last header never reaches `commit_list` | any log with at least one commit; the single line `--abc1234--2024-01-01--Ann--init` loads 0 commits | push the commit in progress, with its accumulated files, once the lines run out | high; not executed | LogFormat.LastCommitDropped | LogFormat.FlushedRoundTrip |
| src/db.rs:187-191 | the ownership `$match` always holds `"date": {"$gt": since_date}`, which is `{"$gt": null}` when no since-date is given | `file-ownership --filename F` without `--since` | leave the date clause out when there is no since-date, as `file_coupling` does (src/db.rs:146-157) | medium: in MongoDB a `$gt` against null matches no dated document, so the query would report no owners; not executed | Pipeline.OwnershipComparesWithNull | Pipeline.FileOwnershipCorrected |

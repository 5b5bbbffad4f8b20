# HotSpotter history mining, in Dafny

HotSpotter is a Java service. It clones a Git repository, reads the output of
`git log --numstat` into commits, and runs a set of analyzers over those
commits. The analyzers report who knows each file, who owns it, how old and
how busy it is, how active each author is, and how activity changes day by
day. The service then turns the results into a tree of directories and files
for display. It also parses repository URLs, reports clone progress, manages
the JWT cookie used for login, and drives SonarQube analyses.

This project models that core as immutable datatypes and pure functions,
and proves properties of the model.

- `commits.dfy`, `log_grammar.dfy`, `log_parser.dfy`, `renames.dfy` and
  `log_round_trip.dfy` cover reading the log:
  - `FileChange` and `Commit`;
  - hand-written matchers for the header and numstat regular expressions;
  - grouping lines into blocks, and the pull-based `CommitIterator` with a
    read error as an input;
  - the two rename notations, `old => new` and `a/{b => c}/d`, and path
    normalisation;
  - a renderer for the log text, with a round-trip theorem:
    parsing rendered commits gives the commits back.
- `contributions.dfy`, `ranking.dfy`, `knowledge.dfy` and `ownership.dfy`
  cover per-file, per-author contributions:
  - the knowledge analyzer in both its generations (modules `Knowledge` and
    `LegacyKnowledge`);
  - the ownership analyzer;
  - the stable descending sort of contributors;
  - knowledge-loss percentages.
- `authors.dfy`, `file_info.dfy` and `activity_trends.dfy` cover the
  authors, file-information and activity-trends analyzers, together with
  their contexts, records and finishing and enriching steps.
  `file_info.dfy` includes the parser for the rows of `cloc` output.
- `batches.dfy` covers saving results in batches. The store is the returned
  sequence of batches.
- `repository_structure.dfy` covers the `RepositoryStructureService` tree:
  - directories are created on demand;
  - file nodes get widths and heights scaled to the largest file;
  - directories receive aggregated statistics.
- `dates.dfy` covers the parts of `java.time.LocalDate` the analyzers use:
  `plusDays(1)`, `minusMonths`, `isBefore`, `ChronoUnit.DAYS`/`MONTHS.between`,
  and ISO parsing and formatting.
- `url_parsers.dfy` covers both `RepositoryUrlParser` classes.
- `progress_monitor.dfy` covers `ProcessProgressMonitor`. Its log lines are
  returned as a sequence.
- `cookies.dfy` covers `CookieUtil`. Cookies added to the response are
  returned as a sequence.
- `sonar_state.dfy`, `sonar_service.dfy` and `sonar_results.dfy` cover
  `SonarAnalysisState`, the decision logic of `SonarService`, and the paging
  and field extraction of `SonarResultDownloader`.
- `java_lang.dfy` holds the Java library behaviour the code relies on:
  - `Option` for `null` and `Result` for exceptions;
  - 32-bit `int` wrap-around;
  - truncating division;
  - `String.trim`, `toUpperCase`, `split` with and without a limit,
    `replace`;
  - `Integer.parseInt`.

Values the program takes from its surroundings become parameters:
- the clock (`LocalDate.now()`, `System.currentTimeMillis()`);
- the set of files Git still tracks;
- the lines `cloc` prints;
- the HTTP answers of SonarQube;
- the latest stored Sonar status for a key;
- whether the project directory exists, and whether a SonarQube connection
  can be prepared;
- `java.net.URI` parsing of an origin;
- `Double.parseDouble`;
- the `Math.exp` height curve.

`HashMap` iteration order is an explicit `order` sequence that enumerates
the map's keys. Percentages and other `double` values are exact reals.

Some behaviour of the code is easy to miss. The model keeps it:
- **Repository names ending in `.git`.** The lookahead in the HTTPS URL
  pattern rejects only a name tail that is exactly `.git`. So
  `https://github.com/owner/.git.git` is accepted, with the repository name
  `.git` (`RepositoryUrls.DotGitName`).
- **The Sonar start time.** The analysis start time is read as optional and
  null-checked. The model keeps it optional, and a launched analysis records
  the current time.
- **The page-size clamp.** `fetchPaged` clamps the page size to what remains
  below 10000 results. The clamp never applies, because 10000 is a multiple
  of 500 (`SonarResults.PageSizeFor`).
- **Shared contribution context.** One context shape serves three analyzers:
  the file-analysis `KnowledgeAnalyzerContext`, the `OwnershipAnalyzerContext`
  and the repository-analysis knowledge context. They are all modelled by
  `Contributions.Context`, a map from file path to author name to
  `AuthorContribution` counters. The ownership analyzer also passes the
  commit's e-mail when it records a contribution. The model does not keep it
  (see "Left out").
- **Lombok `@Builder` and `children`.** A `RepositoryStructureNode` built
  through Lombok's `@Builder` has a null `children` list despite the field
  initializer. The first `addChild` creates the list, and the model keeps
  that distinction (`NullList`).
- **A null line in `extractTextRange`.** The method reads a null line as the
  text `"null"`, which does not parse, so the range is 0.
- **Finish, then enrich.** The authors analyzer's finish step finishes the
  statistics objects the context holds. The enrich step then saves those same
  objects again with the lead counts added. `Authors.FinishContext` is that
  finished context, and `Authors.FinishThenEnrich` states what is saved last.

## Model

| member | source | states |
|---|---|---|
| Commits.Unrenamed | src/main/java/pwr/zpi/hotspotter/repositoryanalysis/logparser/model/FileChange.java:5-7 | the three-argument constructor keeps path and counts and yields a change that is not a rename |
| Commits.WithFilePathChange | src/main/java/pwr/zpi/hotspotter/repositoryanalysis/logparser/model/FileChange.java:9-15 | path and counts are kept, the rename paths replaced; the result is a rename exactly when both paths are non-null |
| Commits.RenameOfUnrenamed | src/main/java/pwr/zpi/hotspotter/repositoryanalysis/logparser/model/FileChange.java:5-15 | a plain change given two rename paths is a rename exposing exactly those paths, all else equal |
| Commits.CommitDate | src/main/java/pwr/zpi/hotspotter/repositoryanalysis/logprocessing/model/Commit.java:14-16 | the commit date text read as an ISO local date is a valid calendar date |
| LogGrammar.Hash | src/main/java/pwr/zpi/hotspotter/repositoryanalysis/logprocessing/LogParser.java:23 | the captured hash is non-empty and holds no ']' |
| LogGrammar.DateText | src/main/java/pwr/zpi/hotspotter/repositoryanalysis/logprocessing/LogParser.java:24 | the captured date has the shape of four, two and two digits joined by '-' |
| LogGrammar.Author | src/main/java/pwr/zpi/hotspotter/repositoryanalysis/logprocessing/LogParser.java:25 | the captured author is non-empty and holds no '<' |
| LogGrammar.Email | src/main/java/pwr/zpi/hotspotter/repositoryanalysis/logprocessing/LogParser.java:25 | the captured email is non-empty and holds no '>' |
| LogGrammar.MatchHeaderAt | src/main/java/pwr/zpi/hotspotter/repositoryanalysis/logprocessing/LogParser.java:22-26 | a header match found at a position is a match of the header pattern there |
| LogGrammar.MatchHeaderAtComplete | src/main/java/pwr/zpi/hotspotter/repositoryanalysis/logprocessing/LogParser.java:22-26 | every match of the header pattern at a position is the one found there |
| LogGrammar.FindHeader | src/main/java/pwr/zpi/hotspotter/repositoryanalysis/logprocessing/LogParser.java:165-166 | `find` returns a header match at or after the start position |
| LogGrammar.FindHeaderLeftmost | src/main/java/pwr/zpi/hotspotter/repositoryanalysis/logprocessing/LogParser.java:165-166 | that match is the leftmost one, and no match is returned only when none exists |
| LogGrammar.CountEnd | src/main/java/pwr/zpi/hotspotter/repositoryanalysis/logprocessing/LogParser.java:28 | a count group is one or more digits read greedily, or a single '-' |
| LogGrammar.MatchNumstatAt | src/main/java/pwr/zpi/hotspotter/repositoryanalysis/logprocessing/LogParser.java:27-29 | a numstat match found at a position is a match of the file-change pattern there |
| LogGrammar.MatchFileAt | src/main/java/pwr/zpi/hotspotter/repositoryanalysis/logprocessing/LogParser.java:28 | the file group is the longest run without a line feed after the whitespace |
| LogGrammar.FindNumstat | src/main/java/pwr/zpi/hotspotter/repositoryanalysis/logprocessing/LogParser.java:184-186 | `find` returns a file-change match at or after the start position |
| LogGrammar.FindNumstatLeftmost | src/main/java/pwr/zpi/hotspotter/repositoryanalysis/logprocessing/LogParser.java:184-186 | that match is the leftmost one, and no match is returned only when none exists |
| LogGrammar.ParseNumberOfLines | src/main/java/pwr/zpi/hotspotter/repositoryanalysis/logprocessing/LogParser.java:198-204 | a count reads as its decimal value; '-' and a value beyond the int range read as 0 |
| LogParser.ToFileChange | src/main/java/pwr/zpi/hotspotter/repositoryanalysis/logprocessing/LogParser.java:187-191 | a matched line becomes a change whose path is the trimmed file group and whose counts are the parsed, non-negative counts |
| LogParser.NumstatMatches | src/main/java/pwr/zpi/hotspotter/repositoryanalysis/logprocessing/LogParser.java:184-186 | every match the `find` loop visits is a file-change match at or after the start |
| LogParser.MatchesInOrder | src/main/java/pwr/zpi/hotspotter/repositoryanalysis/logprocessing/LogParser.java:186 | successive `find` matches do not overlap and come in text order |
| LogParser.FileChangesFrom | src/main/java/pwr/zpi/hotspotter/repositoryanalysis/logprocessing/LogParser.java:186-193 | one change per visited match, in match order |
| LogParser.ParseFileChanges | src/main/java/pwr/zpi/hotspotter/repositoryanalysis/logprocessing/LogParser.java:180-196 | a blank files block has no changes; every change has non-negative counts |
| LogParser.ParseBlock | src/main/java/pwr/zpi/hotspotter/repositoryanalysis/logprocessing/LogParser.java:164-178 | a parsed commit carries the header groups with their shapes (non-empty hash, author and email, dated digits) |
| LogParser.ParseBlockNone | src/main/java/pwr/zpi/hotspotter/repositoryanalysis/logprocessing/LogParser.java:164-166 | a block yields no commit exactly when no header matches anywhere in it |
| LogParser.Group | src/main/java/pwr/zpi/hotspotter/repositoryanalysis/logprocessing/LogParser.java:108-126 | non-blank lines gather into non-empty blocks, a '[' line opening the next one |
| LogParser.CompleteBlocks | src/main/java/pwr/zpi/hotspotter/repositoryanalysis/logprocessing/LogParser.java:141-146 | an I/O error loses only the block pending at the time |
| LogParser.CommitsOf | src/main/java/pwr/zpi/hotspotter/repositoryanalysis/logprocessing/LogParser.java:113-116 | blocks without a header are skipped, so there are never more commits than blocks |
| LogParser.Close | src/main/java/pwr/zpi/hotspotter/repositoryanalysis/logprocessing/LogParser.java:149-161 | closing marks the iterator closed and leaves everything else |
| LogParser.CloseIdempotent | src/main/java/pwr/zpi/hotspotter/repositoryanalysis/logprocessing/LogParser.java:150-151 | a second `close` changes nothing |
| LogParser.CacheNextCommit | src/main/java/pwr/zpi/hotspotter/repositoryanalysis/logprocessing/LogParser.java:100-147 | afterwards a commit is cached exactly when `hasNext` says so; a closed iterator has none; without a commit the iterator is closed |
| LogParser.ReadLines | src/main/java/pwr/zpi/hotspotter/repositoryanalysis/logprocessing/LogParser.java:107-139 | the reading loop either caches a commit or closes the iterator with none cached, consuming input as it goes |
| LogParser.Open | src/main/java/pwr/zpi/hotspotter/repositoryanalysis/logprocessing/LogParser.java:78-83 | a new iterator is consistent: a commit is cached whenever `hasNext` holds |
| LogParser.Next | src/main/java/pwr/zpi/hotspotter/repositoryanalysis/logprocessing/LogParser.java:90-98 | `next` fails exactly when `hasNext` is false and otherwise returns the cached commit and an iterator that owes strictly less |
| LogParser.ReadLinesOwed | src/main/java/pwr/zpi/hotspotter/repositoryanalysis/logprocessing/LogParser.java:100-147 | one call of the reading loop yields the first commit owed by the remaining blocks and leaves the rest owed |
| LogParser.IteratorYieldsParseLog | src/main/java/pwr/zpi/hotspotter/repositoryanalysis/logprocessing/LogParser.java:70-178 | the iterator yields exactly the commits of the log read block by block |
| LogParser.DrainFrom | src/main/java/pwr/zpi/hotspotter/repositoryanalysis/logprocessing/LogParser.java:90-98 | after a commit is cached, the remaining `next` calls yield it followed by what is owed |
| LogParser.ParseLog | src/main/java/pwr/zpi/hotspotter/repositoryanalysis/logprocessing/LogParser.java:100-178 | reading a log yields at most one commit per blank-line-separated block |
| LogParser.Drain | src/main/java/pwr/zpi/hotspotter/repositoryanalysis/logprocessing/LogParser.java:85-98 | the `next` calls yield nothing exactly when `hasNext` is false, start with the cached commit, and stop within the iterator's measure |
| LogRoundTrip.GroupAll | src/main/java/pwr/zpi/hotspotter/repositoryanalysis/logprocessing/LogParser.java:108-126 | the lines git writes for a list of commits group into exactly one block per commit |
| LogRoundTrip.HeaderTextMatches | src/main/java/pwr/zpi/hotspotter/repositoryanalysis/logprocessing/LogParser.java:22-26 | the header line git writes for a well-formed commit matches the header pattern over its whole length |
| LogRoundTrip.ParseBlockRoundTrip | src/main/java/pwr/zpi/hotspotter/repositoryanalysis/logprocessing/LogParser.java:164-178 | the block git writes for a well-formed commit parses back to that commit |
| LogRoundTrip.TrimBetween | src/main/java/pwr/zpi/hotspotter/repositoryanalysis/logprocessing/LogParser.java:174 | `trim` drops exactly the surrounding characters at or below U+0020 |
| LogRoundTrip.FilesRoundTrip | src/main/java/pwr/zpi/hotspotter/repositoryanalysis/logprocessing/LogParser.java:174-175 | the numstat lines of a block, trimmed, parse back to the commit's changes in order |
| LogRoundTrip.NumstatRun | src/main/java/pwr/zpi/hotspotter/repositoryanalysis/logprocessing/LogParser.java:184-193 | the `find` loop over joined numstat lines visits one match per line, each reading as its change |
| LogRoundTrip.ReadBack | src/main/java/pwr/zpi/hotspotter/repositoryanalysis/logprocessing/LogParser.java:187-191 | the groups of a written numstat line convert back to its change |
| LogRoundTrip.CommitsOfPrefix | src/main/java/pwr/zpi/hotspotter/repositoryanalysis/logprocessing/LogParser.java:113-116 | the first k blocks of a written log read back as its first k commits |
| LogRoundTrip.ParseLogRoundTrip | src/main/java/pwr/zpi/hotspotter/repositoryanalysis/logprocessing/LogParser.java:100-178 | reading the text git writes gives back every commit, in order |
| LogRoundTrip.ParseLogLosesLast | src/main/java/pwr/zpi/hotspotter/repositoryanalysis/logprocessing/LogParser.java:141-146 | when reading fails after the last line, exactly the last commit is lost |
| LogRoundTrip.GroupRendered | src/main/java/pwr/zpi/hotspotter/repositoryanalysis/logprocessing/LogParser.java:108-135 | a written log groups into one block per commit from an empty start |
| LogRoundTrip.IteratorRoundTrip | src/main/java/pwr/zpi/hotspotter/repositoryanalysis/logprocessing/LogParser.java:70-162 | the lazy iterator opened on a written log yields every commit, in order |
| Renames.CollapseSlashes | src/main/java/pwr/zpi/hotspotter/repositoryanalysis/logprocessing/LogParser.java:252 | `/{2,}` → `/` leaves no doubled slash, keeps every other character in order and keeps the first and last characters |
| Renames.CollapseKeeps | src/main/java/pwr/zpi/hotspotter/repositoryanalysis/logprocessing/LogParser.java:252 | a path without doubled slashes is left alone by the replacement |
| Renames.NormalizePath | src/main/java/pwr/zpi/hotspotter/repositoryanalysis/logprocessing/LogParser.java:251-253 | a normalized path has no doubled slash and no trimmable character at either end |
| Renames.NormalizeIdempotent | src/main/java/pwr/zpi/hotspotter/repositoryanalysis/logprocessing/LogParser.java:251-253 | normalizing twice is normalizing once |
| Renames.FirstSep | src/main/java/pwr/zpi/hotspotter/repositoryanalysis/logprocessing/LogParser.java:31 | the lazy `[^{}]*?` stops at the first `\s=>\s` |
| Renames.FullRename | src/main/java/pwr/zpi/hotspotter/repositoryanalysis/logprocessing/LogParser.java:30-32 | the full pattern matches exactly a brace-free path holding a separator, and splits it at the first one |
| Renames.FirstBrace | src/main/java/pwr/zpi/hotspotter/repositoryanalysis/logprocessing/LogParser.java:34 | the `[^{}]` groups stop at the first brace |
| Renames.MatchEditAt | src/main/java/pwr/zpi/hotspotter/repositoryanalysis/logprocessing/LogParser.java:33-35 | a partial match found at a position is a `{old => new}` match there |
| Renames.MatchEditAtComplete | src/main/java/pwr/zpi/hotspotter/repositoryanalysis/logprocessing/LogParser.java:33-35 | every partial match at a position is the one found there |
| Renames.FindEdit | src/main/java/pwr/zpi/hotspotter/repositoryanalysis/logprocessing/LogParser.java:217-218 | `find` returns a partial match at or after the start |
| Renames.FindEditLeftmost | src/main/java/pwr/zpi/hotspotter/repositoryanalysis/logprocessing/LogParser.java:217-218 | that match is the leftmost, and none is returned only when none exists |
| Renames.Edits | src/main/java/pwr/zpi/hotspotter/repositoryanalysis/logprocessing/LogParser.java:225-240 | the `while (find())` loop visits a left-to-right run of non-overlapping partial matches |
| Renames.ChainTextIsSuffix | src/main/java/pwr/zpi/hotspotter/repositoryanalysis/logprocessing/LogParser.java:226-243 | the unchanged pieces and the matches together cover the rest of the path exactly |
| Renames.SidesAgreeOutsideEdits | src/main/java/pwr/zpi/hotspotter/repositoryanalysis/logprocessing/LogParser.java:222-243 | the old and new paths differ only inside the matches: when each match renames a text to itself, both sides agree |
| Renames.CheckForFilePathChange | src/main/java/pwr/zpi/hotspotter/repositoryanalysis/logprocessing/LogParser.java:206-249 | path and counts stay; a full rename wins, otherwise the partial matches rebuild both sides, otherwise the change is returned as it came |
| Renames.RenamedIffNotation | src/main/java/pwr/zpi/hotspotter/repositoryanalysis/logprocessing/LogParser.java:206-249 | a change is read as a rename exactly when its path carries one of the two notations |
| Renames.WholeRename | src/main/java/pwr/zpi/hotspotter/repositoryanalysis/logprocessing/LogParser.java:209-214 | `a => b` names `a` as the old path and `b` as the new one, both normalized |
| Renames.SegmentRename | src/main/java/pwr/zpi/hotspotter/repositoryanalysis/logprocessing/LogParser.java:217-248 | `pre{a => b}post` names pre+a+post as the old path and pre+b+post as the new one |
| Renames.SingleEditFound | src/main/java/pwr/zpi/hotspotter/repositoryanalysis/logprocessing/LogParser.java:228-240 | in a path with one brace pair, the loop meets that match first and nothing after it |
| Renames.OldPath | src/main/java/pwr/zpi/hotspotter/repositoryanalysis/logprocessing/LogParser.java:222-243 | each `{old => new}` match shortens the rebuilt old path by at least six characters |
| Renames.NewPath | src/main/java/pwr/zpi/hotspotter/repositoryanalysis/logprocessing/LogParser.java:222-243 | each `{old => new}` match shortens the rebuilt new path by at least six characters |
| Renames.CollapseShrinksRun | src/main/java/pwr/zpi/hotspotter/repositoryanalysis/logprocessing/LogParser.java:252 | a run of two slashes collapses exactly like a single slash |
| Renames.CollapseSameTail | src/main/java/pwr/zpi/hotspotter/repositoryanalysis/logprocessing/LogParser.java:252 | texts that collapse alike and end with the same character still collapse alike after any common continuation |
| Renames.NormalizeKeeps | src/main/java/pwr/zpi/hotspotter/repositoryanalysis/logprocessing/LogParser.java:251-253 | a path with no doubled slash and nothing to trim at either end is its own normal form |
| Renames.NormalizeShrinksRun | src/main/java/pwr/zpi/hotspotter/repositoryanalysis/logprocessing/LogParser.java:251-253 | a doubled slash normalizes like a single one |
| Contributions.NewContribution | src/main/java/pwr/zpi/hotspotter/fileanalysis/analyzer/ownership/model/AuthorContribution.java:16-27 | a new counter names its author and starts every count at zero |
| Contributions.IncreaseLinesAdded | src/main/java/pwr/zpi/hotspotter/fileanalysis/analyzer/ownership/model/AuthorContribution.java:29-31 | only the added-lines count grows, by the given lines |
| Contributions.IncrementCommits | src/main/java/pwr/zpi/hotspotter/fileanalysis/analyzer/ownership/model/AuthorContribution.java:33-35 | only the commit count grows, by one |
| Contributions.StartAnalysis | src/main/java/pwr/zpi/hotspotter/fileanalysis/analyzer/knowledge/KnowledgeAnalyzerContext.java:17-21 | a new context keeps its id and repository path and holds no contributions |
| Contributions.Current | src/main/java/pwr/zpi/hotspotter/fileanalysis/analyzer/knowledge/KnowledgeAnalyzerContext.java:26-29 | the counter for a pair is the stored one, or a fresh one named after the author |
| Contributions.RecordContribution | src/main/java/pwr/zpi/hotspotter/fileanalysis/analyzer/knowledge/KnowledgeAnalyzerContext.java:23-34 | the pair gains one commit and the added lines, starting from zero when new; every other path and author keeps its counter |
| Contributions.UpdateFilePath | src/main/java/pwr/zpi/hotspotter/fileanalysis/analyzer/knowledge/KnowledgeAnalyzerContext.java:36-46 | a null or blank new path drops the old entry; otherwise the old entry moves to the new path, replacing what was there; a missing old entry changes nothing |
| Contributions.MoveAndBack | src/main/java/pwr/zpi/hotspotter/fileanalysis/analyzer/knowledge/KnowledgeAnalyzerContext.java:36-46 | moving an entry to a free path and back restores the map |
| Contributions.ApplyChange | src/main/java/pwr/zpi/hotspotter/fileanalysis/analyzer/knowledge/KnowledgeAnalyzer.java:40-50 | each counter stays filed under its author's name |
| Contributions.ApplyChanges | src/main/java/pwr/zpi/hotspotter/fileanalysis/analyzer/knowledge/KnowledgeAnalyzer.java:40-50 | the same over a commit's changes in order |
| Contributions.ProcessCommit | src/main/java/pwr/zpi/hotspotter/fileanalysis/analyzer/knowledge/KnowledgeAnalyzer.java:35-51 | a null commit or context changes nothing; the analysis id and repository path never change |
| Contributions.RenameCarriesHistory | src/main/java/pwr/zpi/hotspotter/fileanalysis/analyzer/knowledge/KnowledgeAnalyzer.java:44-49 | a rename hands the old path's authors to the new path, replacing what was there, and adds the committer's commit |
| Contributions.PlainChangeLocal | src/main/java/pwr/zpi/hotspotter/fileanalysis/analyzer/knowledge/KnowledgeAnalyzer.java:41-49 | a change that is not a rename touches only its own path |
| Contributions.TallyChanges | src/main/java/pwr/zpi/hotspotter/fileanalysis/analyzer/knowledge/KnowledgeAnalyzer.java:40-50 | without renames, a commit adds to each path's counter one commit per change to it and the lines those changes add |
| Contributions.KeptEntries | src/main/java/pwr/zpi/hotspotter/fileanalysis/analyzer/knowledge/KnowledgeAnalyzer.java:60-62 | the `existingFiles` filter keeps, in order, only entries whose path exists |
| Contributions.KeptEntriesCover | src/main/java/pwr/zpi/hotspotter/fileanalysis/analyzer/knowledge/KnowledgeAnalyzer.java:60-62 | the kept entries are exactly the tracked paths that exist |
| Contributions.KeptDistinct | src/main/java/pwr/zpi/hotspotter/fileanalysis/analyzer/knowledge/KnowledgeAnalyzer.java:60-62 | the filter never repeats a path |
| Contributions.KeptHas | src/main/java/pwr/zpi/hotspotter/fileanalysis/analyzer/knowledge/KnowledgeAnalyzer.java:60-62 | every entry whose path exists is kept |
| Batches.ChunksFlatten | src/main/java/pwr/zpi/hotspotter/repositoryanalysis/util/AnalysisUtils.java:32-37 | the batches hold the input in order, each element once |
| Batches.ChunkShape | src/main/java/pwr/zpi/hotspotter/repositoryanalysis/util/AnalysisUtils.java:32-37 | every batch is non-empty and at most the batch size long, and all but the last are full |
| Batches.ChunksAtIsChunks | src/main/java/pwr/zpi/hotspotter/repositoryanalysis/util/AnalysisUtils.java:33-35 | walking by index in steps of the batch size gives the reference partition |
| Batches.SaveDataInBatches | src/main/java/pwr/zpi/hotspotter/repositoryanalysis/util/AnalysisUtils.java:23-38 | a batch size below 1 is an error; a missing repository or data saves nothing; otherwise the saved batches are the partition of the data |
| Batches.SaveDataInDefaultBatches | src/main/java/pwr/zpi/hotspotter/repositoryanalysis/util/AnalysisUtils.java:21-44 | the two-argument overload saves in batches of 500 |
| Batches.BufferedSave | src/main/java/pwr/zpi/hotspotter/fileanalysis/analyzer/ownership/OwnershipAnalyzer.java:56-85 | flushing a buffer whenever it reaches the limit, then the remainder, saves the same batches as the partition |
| Ranking.WithPercentages | src/main/java/pwr/zpi/hotspotter/repositoryanalysis/analyzer/knowledge/KnowledgeAnalyzer.java:129-135 | each counter gets its share of the total added lines in percent, 0 when the total is not positive, and nothing else changes |
| Ranking.PercentagesSumTo100 | src/main/java/pwr/zpi/hotspotter/repositoryanalysis/analyzer/knowledge/KnowledgeAnalyzer.java:121-135 | when the total is the sum of the added lines and positive, the percentages sum to exactly 100 |
| Ranking.PercentagesSum | src/main/java/pwr/zpi/hotspotter/repositoryanalysis/analyzer/knowledge/KnowledgeAnalyzer.java:129-135 | the percentages sum to the lines' share of the total |
| Ranking.Insert | src/main/java/pwr/zpi/hotspotter/repositoryanalysis/analyzer/knowledge/KnowledgeAnalyzer.java:136 | inserting adds exactly one element |
| Ranking.SortDesc | src/main/java/pwr/zpi/hotspotter/repositoryanalysis/analyzer/knowledge/KnowledgeAnalyzer.java:136 | sorting is a permutation of the input |
| Ranking.InsertSorted | src/main/java/pwr/zpi/hotspotter/repositoryanalysis/analyzer/knowledge/KnowledgeAnalyzer.java:136 | inserting into a descending list keeps it descending |
| Ranking.SortSorted | src/main/java/pwr/zpi/hotspotter/repositoryanalysis/analyzer/knowledge/KnowledgeAnalyzer.java:136 | the sorted list is in descending percentage order |
| Ranking.SortSums | src/main/java/pwr/zpi/hotspotter/repositoryanalysis/analyzer/knowledge/KnowledgeAnalyzer.java:121-137 | sorting keeps the line and commit totals |
| Ranking.PercentagesKeepSums | src/main/java/pwr/zpi/hotspotter/repositoryanalysis/analyzer/knowledge/KnowledgeAnalyzer.java:121-135 | attaching percentages keeps the line and commit totals |
| Ranking.WithPercentage | src/main/java/pwr/zpi/hotspotter/repositoryanalysis/analyzer/knowledge/KnowledgeAnalyzer.java:162 | the elements with a given percentage, each from the list |
| Ranking.InsertStable | src/main/java/pwr/zpi/hotspotter/repositoryanalysis/analyzer/knowledge/KnowledgeAnalyzer.java:136 | inserting keeps the order among elements of equal percentage, the new one first |
| Ranking.SortStable | src/main/java/pwr/zpi/hotspotter/repositoryanalysis/analyzer/knowledge/KnowledgeAnalyzer.java:136 | the sort is stable: elements of equal percentage keep their order |
| Ranking.MaxPercentage | src/main/java/pwr/zpi/hotspotter/repositoryanalysis/analyzer/knowledge/KnowledgeAnalyzer.java:156-159 | the largest percentage of the list, attained by an element, or 0 for an empty list |
| Ranking.MostCommits | src/main/java/pwr/zpi/hotspotter/repositoryanalysis/analyzer/knowledge/KnowledgeAnalyzer.java:163 | the `max` by commits: none exactly for an empty list, otherwise an element with the most commits |
| Ranking.LeadContribution | src/main/java/pwr/zpi/hotspotter/repositoryanalysis/analyzer/knowledge/KnowledgeAnalyzer.java:155-165 | no lead exactly when the top percentage is below 1; otherwise, among the contributors with the top percentage, the lead has the most commits and strictly more than every earlier one |
| Ranking.SameMax | src/main/java/pwr/zpi/hotspotter/repositoryanalysis/analyzer/knowledge/KnowledgeAnalyzer.java:156-159 | two lists with the same elements have the same maximum |
| Ranking.LeadIgnoresSort | src/main/java/pwr/zpi/hotspotter/repositoryanalysis/analyzer/knowledge/KnowledgeAnalyzer.java:136-139 | the lead chosen from the sorted list is the one chosen from the unsorted list |
| Ranking.NamesNear | src/main/java/pwr/zpi/hotspotter/fileanalysis/analyzer/ownership/OwnershipAnalyzer.java:170-173 | the names within 0.01 of the top percentage, each from the list |
| Ranking.LeadAuthors | src/main/java/pwr/zpi/hotspotter/fileanalysis/analyzer/ownership/OwnershipAnalyzer.java:163-174 | nobody exactly for an empty list or a first percentage below 1; otherwise the first contributor leads and every lead is within 0.01 of the first |
| Ranking.MostCommitsFiltered | src/main/java/pwr/zpi/hotspotter/repositoryanalysis/analyzer/knowledge/KnowledgeAnalyzer.java:161-164 | filtering by percentage and then taking the most commits is the one-pass reading |
| Ranking.TopMostCommitsChoice | src/main/java/pwr/zpi/hotspotter/repositoryanalysis/analyzer/knowledge/KnowledgeAnalyzer.java:161-164 | the one-pass reading finds nobody exactly when no contributor has the percentage, and otherwise the one with the most commits, strictly more than every earlier one with that percentage |
| Ranking.MostCommitsWithPercentage | src/main/java/pwr/zpi/hotspotter/repositoryanalysis/analyzer/knowledge/KnowledgeAnalyzer.java:161-164 | `filter(== p).max(comparingInt(getCommits))` picks the contributor with percentage p and the most commits, the earliest on a tie |
| Knowledge.CalculateFileKnowledge | src/main/java/pwr/zpi/hotspotter/repositoryanalysis/analyzer/knowledge/KnowledgeAnalyzer.java:118-153 | a row carries the totals of its counters, one contributor per counter, the counters with their percentages ranked in descending order, and the lead of the unranked list |
| Knowledge.RowPaths | src/main/java/pwr/zpi/hotspotter/repositoryanalysis/analyzer/knowledge/KnowledgeAnalyzer.java:55-56 | finish emits rows for the kept paths, in order |
| Knowledge.RowPathsCover | src/main/java/pwr/zpi/hotspotter/repositoryanalysis/analyzer/knowledge/KnowledgeAnalyzer.java:53-62 | finish emits exactly one row per tracked path of the map |
| Knowledge.FinishRowsContributors | src/main/java/pwr/zpi/hotspotter/repositoryanalysis/analyzer/knowledge/KnowledgeAnalyzer.java:55-62 | each row counts the authors recorded for its path |
| Knowledge.ListedCount | src/main/java/pwr/zpi/hotspotter/repositoryanalysis/analyzer/knowledge/KnowledgeAnalyzer.java:129 | a listing of a path's counters has one element per author |
| Knowledge.FinishAnalysis | src/main/java/pwr/zpi/hotspotter/repositoryanalysis/analyzer/knowledge/KnowledgeAnalyzer.java:50-69 | a null context saves nothing; otherwise every row is saved once, in order, in non-empty batches of at most 500, one row per tracked path of the map |
| Knowledge.CountActive | src/main/java/pwr/zpi/hotspotter/repositoryanalysis/analyzer/knowledge/KnowledgeAnalyzer.java:97-99 | no more active contributors than contributors |
| Knowledge.ActiveSplit | src/main/java/pwr/zpi/hotspotter/repositoryanalysis/analyzer/knowledge/KnowledgeAnalyzer.java:97-105 | every contributor is either active or inactive: the counts and the lines of the two groups add up to the totals |
| Knowledge.LineSumsBounded | src/main/java/pwr/zpi/hotspotter/repositoryanalysis/analyzer/knowledge/KnowledgeAnalyzer.java:102-105 | with non-negative counters, the lines of either group are non-negative |
| Knowledge.EnrichRow | src/main/java/pwr/zpi/hotspotter/repositoryanalysis/analyzer/knowledge/KnowledgeAnalyzer.java:83-109 | a row with no lines or no contributors gets loss 0; otherwise the active contributors are counted and the loss is the inactive authors' share of the lines in percent |
| Knowledge.LossIsPercentage | src/main/java/pwr/zpi/hotspotter/repositoryanalysis/analyzer/knowledge/KnowledgeAnalyzer.java:97-108 | for a consistent row the loss lies between 0 and 100 and the active contributors are at most all of them |
| Knowledge.Enrich | src/main/java/pwr/zpi/hotspotter/repositoryanalysis/analyzer/knowledge/KnowledgeAnalyzer.java:71-116 | every stored row is enriched, in order, and saved back |
| Knowledge.FinishedRowConsistent | src/main/java/pwr/zpi/hotspotter/repositoryanalysis/analyzer/knowledge/KnowledgeAnalyzer.java:118-153 | rows as finish builds them are consistent: the total is the sum of the ranked counters, one contributor each |
| LegacyKnowledge.LeadAuthor | src/main/java/pwr/zpi/hotspotter/fileanalysis/analyzer/knowledge/KnowledgeAnalyzer.java:202-213 | no lead exactly when the top percentage is below 1; otherwise the name of the top-percentage contributor with the most commits, the earliest on a tie |
| LegacyKnowledge.CalculateFileKnowledge | src/main/java/pwr/zpi/hotspotter/fileanalysis/analyzer/knowledge/KnowledgeAnalyzer.java:168-200 | the older analyzer agrees with the newer one on every field they share |
| LegacyKnowledge.FinishAnalysis | src/main/java/pwr/zpi/hotspotter/fileanalysis/analyzer/knowledge/KnowledgeAnalyzer.java:53-87 | nothing without a context or repository path; otherwise the buffered saves store every row once, in order, at most 500 at a time, one row per tracked path of the map |
| LegacyKnowledge.EnrichRow | src/main/java/pwr/zpi/hotspotter/fileanalysis/analyzer/knowledge/KnowledgeAnalyzer.java:101-122 | only the loss changes: 0 for a row with no lines or no contributors, otherwise the inactive authors' share |
| LegacyKnowledge.SameLoss | src/main/java/pwr/zpi/hotspotter/fileanalysis/analyzer/knowledge/KnowledgeAnalyzer.java:115-121 | both analyzers compute the same loss for the same row |
| Ownership.SortedFirstIsMax | src/main/java/pwr/zpi/hotspotter/fileanalysis/analyzer/ownership/OwnershipAnalyzer.java:166 | on a ranked list the first element holds the largest percentage |
| Ownership.NamesNearComplete | src/main/java/pwr/zpi/hotspotter/fileanalysis/analyzer/ownership/OwnershipAnalyzer.java:170-173 | everyone within 0.01 of the top is listed |
| Ownership.CalculateFileOwnership | src/main/java/pwr/zpi/hotspotter/fileanalysis/analyzer/ownership/OwnershipAnalyzer.java:129-161 | a row carries the totals, one contributor per counter, the counters ranked in descending percentage, and the lead authors of the ranked list |
| Ownership.LeadAuthorsNone | src/main/java/pwr/zpi/hotspotter/fileanalysis/analyzer/ownership/OwnershipAnalyzer.java:163-168 | on a ranked list nobody leads exactly when the largest share is below 1 percent |
| Ownership.LeadAuthorsComplete | src/main/java/pwr/zpi/hotspotter/fileanalysis/analyzer/ownership/OwnershipAnalyzer.java:163-174 | on a ranked list everyone within 0.01 of the largest share leads |
| Ownership.LeadAuthorsSound | src/main/java/pwr/zpi/hotspotter/fileanalysis/analyzer/ownership/OwnershipAnalyzer.java:163-174 | on a ranked list every lead is a contributor within 0.01 of the largest share |
| Ownership.KnowledgeLeadIsOwner | src/main/java/pwr/zpi/hotspotter/fileanalysis/analyzer/ownership/OwnershipAnalyzer.java:163-174 | the knowledge analyzer's single lead, when there is one, is among the ownership lead authors |
| Ownership.FinishAnalysis | src/main/java/pwr/zpi/hotspotter/fileanalysis/analyzer/ownership/OwnershipAnalyzer.java:51-90 | nothing without a context or repository path; otherwise every tracked row is saved once, in order, at most 500 at a time, one row per tracked path of the map |
| Knowledge.FinishRows | src/main/java/pwr/zpi/hotspotter/repositoryanalysis/analyzer/knowledge/KnowledgeAnalyzer.java:53-62 | one row per kept path in map order, each with the analysis id, its path and the lines its authors added |
| Knowledge.FinishRowsOnePerPath | src/main/java/pwr/zpi/hotspotter/repositoryanalysis/analyzer/knowledge/KnowledgeAnalyzer.java:53-62 | the rows finish saves cover every tracked path once and nothing else |
| Ownership.FinishRows | src/main/java/pwr/zpi/hotspotter/fileanalysis/analyzer/ownership/OwnershipAnalyzer.java:58-73 | one row per kept path in map order, each with the analysis id, its path and the lines its authors added |
| Authors.NewStatistics | src/main/java/pwr/zpi/hotspotter/repositoryanalysis/analyzer/authors/model/AuthorStatistics.java:34-68 | the builder's defaults: active, no e-mail, every counter at zero, no dates |
| Authors.AddEmail | src/main/java/pwr/zpi/hotspotter/repositoryanalysis/analyzer/authors/model/AuthorStatistics.java:70-72 | adding an e-mail is set insertion: present afterwards, nothing else changes, a repeat is a no-op |
| Authors.IncrementCommits | src/main/java/pwr/zpi/hotspotter/repositoryanalysis/analyzer/authors/model/AuthorStatistics.java:74-76 | only the commit count grows, by one |
| Authors.IncreaseLinesAdded | src/main/java/pwr/zpi/hotspotter/repositoryanalysis/analyzer/authors/model/AuthorStatistics.java:78-80 | only the added-lines total grows, by the given lines |
| Authors.IncreaseLinesDeleted | src/main/java/pwr/zpi/hotspotter/repositoryanalysis/analyzer/authors/model/AuthorStatistics.java:82-84 | only the deleted-lines total grows, by the given lines |
| Authors.IncrementFilesAsLeadAuthor | src/main/java/pwr/zpi/hotspotter/repositoryanalysis/analyzer/authors/model/AuthorStatistics.java:86-88 | only the lead-file count grows, by one |
| Authors.NewContext | src/main/java/pwr/zpi/hotspotter/repositoryanalysis/analyzer/authors/AuthorsAnalyzerContext.java:18-22 | a new context has no statistics and takes today's date when no reference date is given |
| Authors.RecordContribution | src/main/java/pwr/zpi/hotspotter/repositoryanalysis/analyzer/authors/AuthorsAnalyzerContext.java:24-47 | the author's statistics gain the e-mail, one commit, the lines and the date as last commit date; a new author starts from the first-commit distances to the reference date; every other author is untouched |
| Authors.FirstStatistics | src/main/java/pwr/zpi/hotspotter/repositoryanalysis/analyzer/authors/AuthorsAnalyzerContext.java:27-38 | a first contribution fixes the first commit date and its distances to the reference date, with counters at zero |
| Authors.Bumped | src/main/java/pwr/zpi/hotspotter/repositoryanalysis/analyzer/authors/AuthorsAnalyzerContext.java:40-44 | every contribution adds the e-mail, one commit and the lines and sets the last commit date, keeping the first-commit fields |
| Authors.ProcessCommit | src/main/java/pwr/zpi/hotspotter/repositoryanalysis/analyzer/authors/AuthorsAnalyzer.java:35-50 | a null commit or context changes nothing; otherwise one contribution carrying the sums of the added and deleted lines over the changed files |
| Authors.ProcessAll | src/main/java/pwr/zpi/hotspotter/repositoryanalysis/analyzer/authors/AuthorsAnalyzer.java:35-50 | feeding commits keeps the context well formed |
| Authors.RecordStep | src/main/java/pwr/zpi/hotspotter/repositoryanalysis/analyzer/authors/AuthorsAnalyzer.java:35-50 | one processed commit counts toward its author only |
| Authors.TallyStep | src/main/java/pwr/zpi/hotspotter/repositoryanalysis/analyzer/authors/AuthorsAnalyzerContext.java:24-47 | a counted commit extends the author's tally by one commit, its lines and its date |
| Authors.NoCommitsNoLines | src/main/java/pwr/zpi/hotspotter/repositoryanalysis/analyzer/authors/AuthorsAnalyzer.java:42-49 | an author with no commits has no lines |
| Authors.AuthorTotals | src/main/java/pwr/zpi/hotspotter/repositoryanalysis/analyzer/authors/AuthorsAnalyzer.java:35-50 | from an empty context each author's statistics are their number of commits, the sum of their added lines and the date of their last commit in processing order, and only authors with commits are recorded |
| Authors.IsActiveSince | src/main/java/pwr/zpi/hotspotter/repositoryanalysis/analyzer/authors/AuthorsAnalyzer.java:102-106 | active exactly when the months since the last commit are known and fewer than six |
| Authors.Finished | src/main/java/pwr/zpi/hotspotter/repositoryanalysis/analyzer/authors/AuthorsAnalyzer.java:91-106 | the distances to today are those of the last commit, an author is active exactly when the last commit is after today minus six months, and no other field changes |
| Authors.ActiveWindow | src/main/java/pwr/zpi/hotspotter/repositoryanalysis/analyzer/authors/AuthorsAnalyzer.java:96-104 | fewer than n whole months since the last commit exactly when it is after today minus n months |
| Authors.MonthOrder | src/main/java/pwr/zpi/hotspotter/repositoryanalysis/analyzer/authors/AuthorsAnalyzer.java:96 | comparing valid dates by month number agrees with date order |
| Authors.FinishAnalysis | src/main/java/pwr/zpi/hotspotter/repositoryanalysis/analyzer/authors/AuthorsAnalyzer.java:52-66 | a null context saves nothing; otherwise the context is finished in place against today and each author's finished statistics are saved once, in the map's iteration order |
| Authors.CountLeads | src/main/java/pwr/zpi/hotspotter/repositoryanalysis/analyzer/authors/AuthorsAnalyzer.java:74-82 | every known author's lead-file count grows by the number of rows naming them as a non-blank lead; no author is added |
| Authors.DistinctOnce | src/main/java/pwr/zpi/hotspotter/repositoryanalysis/analyzer/authors/AuthorsAnalyzer.java:77 | a key of the statistics map names at most one author |
| Authors.LeadsBounded | src/main/java/pwr/zpi/hotspotter/repositoryanalysis/analyzer/authors/AuthorsAnalyzer.java:74-82 | over distinct authors, the leads added are at most the number of rows |
| Authors.Enrich | src/main/java/pwr/zpi/hotspotter/repositoryanalysis/analyzer/authors/AuthorsAnalyzer.java:68-89 | a null context saves nothing; otherwise every author is saved once with the rows they lead added to their lead-file count |
| Authors.FinishContext | src/main/java/pwr/zpi/hotspotter/repositoryanalysis/analyzer/authors/AuthorsAnalyzer.java:55-59 | finishing changes every author's statistics in place to their finished form against today and nothing else |
| Authors.FinishThenEnrich | src/main/java/pwr/zpi/hotspotter/repositoryanalysis/analyzer/authors/AuthorsAnalyzer.java:52-89 | run after finish, enrich saves the finished statistics of each author with the lead-author file count added |
| FileInfos.FileName | src/main/java/pwr/zpi/hotspotter/repositoryanalysis/analyzer/fileinfo/FileInfoAnalyzerContext.java:55-58 | the name is the last piece after turning backslashes into slashes; it holds no slash and is non-empty for a non-empty path |
| FileInfos.SplitAllOfSeparators | src/main/java/pwr/zpi/hotspotter/repositoryanalysis/analyzer/fileinfo/FileInfoAnalyzerContext.java:56 | a string made only of separators splits into empty pieces only |
| FileInfos.FileNameFails | src/main/java/pwr/zpi/hotspotter/repositoryanalysis/analyzer/fileinfo/FileInfoAnalyzerContext.java:55-58 | the name lookup throws exactly on a non-empty path made only of separators, where `split` leaves no piece |
| FileInfos.FileNameOfPlainName | src/main/java/pwr/zpi/hotspotter/repositoryanalysis/analyzer/fileinfo/FileInfoAnalyzerContext.java:55-58 | a path without separators is its own name |
| FileInfos.FileNameOfChild | src/main/java/pwr/zpi/hotspotter/repositoryanalysis/analyzer/fileinfo/FileInfoAnalyzerContext.java:55-58 | a non-empty name after either separator is the file name, whatever the directory |
| FileInfos.WindowsNested | src/main/java/pwr/zpi/hotspotter/repositoryanalysis/analyzer/fileinfo/FileInfoAnalyzerContext.java:74-84 | the last month lies inside the six-month hot-spot period, which lies inside the last year |
| FileInfos.NewFileInfo | src/main/java/pwr/zpi/hotspotter/repositoryanalysis/analyzer/fileinfo/FileInfoAnalyzerContext.java:31-37 | a first sighting starts every counter at zero with the commit date as first commit date |
| FileInfos.IncrementCommitsInHotSpotAnalysisPeriod | src/main/java/pwr/zpi/hotspotter/repositoryanalysis/analyzer/fileinfo/model/FileInfo.java:67-69 | only that counter grows, by one |
| FileInfos.IncrementCommitsLastMonth | src/main/java/pwr/zpi/hotspotter/repositoryanalysis/analyzer/fileinfo/model/FileInfo.java:71-73 | only that counter grows, by one |
| FileInfos.IncrementCommitsLastYear | src/main/java/pwr/zpi/hotspotter/repositoryanalysis/analyzer/fileinfo/model/FileInfo.java:75-77 | only that counter grows, by one |
| FileInfos.IncrementTotalCommits | src/main/java/pwr/zpi/hotspotter/repositoryanalysis/analyzer/fileinfo/model/FileInfo.java:79-81 | only that counter grows, by one |
| FileInfos.CountCommit | src/main/java/pwr/zpi/hotspotter/repositoryanalysis/analyzer/fileinfo/FileInfoAnalyzerContext.java:40-50 | a commit raises each window's counter exactly when it falls in that window, raises the total, and becomes the last commit date |
| FileInfos.CountKeepsConsistent | src/main/java/pwr/zpi/hotspotter/repositoryanalysis/analyzer/fileinfo/FileInfoAnalyzerContext.java:40-50 | counting a commit keeps the counters nested like their windows |
| FileInfos.NewContext | src/main/java/pwr/zpi/hotspotter/repositoryanalysis/analyzer/fileinfo/FileInfoAnalyzerContext.java:22-27 | a new context is empty and takes today's date when no reference date is given |
| FileInfos.RecordContribution | src/main/java/pwr/zpi/hotspotter/repositoryanalysis/analyzer/fileinfo/FileInfoAnalyzerContext.java:29-53 | the entry for the path is created on first sight and counts the commit; every other entry is untouched |
| FileInfos.UpdateFilePath | src/main/java/pwr/zpi/hotspotter/repositoryanalysis/analyzer/fileinfo/FileInfoAnalyzerContext.java:60-72 | a null or blank new path deletes the old entry; otherwise the old entry moves to the new path with its path and name updated |
| FileInfos.ApplyChange | src/main/java/pwr/zpi/hotspotter/repositoryanalysis/analyzer/fileinfo/FileInfoAnalyzer.java:39-48 | after a change the path it is recorded under has an entry |
| FileInfos.ApplyChanges | src/main/java/pwr/zpi/hotspotter/repositoryanalysis/analyzer/fileinfo/FileInfoAnalyzer.java:39-48 | the changes of a commit keep the context well formed |
| FileInfos.ProcessCommit | src/main/java/pwr/zpi/hotspotter/repositoryanalysis/analyzer/fileinfo/FileInfoAnalyzer.java:34-49 | a null commit or context changes nothing; otherwise only the entries change |
| FileInfos.RenameCarriesHistory | src/main/java/pwr/zpi/hotspotter/repositoryanalysis/analyzer/fileinfo/FileInfoAnalyzer.java:42-47 | a rename hands the old entry to the new path, keeps its first commit date, adds the commit, and removes the old path |
| FileInfos.BlankRenameStartsOver | src/main/java/pwr/zpi/hotspotter/repositoryanalysis/analyzer/fileinfo/FileInfoAnalyzer.java:42-47 | a rename to a blank path drops the old entry and starts a fresh one under the blank path |
| FileInfos.Fields | src/main/java/pwr/zpi/hotspotter/repositoryanalysis/analyzer/fileinfo/FileInfoAnalyzer.java:103 | `split(",", 5)` gives between one and five parts |
| FileInfos.ReadRowsHas | src/main/java/pwr/zpi/hotspotter/repositoryanalysis/analyzer/fileinfo/FileInfoAnalyzer.java:112 | every data row puts its path in the map |
| FileInfos.ReadRowsLast | src/main/java/pwr/zpi/hotspotter/repositoryanalysis/analyzer/fileinfo/FileInfoAnalyzer.java:112 | a path holds the record of the last row keyed by it |
| FileInfos.ReadRowsLastWins | src/main/java/pwr/zpi/hotspotter/repositoryanalysis/analyzer/fileinfo/FileInfoAnalyzer.java:94-114 | a path is read exactly when some row is keyed by it, and the last such row wins |
| FileInfos.ParseRows | src/main/java/pwr/zpi/hotspotter/repositoryanalysis/analyzer/fileinfo/FileInfoAnalyzer.java:94-114 | each line is read on its own |
| FileInfos.ClocHeaderIgnored | src/main/java/pwr/zpi/hotspotter/repositoryanalysis/analyzer/fileinfo/FileInfoAnalyzer.java:95-98 | the first line never counts, even when it looks like a data row |
| FileInfos.ClocLastRowWins | src/main/java/pwr/zpi/hotspotter/repositoryanalysis/analyzer/fileinfo/FileInfoAnalyzer.java:91-126 | after the header, a path is read exactly when some data row is keyed by it, with the last such row's record |
| FileInfos.ParseRowSkips | src/main/java/pwr/zpi/hotspotter/repositoryanalysis/analyzer/fileinfo/FileInfoAnalyzer.java:99-113 | the `SUM,` line and lines with fewer than five fields are skipped; a data row gives its path and record |
| FileInfos.ClocRowRoundTrip | src/main/java/pwr/zpi/hotspotter/repositoryanalysis/analyzer/fileinfo/FileInfoAnalyzer.java:103-111 | the row `cloc` prints for a file reads back as its path and record |
| FileInfos.WithCodeAge | src/main/java/pwr/zpi/hotspotter/repositoryanalysis/analyzer/fileinfo/FileInfoAnalyzer.java:129-137 | the code age is negative exactly when the last commit is after the reference date, zero exactly on it, and its months are the whole months between |
| FileInfos.CodeAgeAndHotSpot | src/main/java/pwr/zpi/hotspotter/repositoryanalysis/analyzer/fileinfo/FileInfoAnalyzerContext.java:74-76 | a last commit is in the hot-spot period exactly when the code is younger than six whole months or falls on the period's first day |
| FileInfos.WithLinesData | src/main/java/pwr/zpi/hotspotter/repositoryanalysis/analyzer/fileinfo/FileInfoAnalyzer.java:139-154 | with a record for the path, language and counts are copied and the total is their sum; otherwise nothing changes |
| FileInfos.Finished | src/main/java/pwr/zpi/hotspotter/repositoryanalysis/analyzer/fileinfo/FileInfoAnalyzer.java:62-65 | finishing a row keeps its analysis and path |
| FileInfos.KeptPaths | src/main/java/pwr/zpi/hotspotter/repositoryanalysis/analyzer/fileinfo/FileInfoAnalyzer.java:58-60 | only rows of existing files are kept, in order |
| FileInfos.KeptPathsComplete | src/main/java/pwr/zpi/hotspotter/repositoryanalysis/analyzer/fileinfo/FileInfoAnalyzer.java:58-60 | every row of an existing file is kept |
| FileInfos.KeptPathsDistinct | src/main/java/pwr/zpi/hotspotter/repositoryanalysis/analyzer/fileinfo/FileInfoAnalyzer.java:58-60 | no row is kept twice |
| FileInfos.FinishAnalysis | src/main/java/pwr/zpi/hotspotter/repositoryanalysis/analyzer/fileinfo/FileInfoAnalyzer.java:51-72 | a null context saves nothing; otherwise the rows of existing files, each with its code age and `cloc` record, in order and in batches of 500 |
| FileInfos.FinishedRowsUnique | src/main/java/pwr/zpi/hotspotter/repositoryanalysis/analyzer/fileinfo/FileInfoAnalyzer.java:51-72 | the saved rows respect the unique analysis/path index: one per tracked existing file and none for any other |
| FileInfos.ParseRow | src/main/java/pwr/zpi/hotspotter/repositoryanalysis/analyzer/fileinfo/FileInfoAnalyzer.java:99-112 | a line contributes a row exactly when it is a data row, keyed by that row's path |
| FileInfos.ReadRows | src/main/java/pwr/zpi/hotspotter/repositoryanalysis/analyzer/fileinfo/FileInfoAnalyzer.java:94-114 | the map holds no more paths than there were rows |
| FileInfos.ParseClocOutput | src/main/java/pwr/zpi/hotspotter/repositoryanalysis/analyzer/fileinfo/FileInfoAnalyzer.java:94-114 | the header line never yields a row: output of at most one line gives an empty map, otherwise at most one path per remaining line |
| ActivityTrends.NewDailyStats | src/main/java/pwr/zpi/hotspotter/repositoryanalysis/analyzer/activitytrends/model/ActivityTrendsDailyStats.java:16-29 | a new day row has its date, zero counts and no author counts |
| ActivityTrends.IncrementCommits | src/main/java/pwr/zpi/hotspotter/repositoryanalysis/analyzer/activitytrends/model/ActivityTrendsDailyStats.java:31-33 | only the commit count grows, by one |
| ActivityTrends.IncreaseLinesAdded | src/main/java/pwr/zpi/hotspotter/repositoryanalysis/analyzer/activitytrends/model/ActivityTrendsDailyStats.java:35-37 | only the added lines grow, by the given lines |
| ActivityTrends.IncreaseLinesDeleted | src/main/java/pwr/zpi/hotspotter/repositoryanalysis/analyzer/activitytrends/model/ActivityTrendsDailyStats.java:39-41 | only the deleted lines grow, by the given lines |
| ActivityTrends.NewContext | src/main/java/pwr/zpi/hotspotter/repositoryanalysis/analyzer/activitytrends/ActivityTrendsContext.java:21-30 | a new context has no rows, no last date, no authors, and takes today's date when no reference date is given |
| ActivityTrends.Put | src/main/java/pwr/zpi/hotspotter/repositoryanalysis/analyzer/activitytrends/ActivityTrendsContext.java:25-38 | storing under a key sets that row and appends the key to the insertion order only when it is new |
| ActivityTrends.PutKeepsWellFormed | src/main/java/pwr/zpi/hotspotter/repositoryanalysis/analyzer/activitytrends/ActivityTrendsContext.java:25-38 | storing a row under its own date keeps the rows keyed by date and the insertion order exact |
| ActivityTrends.RowForDate | src/main/java/pwr/zpi/hotspotter/repositoryanalysis/analyzer/activitytrends/ActivityTrendsContext.java:39-43 | the row for a date is dated that date |
| ActivityTrends.RemoveInactive | src/main/java/pwr/zpi/hotspotter/repositoryanalysis/analyzer/activitytrends/ActivityTrendsContext.java:87-92 | exactly the authors whose last activity is not before the threshold stay, with their dates |
| ActivityTrends.RemoveInactiveTwice | src/main/java/pwr/zpi/hotspotter/repositoryanalysis/analyzer/activitytrends/ActivityTrendsContext.java:87-92 | evicting at one threshold and then at a later one is evicting at the later one |
| ActivityTrends.ActiveOnLater | src/main/java/pwr/zpi/hotspotter/repositoryanalysis/analyzer/activitytrends/ActivityTrendsContext.java:87-92 | evicting for a day after evicting for an earlier day is evicting for the later day |
| ActivityTrends.DayRange | src/main/java/pwr/zpi/hotspotter/repositoryanalysis/analyzer/activitytrends/ActivityTrendsContext.java:61-84 | the loop visits valid days only |
| ActivityTrends.RangeStep | src/main/java/pwr/zpi/hotspotter/repositoryanalysis/analyzer/activitytrends/ActivityTrendsContext.java:63-83 | a day of [start, end) is start or a day of [start + 1, end) |
| ActivityTrends.DayRangeMember | src/main/java/pwr/zpi/hotspotter/repositoryanalysis/analyzer/activitytrends/ActivityTrendsContext.java:60-85 | the loop visits exactly the days of [start, end) |
| ActivityTrends.DayRangeAscending | src/main/java/pwr/zpi/hotspotter/repositoryanalysis/analyzer/activitytrends/ActivityTrendsContext.java:60-85 | the visited days strictly increase |
| ActivityTrends.FillDays | src/main/java/pwr/zpi/hotspotter/repositoryanalysis/analyzer/activitytrends/ActivityTrendsContext.java:60-85 | a fill changes only the rows, the insertion order, the seen authors and the active authors |
| ActivityTrends.FillDaysKeepsWellFormed | src/main/java/pwr/zpi/hotspotter/repositoryanalysis/analyzer/activitytrends/ActivityTrendsContext.java:60-85 | a fill keeps the rows keyed by date and the insertion order exact |
| ActivityTrends.FillDaysUntouched | src/main/java/pwr/zpi/hotspotter/repositoryanalysis/analyzer/activitytrends/ActivityTrendsContext.java:60-85 | a day the fill does not visit keeps its row, or stays absent |
| ActivityTrends.FillDaysVisited | src/main/java/pwr/zpi/hotspotter/repositoryanalysis/analyzer/activitytrends/ActivityTrendsContext.java:70-80 | every visited day has a row with both author counts set and its commit and line counts untouched |
| ActivityTrends.FillAfterClear | src/main/java/pwr/zpi/hotspotter/repositoryanalysis/analyzer/activitytrends/ActivityTrendsContext.java:68-82 | once the seen authors are cleared, every later visited day counts none |
| ActivityTrends.FillDaysClears | src/main/java/pwr/zpi/hotspotter/repositoryanalysis/analyzer/activitytrends/ActivityTrendsContext.java:82 | a fill ends with no seen authors |
| ActivityTrends.FillDaysUniqueAuthors | src/main/java/pwr/zpi/hotspotter/repositoryanalysis/analyzer/activitytrends/ActivityTrendsContext.java:68-82 | the first visited day counts the authors seen since the previous fill and every later day counts zero |
| ActivityTrends.FillDaysEvicts | src/main/java/pwr/zpi/hotspotter/repositoryanalysis/analyzer/activitytrends/ActivityTrendsContext.java:87-92 | after a fill over increasing days the active authors are those active on the last day |
| ActivityTrends.FillDaysActiveAuthors | src/main/java/pwr/zpi/hotspotter/repositoryanalysis/analyzer/activitytrends/ActivityTrendsContext.java:65-78 | each visited day counts exactly the authors active on that day |
| ActivityTrends.FillDaysKeepsOrder | src/main/java/pwr/zpi/hotspotter/repositoryanalysis/analyzer/activitytrends/ActivityTrendsContext.java:70 | a fill only appends to the insertion order |
| ActivityTrends.FillOutside | src/main/java/pwr/zpi/hotspotter/repositoryanalysis/analyzer/activitytrends/ActivityTrendsContext.java:60-85 | a fill of [start, end) leaves every day outside the range as it was |
| ActivityTrends.FillInside | src/main/java/pwr/zpi/hotspotter/repositoryanalysis/analyzer/activitytrends/ActivityTrendsContext.java:60-85 | every day of [start, end) ends with its counts kept, the unique count of the first day's pending authors (zero after) and the count of authors active that day |
| ActivityTrends.RecordContribution | src/main/java/pwr/zpi/hotspotter/repositoryanalysis/analyzer/activitytrends/ActivityTrendsContext.java:32-54 | the day's row gains one commit and the lines; the author is seen and last active that day, which becomes the last date |
| ActivityTrends.RecordKeepsWellFormed | src/main/java/pwr/zpi/hotspotter/repositoryanalysis/analyzer/activitytrends/ActivityTrendsContext.java:32-54 | recording keeps the rows keyed by date and the insertion order exact |
| ActivityTrends.NoFillForEarlierDate | src/main/java/pwr/zpi/hotspotter/repositoryanalysis/analyzer/activitytrends/ActivityTrendsContext.java:33-35 | a date not after the last one fills nothing: only its own row changes |
| ActivityTrends.GapDaysFilled | src/main/java/pwr/zpi/hotspotter/repositoryanalysis/analyzer/activitytrends/ActivityTrendsContext.java:33-35 | a later date fills every day from the last date up to it with both author counts |
| ActivityTrends.FinishContext | src/main/java/pwr/zpi/hotspotter/repositoryanalysis/analyzer/activitytrends/ActivityTrendsContext.java:56-58 | the final fill keeps the context well formed |
| ActivityTrends.ProcessCommit | src/main/java/pwr/zpi/hotspotter/repositoryanalysis/analyzer/activitytrends/ActivityTrendsAnalyzer.java:27-41 | a null commit or context changes nothing; otherwise the commit's day gains one commit and the sums of its files' lines, and the author is recorded on that day |
| ActivityTrends.FinishAnalysis | src/main/java/pwr/zpi/hotspotter/repositoryanalysis/analyzer/activitytrends/ActivityTrendsAnalyzer.java:43-59 | a null context saves nothing; otherwise the saved document lists every day row of the finished context once, in the order the rows were first inserted |
| ActivityTrends.OrderCardinality | src/main/java/pwr/zpi/hotspotter/repositoryanalysis/analyzer/activitytrends/ActivityTrendsAnalyzer.java:48 | an insertion order listing each key once is as long as the map |
| ActivityTrends.DistinctCardinality | src/main/java/pwr/zpi/hotspotter/repositoryanalysis/analyzer/activitytrends/ActivityTrendsAnalyzer.java:48 | a list without repeats has as many elements as its set |
| ActivityTrends.FinishCoversTimeline | src/main/java/pwr/zpi/hotspotter/repositoryanalysis/analyzer/activitytrends/ActivityTrendsAnalyzer.java:43-52 | the saved series has a row with both author counts for every day from the last commit up to the reference date |
| ActivityTrends.FillDay | src/main/java/pwr/zpi/hotspotter/repositoryanalysis/analyzer/activitytrends/ActivityTrendsContext.java:64-83 | one pass gives the day a row with the authors seen, keeping its commit and line counts, changes no other day, clears the seen authors and only evicts active authors |
| ActivityTrends.Fill | src/main/java/pwr/zpi/hotspotter/repositoryanalysis/analyzer/activitytrends/ActivityTrendsContext.java:60-85 | an empty range changes nothing; otherwise the seen authors end cleared; the insertion order only grows at its end and the id, reference date, threshold and last date stay |
| ActivityTrends.FinishKeepsRecordedOrder | src/main/java/pwr/zpi/hotspotter/repositoryanalysis/analyzer/activitytrends/ActivityTrendsAnalyzer.java:46-52 | the saved rows begin with the recorded days in the order they were first recorded |
| Dates.BeforeIffSmallerDayNumber | src/main/java/pwr/zpi/hotspotter/repositoryanalysis/analyzer/activitytrends/ActivityTrendsContext.java:63 | for valid dates, `isBefore` holds exactly when the first date has the smaller day count, and two dates are equal exactly when their day counts are |
| Dates.NextDay | src/main/java/pwr/zpi/hotspotter/repositoryanalysis/analyzer/activitytrends/ActivityTrendsContext.java:83 | `plusDays(1)` of a valid date is a valid date exactly one day later |
| Dates.MinusMonths | src/main/java/pwr/zpi/hotspotter/repositoryanalysis/analyzer/fileinfo/FileInfoAnalyzerContext.java:75 | `minusMonths(n)` is a valid date n calendar months earlier, with the day of month kept when that month has it and clamped to the month's last day otherwise |
| Dates.MinusOneYear | src/main/java/pwr/zpi/hotspotter/repositoryanalysis/analyzer/fileinfo/FileInfoAnalyzerContext.java:83 | `minusYears(1)` is a valid date in the previous year, same month, day kept or clamped (29 February becomes 28 February) |
| Dates.MinusOneYearIsTwelveMonths | src/main/java/pwr/zpi/hotspotter/repositoryanalysis/analyzer/fileinfo/FileInfoAnalyzerContext.java:79-83 | going back one year and going back twelve months give the same date, so the one-year window contains the one-month window |
| Dates.MinusMonthsIsBefore | src/main/java/pwr/zpi/hotspotter/repositoryanalysis/analyzer/activitytrends/ActivityTrendsContext.java:88-90 | going back a positive number of months always lands strictly before the date |
| Dates.MinusMonthsMonotone | src/main/java/pwr/zpi/hotspotter/repositoryanalysis/analyzer/fileinfo/FileInfoAnalyzerContext.java:74-84 | going back more months never lands later than going back fewer |
| Dates.MinusMonthsMonotoneInDate | src/main/java/pwr/zpi/hotspotter/repositoryanalysis/analyzer/activitytrends/ActivityTrendsContext.java:87-91 | a later reference date never gives an earlier threshold date |
| Dates.DaysBetween | src/main/java/pwr/zpi/hotspotter/repositoryanalysis/analyzer/fileinfo/FileInfoAnalyzer.java:132 | `ChronoUnit.DAYS.between(a, b)` is negative exactly when b is before a and zero exactly when the dates are equal |
| Dates.MonthsBetween | src/main/java/pwr/zpi/hotspotter/repositoryanalysis/analyzer/fileinfo/FileInfoAnalyzer.java:133 | `ChronoUnit.MONTHS.between(a, b)` counts whole months: never negative when b is not before a, never positive when a is not before b |
| Dates.MonthsBetweenMinusMonths | src/main/java/pwr/zpi/hotspotter/repositoryanalysis/analyzer/authors/AuthorsAnalyzer.java:96 | the whole months from `minusMonths(n)` of a date back to the date are exactly n |
| Dates.ParseIsoDate | src/main/java/pwr/zpi/hotspotter/repositoryanalysis/logprocessing/model/Commit.java:14-16 | `LocalDate.parse` with ISO_LOCAL_DATE accepts only `yyyy-MM-dd` text naming a real calendar date, with a four-digit year |
| Dates.FormatIsoDate | src/main/java/pwr/zpi/hotspotter/repositoryanalysis/logprocessing/LogExtractor.java:58-60 | ISO formatting of a four-digit-year date is ten characters long |
| Dates.ParseFormatRoundTrip | src/main/java/pwr/zpi/hotspotter/repositoryanalysis/logprocessing/LogExtractor.java:63 | parsing the ISO text of a valid four-digit-year date gives the date back |
| RepositoryStructure.AddChild | src/main/java/pwr/zpi/hotspotter/repositoryanalysis/model/repositorystructure/RepositoryStructureNode.java:81-86 | a null child list becomes the one-element list of the child, otherwise the child is appended after the present children, which keep their order; nothing else changes |
| RepositoryStructure.NewDir | src/main/java/pwr/zpi/hotspotter/repositoryanalysis/service/RepositoryStructureService.java:111-117 | a directory node has the given name and path and, as built, no child list |
| RepositoryStructure.FileNode | src/main/java/pwr/zpi/hotspotter/repositoryanalysis/service/RepositoryStructureService.java:119-142 | a file leaf carries the file's name, path, code lines and commits from its FileInfo row and the lead author from its FileKnowledge row, with no child list |
| RepositoryStructure.LeavesAddChild | src/main/java/pwr/zpi/hotspotter/repositoryanalysis/model/repositorystructure/RepositoryStructureNode.java:81-86 | adding a child to a directory adds exactly the files below that child to the files below the directory, after the present ones |
| RepositoryStructure.FindDir | src/main/java/pwr/zpi/hotspotter/repositoryanalysis/service/RepositoryStructureService.java:98 | the directory lookup by path finds a child directory with that path, or reports that no child from the start position has it |
| RepositoryStructure.PlaceLeaves | src/main/java/pwr/zpi/hotspotter/repositoryanalysis/service/RepositoryStructureService.java:66-109 | placing a file under a directory adds exactly that file, once, to the files below it |
| RepositoryStructure.PlacePutsUnder | src/main/java/pwr/zpi/hotspotter/repositoryanalysis/service/RepositoryStructureService.java:86-108 | the file ends up as a child of the directory whose path is its path segments before the last one joined by "/" |
| RepositoryStructure.PlaceKeepsChildAt | src/main/java/pwr/zpi/hotspotter/repositoryanalysis/service/RepositoryStructureService.java:98-105 | a later file never moves a file placed earlier: existing directories are reused, not replaced |
| RepositoryStructure.PlacePopulated | src/main/java/pwr/zpi/hotspotter/repositoryanalysis/service/RepositoryStructureService.java:98-103 | a directory gets a child list only when a file is placed below it, so every directory with a list has a file below it |
| RepositoryStructure.PlaceWellPathed | src/main/java/pwr/zpi/hotspotter/repositoryanalysis/service/RepositoryStructureService.java:92-103 | every directory created has its parent's path joined with its name as path, and no two sibling directories share a path, because the path map is consulted before creating one |
| RepositoryStructure.RootNode | src/main/java/pwr/zpi/hotspotter/repositoryanalysis/service/RepositoryStructureService.java:49-53 | the tree starts as a directory named "root" with path "" and no files |
| RepositoryStructure.AddFileToTree | src/main/java/pwr/zpi/hotspotter/repositoryanalysis/service/RepositoryStructureService.java:66-79 | adding a file changes only the tree's children |
| RepositoryStructure.AddFilesLeaves | src/main/java/pwr/zpi/hotspotter/repositoryanalysis/service/RepositoryStructureService.java:58-61 | the files below the tree after the loop over the FileInfo map are the ones before plus one leaf per visited path |
| RepositoryStructure.BuildTreeShape | src/main/java/pwr/zpi/hotspotter/repositoryanalysis/service/RepositoryStructureService.java:45-64 | the built tree has exactly one file leaf per FileInfo path; every directory with children has a file below it; directory paths are joined segments, each once among siblings; no directory is sized |
| RepositoryStructure.BuildTreePlaces | src/main/java/pwr/zpi/hotspotter/repositoryanalysis/service/RepositoryStructureService.java:58-61 | every visited file lies under the directory its path names |
| RepositoryStructure.MaxOrZero | src/main/java/pwr/zpi/hotspotter/repositoryanalysis/service/RepositoryStructureService.java:145-148 | `max().orElse(0)` is 0 for no values, otherwise a value of the input at least as large as every other |
| RepositoryStructure.CalculateMaxFileValues | src/main/java/pwr/zpi/hotspotter/repositoryanalysis/service/RepositoryStructureService.java:144-159 | each of the three maxima bounds every row's commit count, hot-spot commit count and code line count (a null count read as 0), and all are 0 without rows |
| RepositoryStructure.MaximaAttained | src/main/java/pwr/zpi/hotspotter/repositoryanalysis/service/RepositoryStructureService.java:144-159 | over a non-empty input each maximum is the value of some row |
| RepositoryStructure.JavaRound | src/main/java/pwr/zpi/hotspotter/repositoryanalysis/service/RepositoryStructureService.java:171 | `Math.round` gives the integer nearest to its argument, halves rounded up |
| RepositoryStructure.WidthBounds | src/main/java/pwr/zpi/hotspotter/repositoryanalysis/service/RepositoryStructureService.java:177-182 | a file's width lies in [0, 1] when its line count lies between 0 and the largest; the largest file is 1 wide and an empty one 0 |
| RepositoryStructure.HeightBounds | src/main/java/pwr/zpi/hotspotter/repositoryanalysis/service/RepositoryStructureService.java:169-175 | a file's height lies in [0, 1] when its commit count lies between 0 and the largest and the emphasis curve maps [0, 1] into [0, 1] |
| RepositoryStructure.SetFileDimensions | src/main/java/pwr/zpi/hotspotter/repositoryanalysis/service/RepositoryStructureService.java:161-183 | a directory passes sizing on to its children and stays otherwise unchanged; a file gets its height and width and nothing else |
| RepositoryStructure.SetFileDimensionsLeaves | src/main/java/pwr/zpi/hotspotter/repositoryanalysis/service/RepositoryStructureService.java:161-167 | the files below a sized tree are the files below the tree, in order, each sized |
| RepositoryStructure.SetFileDimensionsInvariants | src/main/java/pwr/zpi/hotspotter/repositoryanalysis/service/RepositoryStructureService.java:161-167 | sizing keeps every directory populated and unsized |
| RepositoryStructure.TallyAppend | src/main/java/pwr/zpi/hotspotter/repositoryanalysis/service/RepositoryStructureService.java:197-202 | the statistics of two runs of files are the sums of each run's statistics |
| RepositoryStructure.TotalOfTallies | src/main/java/pwr/zpi/hotspotter/repositoryanalysis/service/RepositoryStructureService.java:194-202 | adding up the per-child statistics gives the statistics of all files below, one file counted once |
| RepositoryStructure.Stats | src/main/java/pwr/zpi/hotspotter/repositoryanalysis/service/RepositoryStructureService.java:185-210 | `calculateDirectoryStatistics` returns the number of files below a node, their code lines and commits (null read as 0), and changes only the directory summary fields |
| RepositoryStructure.StatsKeepsLeaves | src/main/java/pwr/zpi/hotspotter/repositoryanalysis/service/RepositoryStructureService.java:185-210 | the statistics pass leaves the files below a node untouched |
| RepositoryStructure.StatsSummarises | src/main/java/pwr/zpi/hotspotter/repositoryanalysis/service/RepositoryStructureService.java:204-206 | after the pass every directory with children records its file count (at least one), its code lines and its commits per file in Java integer division |
| RepositoryStructure.InfoMap | src/main/java/pwr/zpi/hotspotter/repositoryanalysis/service/RepositoryStructureService.java:22-23 | the FileInfo rows keyed by path: every row is found under its path and every key is some row's path |
| RepositoryStructure.KnowledgeMap | src/main/java/pwr/zpi/hotspotter/repositoryanalysis/service/RepositoryStructureService.java:24-25 | the FileKnowledge rows keyed by path, in both directions |
| RepositoryStructure.BuildRepositoryStructure | src/main/java/pwr/zpi/hotspotter/repositoryanalysis/service/RepositoryStructureService.java:18-43 | the response's structure is the "root" directory and its reference data are the three maxima |
| RepositoryStructure.StructureLeaves | src/main/java/pwr/zpi/hotspotter/repositoryanalysis/service/RepositoryStructureService.java:27-31 | the files of the response are the files of the built tree, each sized |
| RepositoryStructure.StructureShape | src/main/java/pwr/zpi/hotspotter/repositoryanalysis/service/RepositoryStructureService.java:27-31 | in the response every directory with children summarises its files without dividing by zero, no directory is sized, and there is one file per FileInfo row |
| RepositoryStructure.LeafOrigin | src/main/java/pwr/zpi/hotspotter/repositoryanalysis/service/RepositoryStructureService.java:27-31 | each file of the response is the sized leaf of one FileInfo row joined with its FileKnowledge row |
| RepositoryStructure.LeafOfEveryRow | src/main/java/pwr/zpi/hotspotter/repositoryanalysis/service/RepositoryStructureService.java:27-31 | every FileInfo row appears in the response as its sized leaf |
| RepositoryStructure.LeafWidths | src/main/java/pwr/zpi/hotspotter/repositoryanalysis/service/RepositoryStructureService.java:177-182 | with no negative line count, every file of the response has a width between 0 and 1 |
| RepositoryStructure.Width | src/main/java/pwr/zpi/hotspotter/repositoryanalysis/service/RepositoryStructureService.java:177-182 | a width is a whole number of hundredths, and 0 without a line count |
| RepositoryStructure.Height | src/main/java/pwr/zpi/hotspotter/repositoryanalysis/service/RepositoryStructureService.java:169-175 | a height is a whole number of hundredths, and 0 without a commit count |
| RepositoryStructure.Place | src/main/java/pwr/zpi/hotspotter/repositoryanalysis/service/RepositoryStructureService.java:86-108 | placing a file below a directory changes nothing of that directory but its children |
| RepositoryStructure.AddFiles | src/main/java/pwr/zpi/hotspotter/repositoryanalysis/service/RepositoryStructureService.java:58-61 | the loop over the FileInfo map changes nothing of the tree but its children |
| RepositoryStructure.BuildTree | src/main/java/pwr/zpi/hotspotter/repositoryanalysis/service/RepositoryStructureService.java:45-64 | the built tree is a directory named "root" with path "" |
| RepositoryUrls.GitRepsAreReps | src/main/java/pwr/zpi/hotspotter/repositorymanagement/parser/RepositoryUrlParser.java:15 | `(?:\.git)*` matches a string exactly when it is some number of copies of ".git" |
| RepositoryUrls.NameEnd | src/main/java/pwr/zpi/hotspotter/repositorymanagement/parser/RepositoryUrlParser.java:15 | the lazy name group ends at the first position, at or after one character, after which only copies of ".git" remain |
| RepositoryUrls.MatchRepo | src/main/java/pwr/zpi/hotspotter/repositorymanagement/parser/RepositoryUrlParser.java:15 | a matched tail gives a non-empty owner without '/' and a non-empty name without '/' that ends in ".git" only when it is exactly ".git" |
| RepositoryUrls.MatchRepoRoundTrip | src/main/java/pwr/zpi/hotspotter/repositorymanagement/parser/RepositoryUrlParser.java:15 | owner, '/', a valid name and any number of ".git" copies are matched back into the same owner and name |
| RepositoryUrls.MatchRepoSound | src/main/java/pwr/zpi/hotspotter/repositorymanagement/parser/RepositoryUrlParser.java:15 | every tail the pattern accepts is owner, '/', name and some number of ".git" copies |
| RepositoryUrls.HttpsPlatform | src/main/java/pwr/zpi/hotspotter/repositorymanagement/parser/RepositoryUrlParser.java:14 | the platform group is "github" or "gitlab" and the URL part continues with it and ".com/" |
| RepositoryUrls.NormalizedHasScheme | src/main/java/pwr/zpi/hotspotter/repositorymanagement/parser/RepositoryUrlParser.java:33-41 | a URL accepted by the pattern comes out of normalisation starting with "https://" |
| RepositoryUrls.NormalizeHttpsUrl | src/main/java/pwr/zpi/hotspotter/repositorymanagement/parser/RepositoryUrlParser.java:33-41 | normalising an accepted URL adds the scheme when missing and removes exactly one trailing ".git" when there is one |
| RepositoryUrls.ParseRepositoryUrl | src/main/java/pwr/zpi/hotspotter/repositorymanagement/parser/RepositoryUrlParser.java:18-31 | a rejected URL gives the InvalidRepositoryUrlException message naming the URL; an accepted one gives a GitHub or GitLab platform, a valid owner and name, and a URL with the scheme |
| RepositoryUrls.ParseRepositoryUrlRoundTrip | src/main/java/pwr/zpi/hotspotter/repositorymanagement/parser/RepositoryUrlParser.java:13-31 | every URL built from a platform, a valid owner and name and any number of ".git" copies, with or without "https://", is accepted with those parts and returned with the scheme and one ".git" fewer |
| RepositoryUrls.ParsedParts | src/main/java/pwr/zpi/hotspotter/repositorymanagement/parser/RepositoryUrlParser.java:19-27 | an accepted URL's part after the scheme starts with platform and ".com/", and its rest matches into the owner and name returned |
| RepositoryUrls.ParseRepositoryUrlSound | src/main/java/pwr/zpi/hotspotter/repositorymanagement/parser/RepositoryUrlParser.java:13-31 | every accepted URL is exactly such a built URL of its parsed parts |
| RepositoryUrls.DotGitName | src/main/java/pwr/zpi/hotspotter/repositorymanagement/parser/RepositoryUrlParser.java:15 | the lookahead rejects only a name tail that is one ".git", so "github.com/owner/.git.git" is accepted with the name ".git" |
| RepositoryUrls.GetPathSplits | src/main/java/pwr/zpi/hotspotter/repositorymanagement/parser/RepositoryUrlParser.java:43-47 | the repository path is platform, owner and name joined by '/', and splits back into them |
| RepositoryUrls.ClonePlatform | src/main/java/pwr/zpi/hotspotter/repositorymanagement/service/parser/RepositoryUrlParser.java:14 | the platform group is "github" or "gitlab" after "https://", or "git@github" or "git@gitlab" before ".com:", and the URL starts with that prefix |
| RepositoryUrls.ClonePlatformOf | src/main/java/pwr/zpi/hotspotter/repositorymanagement/service/parser/RepositoryUrlParser.java:14 | each of the four prefixes is read back as its own platform |
| RepositoryUrls.ParseCloneUrl | src/main/java/pwr/zpi/hotspotter/repositorymanagement/service/parser/RepositoryUrlParser.java:18-29 | a rejected URL gives the IllegalArgumentException message naming the URL; an accepted one is returned unchanged with one of the four platforms and a valid owner and name |
| RepositoryUrls.ParseCloneUrlRoundTrip | src/main/java/pwr/zpi/hotspotter/repositorymanagement/service/parser/RepositoryUrlParser.java:13-29 | every URL built from one of the four prefixes, a valid owner and name and any number of ".git" copies is accepted and returned as given with those parts |
| RepositoryUrls.CloneParsedParts | src/main/java/pwr/zpi/hotspotter/repositorymanagement/service/parser/RepositoryUrlParser.java:19-27 | an accepted URL starts with its platform's prefix and the rest matches into the owner and name returned |
| RepositoryUrls.ParseCloneUrlSound | src/main/java/pwr/zpi/hotspotter/repositorymanagement/service/parser/RepositoryUrlParser.java:13-29 | every accepted URL is exactly such a built URL of its parsed parts |
| RepositoryUrls.NormalizeRepositoryUrl | src/main/java/pwr/zpi/hotspotter/repositorymanagement/parser/RepositoryUrlParser.java:33-41 | the normalised URL starts with "http"; it is the input, with "https://" in front unless the input starts with "http", less at most one trailing ".git" |
| RepositoryUrls.GetPath | src/main/java/pwr/zpi/hotspotter/repositorymanagement/parser/RepositoryUrlParser.java:43-47 | the path is as long as the three parts plus two separators and starts with the platform followed by '/' |
| ProgressMonitors.NewMonitor | src/main/java/pwr/zpi/hotspotter/repositorymanagement/service/operation/ProcessProgressMonitor.java:11-15 | a new monitor has no task, no work, nothing completed, nothing logged (-1) and the given interval |
| ProgressMonitors.Start | src/main/java/pwr/zpi/hotspotter/repositorymanagement/service/operation/ProcessProgressMonitor.java:17-20 | `start` logs one line with the task count and changes nothing |
| ProgressMonitors.BeginTask | src/main/java/pwr/zpi/hotspotter/repositorymanagement/service/operation/ProcessProgressMonitor.java:22-32 | `beginTask` sets the title and work, clears the completed work and the last logged percentage, and logs one line only for positive work |
| ProgressMonitors.Percentage | src/main/java/pwr/zpi/hotspotter/repositorymanagement/service/operation/ProcessProgressMonitor.java:63 | the percentage is completed work times 100 over total work, truncated; it lies in [0, 100] while the completed work does not exceed the total |
| ProgressMonitors.LogProgressIfNeeded | src/main/java/pwr/zpi/hotspotter/repositorymanagement/service/operation/ProcessProgressMonitor.java:60-68 | with positive work a progress line is logged, and its percentage remembered, exactly when the percentage is at least one interval above the last logged one; otherwise nothing changes |
| ProgressMonitors.Update | src/main/java/pwr/zpi/hotspotter/repositorymanagement/service/operation/ProcessProgressMonitor.java:34-38 | `update` adds the step to the completed work and keeps task, work and interval |
| ProgressMonitors.EndTask | src/main/java/pwr/zpi/hotspotter/repositorymanagement/service/operation/ProcessProgressMonitor.java:40-50 | `endTask` logs the finish line only for positive work and resets the monitor to no task |
| ProgressMonitors.IsCancelled | src/main/java/pwr/zpi/hotspotter/repositorymanagement/service/operation/ProcessProgressMonitor.java:52-55 | the monitor never reports cancellation |
| ProgressMonitors.UpdatesLog | src/main/java/pwr/zpi/hotspotter/repositorymanagement/service/operation/ProcessProgressMonitor.java:34-38 | over any run of updates every logged line is a progress line of the current task, each at least one interval above the previous, the last one remembered, and the completed work grows by the sum of the steps |
| ProgressMonitors.NoWorkNoProgress | src/main/java/pwr/zpi/hotspotter/repositorymanagement/service/operation/ProcessProgressMonitor.java:61 | a task without positive work never logs progress |
| ProgressMonitors.TaskLog | src/main/java/pwr/zpi/hotspotter/repositorymanagement/service/operation/ProcessProgressMonitor.java:22-50 | a whole task logs spaced progress lines of its title, the first at least the interval minus one, logs nothing at all without positive work, and leaves the monitor as new |
| Cookies.IsLocalhost | src/main/java/pwr/zpi/hotspotter/authentication/component/CookieUtil.java:103-113 | a null host is not local; a host is local exactly when it is one of the four loopback or wildcard spellings or starts with "192.168.", "10." or "172.16." |
| Cookies.PartialPrivateRange | src/main/java/pwr/zpi/hotspotter/authentication/component/CookieUtil.java:112 | only 172.16.0.0/16 of the private block 172.16.0.0/12 counts as local: 172.17.0.1 does not |
| Cookies.ExtractBaseDomain | src/main/java/pwr/zpi/hotspotter/authentication/component/CookieUtil.java:115-123 | the configured domain is returned exactly when there is a host, a configured domain, and the host ends with it |
| Cookies.SuffixWithoutBoundary | src/main/java/pwr/zpi/hotspotter/authentication/component/CookieUtil.java:118 | the domain test is a plain text suffix: "notexample.com" gets the domain "example.com" |
| Cookies.DetermineDomain | src/main/java/pwr/zpi/hotspotter/authentication/component/CookieUtil.java:83-101 | no domain for a null origin or an origin the URI parser rejects; a domain only for a non-local host that ends with the configured domain, and then the configured one |
| Cookies.DetermineSecure | src/main/java/pwr/zpi/hotspotter/authentication/component/CookieUtil.java:125-137 | a null origin takes the configured flag, plain-HTTP localhost or 127.0.0.1 is never secure, an HTTPS origin always is, any other origin takes the configured flag |
| Cookies.CreateCookie | src/main/java/pwr/zpi/hotspotter/authentication/component/CookieUtil.java:42-59 | the cookie has the given name, value, Max-Age and path, is HttpOnly with SameSite "Lax", is Secure as the origin decides, and carries a Domain only when it is non-empty and the one the origin decides |
| Cookies.MaxAgeSeconds | src/main/java/pwr/zpi/hotspotter/authentication/component/CookieUtil.java:27 | the expiration in milliseconds cast to whole seconds fits in 32 bits and, within range, is the expiration rounded down to seconds |
| Cookies.CreateJwtCookie | src/main/java/pwr/zpi/hotspotter/authentication/component/CookieUtil.java:23-31 | the login cookie is named "jwt", holds the token, lives on path "/" for the configured expiration in seconds |
| Cookies.DeleteJwtCookie | src/main/java/pwr/zpi/hotspotter/authentication/component/CookieUtil.java:33-35 | the logout cookie is named "jwt" on path "/" with no value and Max-Age 0 |
| Cookies.DeleteMatchesCreate | src/main/java/pwr/zpi/hotspotter/authentication/component/CookieUtil.java:23-35 | for the same request the logout cookie equals the login cookie with the value removed and Max-Age 0, so it replaces it |
| Cookies.FirstValue | src/main/java/pwr/zpi/hotspotter/authentication/component/CookieUtil.java:67-70 | the first cookie with the name gives the value; none exactly when no cookie has the name |
| Cookies.GetCookieValue | src/main/java/pwr/zpi/hotspotter/authentication/component/CookieUtil.java:62-71 | a request without a cookie array gives no value |
| Cookies.GetJwtFromCookies | src/main/java/pwr/zpi/hotspotter/authentication/component/CookieUtil.java:37-39 | a token is found only in a request that carries cookies |
| Cookies.FirstValueAt | src/main/java/pwr/zpi/hotspotter/authentication/component/CookieUtil.java:67-70 | the value read back is that of the first cookie with the name, whatever follows |
| Cookies.JwtRoundTrip | src/main/java/pwr/zpi/hotspotter/authentication/component/CookieUtil.java:23-39 | a login cookie sent back before any other "jwt" cookie is read back as the token |
| Cookies.AddCookies | src/main/java/pwr/zpi/hotspotter/authentication/component/CookieUtil.java:73-81 | the cookies join the response after the ones already there, in order |
| SonarStates.ToValue | src/main/java/pwr/zpi/hotspotter/sonar/model/SonarAnalysisState.java:12-15 | the JSON value of a state is its constant's name, a non-empty run of upper-case letters |
| SonarStates.ToValueInjective | src/main/java/pwr/zpi/hotspotter/sonar/model/SonarAnalysisState.java:6-15 | two states have the same JSON value exactly when they are the same state |
| SonarStates.ValueOf | src/main/java/pwr/zpi/hotspotter/sonar/model/SonarAnalysisState.java:21 | `valueOf` finds the state whose name is exactly the text, and none when no state has that name |
| SonarStates.FromString | src/main/java/pwr/zpi/hotspotter/sonar/model/SonarAnalysisState.java:17-25 | null reads as null; a state read is the one named by the trimmed, upper-cased text; text naming no state reads as null instead of failing |
| SonarStates.FromStringLenient | src/main/java/pwr/zpi/hotspotter/sonar/model/SonarAnalysisState.java:17-25 | any upper- or lower-case spelling of a state's name, padded by characters `trim` removes, reads as that state |
| SonarStates.FromStringRoundTrip | src/main/java/pwr/zpi/hotspotter/sonar/model/SonarAnalysisState.java:12-25 | reading a state's JSON value gives the state back |
| SonarServices.CreateValidProjectKey | src/main/java/pwr/zpi/hotspotter/sonar/service/SonarService.java:106-108 | the sanitised key has the key's length and only letters, digits, '_' and '-' |
| SonarServices.ValidKeyAt | src/main/java/pwr/zpi/hotspotter/sonar/service/SonarService.java:107 | each allowed character stays where it is and every other one becomes '_' |
| SonarServices.ValidKeyFixed | src/main/java/pwr/zpi/hotspotter/sonar/service/SonarService.java:107 | a key is left unchanged exactly when it is already made of allowed characters |
| SonarServices.ValidKeyIdempotent | src/main/java/pwr/zpi/hotspotter/sonar/service/SonarService.java:107 | sanitising a sanitised key changes nothing |
| SonarServices.IsAnalysisStarted | src/main/java/pwr/zpi/hotspotter/sonar/service/SonarService.java:80-97 | an analysis counts as started only when the latest status for the key has a start time and is pending or running |
| SonarServices.StartedTimesOut | src/main/java/pwr/zpi/hotspotter/sonar/service/SonarService.java:93-96 | the started rule only times out: started at a later time means started at every earlier one, and nothing is started fifteen minutes after its start |
| SonarServices.RunAnalysis | src/main/java/pwr/zpi/hotspotter/sonar/service/SonarService.java:57-78 | a started analysis is refused; otherwise a missing project directory is refused; otherwise a failed connection gives null; otherwise a pending status for the sanitised key, stamped now, is saved and launched |
| SonarServices.SecondRunRefused | src/main/java/pwr/zpi/hotspotter/sonar/service/SonarService.java:57-97 | once a launched status is the latest for its key, any request within a minute for a key that sanitises the same way is refused |
| SonarServices.StartedWindows | src/main/java/pwr/zpi/hotspotter/sonar/service/SonarService.java:92-96 | with a start time, a pending status counts as started exactly while younger than 60 000 ms, a running one exactly while younger than 900 000 ms, and no other state ever |
| SonarServices.PendingTimesOutFirst | src/main/java/pwr/zpi/hotspotter/sonar/service/SonarService.java:95-96 | between 60 000 and 900 000 ms after the start, a running status still counts as started and a pending one no longer does |
| SonarResults.ParseTotal | src/main/java/pwr/zpi/hotspotter/sonar/service/SonarResultDownloader.java:129-140 | a total is read exactly when `paging.total` is present and parses as an int; it is never above 10000, and a parsed value up to 10000 is kept as is |
| SonarResults.PageSizeFor | src/main/java/pwr/zpi/hotspotter/sonar/service/SonarResultDownloader.java:94-97 | on every page the loop reaches below the 10000-result limit the page size asked for is 500: the limit is a multiple of 500, so the clamp never applies |
| SonarResults.TotalCapped | src/main/java/pwr/zpi/hotspotter/sonar/service/SonarResultDownloader.java:134-137 | whatever total the pages report, the one kept is at most 10000 |
| SonarResults.StepState | src/main/java/pwr/zpi/hotspotter/sonar/service/SonarResultDownloader.java:116-145 | one answered page adds its items after the earlier ones, keeps the first base object and the first parsed total, and records the request (page, 500) |
| SonarResults.FetchStep | src/main/java/pwr/zpi/hotspotter/sonar/service/SonarResultDownloader.java:87-146 | a page below the limit that answers and does not end the download moves the loop on to the next page with the state after that page |
| SonarResults.FetchFromSome | src/main/java/pwr/zpi/hotspotter/sonar/service/SonarResultDownloader.java:87-153 | a loop that ends normally has stopped at a page that answered and ended the download, or at the last page below the limit, with the state after that page |
| SonarResults.FetchFromNone | src/main/java/pwr/zpi/hotspotter/sonar/service/SonarResultDownloader.java:155-158 | a loop that ends in null met a throwing exchange on a page it reached |
| SonarResults.FetchFromFailsAt | src/main/java/pwr/zpi/hotspotter/sonar/service/SonarResultDownloader.java:155-158 | a throwing exchange on a page the loop reaches makes the whole download null |
| SonarResults.FetchPagedOutcome | src/main/java/pwr/zpi/hotspotter/sonar/service/SonarResultDownloader.java:76-159 | the download asks for pages 1, 2, ... of 500, at most 20, stopping at the first page that has no body, no or a short item list, or brings the items to the total; it is null exactly when an exchange up to there throws, and otherwise holds the first base object, every item in page order and the first total, capped at 10000 |
| SonarResults.PairsCover | src/main/java/pwr/zpi/hotspotter/sonar/service/SonarResultDownloader.java:174-175 | the nested loop queries every pair of a listed type and a listed severity, and nothing else |
| SonarResults.IssueQueryOrder | src/main/java/pwr/zpi/hotspotter/sonar/service/SonarResultDownloader.java:44-45 | the issue download runs the four queries BUG/MAJOR, BUG/CRITICAL, CODE_SMELL/MAJOR, CODE_SMELL/CRITICAL in that order |
| SonarResults.IssuesOfSnoc | src/main/java/pwr/zpi/hotspotter/sonar/service/SonarResultDownloader.java:178-185 | one more query appends its download's items, or nothing when the download is null |
| SonarResults.RunQueries | src/main/java/pwr/zpi/hotspotter/sonar/service/SonarResultDownloader.java:174-187 | the nested loop collects the items of every (type, severity) query, in query order |
| SonarResults.FetchIssues | src/main/java/pwr/zpi/hotspotter/sonar/service/SonarResultDownloader.java:169-190 | the issues are the items of the four queries concatenated in query order, a null download contributing none |
| SonarResults.ValueText | src/main/java/pwr/zpi/hotspotter/sonar/service/SonarResultDownloader.java:402-404 | `String.valueOf` of a present text is the text itself |
| SonarResults.ParseIntOrZero | src/main/java/pwr/zpi/hotspotter/sonar/service/SonarResultDownloader.java:393-400 | a present text that parses as an int gives that int; null or text that does not parse gives 0; the result fits in 32 bits |
| SonarResults.ParseIntegerOrNull | src/main/java/pwr/zpi/hotspotter/sonar/service/SonarResultDownloader.java:406-413 | an int is returned exactly when the text is present and parses as an int, and it is that int |
| SonarResults.ParseDoubleOrNull | src/main/java/pwr/zpi/hotspotter/sonar/service/SonarResultDownloader.java:415-422 | null and empty text give null; any other text gives what `Double.parseDouble` gives |
| SonarResults.ExtractFilePath | src/main/java/pwr/zpi/hotspotter/sonar/service/SonarResultDownloader.java:314-320 | null stays null; a component starting with the project key and ':' loses exactly that prefix; any other component is kept |
| SonarResults.FilePathRoundTrip | src/main/java/pwr/zpi/hotspotter/sonar/service/SonarResultDownloader.java:314-320 | a path put under the project key reads back as the path |
| SonarResults.ExtractTextRange | src/main/java/pwr/zpi/hotspotter/sonar/service/SonarResultDownloader.java:322-346 | a range map gives its four fields, each 0 when missing or not a number; without one the range is the issue's line on both ends (0 when missing or not a number) with offsets 0 |
| SonarResults.LineRangeRoundTrip | src/main/java/pwr/zpi/hotspotter/sonar/service/SonarResultDownloader.java:332-343 | an issue on line n without a range map covers exactly line n |
| SonarResults.MetricsMapFirst | src/main/java/pwr/zpi/hotspotter/sonar/service/SonarResultDownloader.java:249-254 | the map `toMap` builds with the merge keeping the first value holds, for every key, the value of the first measure with that key |
| SonarResults.ExtractMetrics | src/main/java/pwr/zpi/hotspotter/sonar/service/SonarResultDownloader.java:245-264 | no measure list gives empty metrics; a measure without a value makes the collection fail; otherwise each of the six metrics is read from the first measure with its key |
| SonarResults.FirstMeasureWins | src/main/java/pwr/zpi/hotspotter/sonar/service/SonarResultDownloader.java:253 | of two measures with the same key, the earlier one's value is kept |
| SonarResults.FirstMeasureAt | src/main/java/pwr/zpi/hotspotter/sonar/service/SonarResultDownloader.java:249-254 | the value read for a key is that of the first measure with the key, whatever follows |
| SonarResults.FetchFrom | src/main/java/pwr/zpi/hotspotter/sonar/service/SonarResultDownloader.java:82-159 | each further page only appends: earlier items and requests stay a prefix, a total or base already read is kept, no base is taken when none was asked for, and the remaining pages bound the new requests |
| SonarResults.FetchPaged | src/main/java/pwr/zpi/hotspotter/sonar/service/SonarResultDownloader.java:76-159 | a completed download makes at most 20 requests and holds no base object when none was asked for |
| SonarResults.MetricsMap | src/main/java/pwr/zpi/hotspotter/sonar/service/SonarResultDownloader.java:249-254 | the keys of the map are exactly the metrics of the measures |
| JavaLang.TruncDiv | src/main/java/pwr/zpi/hotspotter/repositoryanalysis/service/RepositoryStructureService.java:206 | Java's `/` on ints with a positive divisor rounds toward zero: the remainder lies in [0, b) for a non-negative dividend and in (-b, 0] for a negative one |
| JavaLang.WrapInt32 | src/main/java/pwr/zpi/hotspotter/authentication/component/CookieUtil.java:27 | the `(int)` cast of a long fits in 32 bits, differs from the long by a multiple of 2^32, and leaves a value already in range unchanged |
| JavaLang.Trim | src/main/java/pwr/zpi/hotspotter/sonar/model/SonarAnalysisState.java:21 | `trim` never lengthens a string, its result starts and ends with a character it does not remove, and it is empty exactly when every character is one it removes |
| JavaLang.ToUpperAscii | src/main/java/pwr/zpi/hotspotter/sonar/model/SonarAnalysisState.java:21 | upper-casing keeps the length and maps each character on its own, ASCII letters to upper case |
| JavaLang.SplitAllJoin | src/main/java/pwr/zpi/hotspotter/repositoryanalysis/service/RepositoryStructureService.java:73 | the pieces between separators, joined back with the separator, give the string again |
| JavaLang.JavaSplit | src/main/java/pwr/zpi/hotspotter/repositoryanalysis/service/RepositoryStructureService.java:73 | `split` of a string without the separator is the string alone; no piece holds the separator; trailing empty pieces of a non-empty string are dropped |
| JavaLang.JavaSplitLast | src/main/java/pwr/zpi/hotspotter/repositoryanalysis/analyzer/fileinfo/FileInfoAnalyzerContext.java:56-57 | the last piece of `split` after a final separator is the non-empty text behind it |
| JavaLang.JavaSplitLimit | src/main/java/pwr/zpi/hotspotter/repositoryanalysis/analyzer/fileinfo/FileInfoAnalyzer.java:103 | `split` with a limit gives between one and limit pieces that join back into the string, every piece but the last free of the separator |
| JavaLang.SplitLimitJoin | src/main/java/pwr/zpi/hotspotter/repositoryanalysis/analyzer/fileinfo/FileInfoAnalyzer.java:103 | exactly limit pieces, all but the last free of the separator, joined and split again with that limit come back unchanged |
| JavaLang.ReplaceChar | src/main/java/pwr/zpi/hotspotter/repositoryanalysis/analyzer/fileinfo/FileInfoAnalyzerContext.java:56 | `replace(char, char)` keeps the length and swaps exactly the occurrences of the one character |
| JavaLang.ReplaceAllAbsent | src/main/java/pwr/zpi/hotspotter/repositoryanalysis/analyzer/fileinfo/FileInfoAnalyzer.java:106 | `replace` leaves a string without any occurrence of the target unchanged |
| JavaLang.ParseInt | src/main/java/pwr/zpi/hotspotter/sonar/service/SonarResultDownloader.java:406-413 | `Integer.parseInt` gives a value only for an optional sign followed by at least one ASCII digit, and then the signed decimal value; it gives one exactly when that value fits 32 bits |
| JavaLang.ParseIntRoundTrip | src/main/java/pwr/zpi/hotspotter/repositoryanalysis/analyzer/fileinfo/FileInfoAnalyzer.java:107-109 | the decimal text of any int-range natural number parses back to the number |
| JavaLang.ReplaceAll | src/main/java/pwr/zpi/hotspotter/repositoryanalysis/analyzer/fileinfo/FileInfoAnalyzer.java:106 | replacing a target by itself changes nothing |
| JavaLang.ReplaceAllAtTarget | src/main/java/pwr/zpi/hotspotter/repositoryanalysis/analyzer/fileinfo/FileInfoAnalyzer.java:106 | a target at the front is replaced and the rest is processed after it |
| JavaLang.ReplaceAllKeepsPrefix | src/main/java/pwr/zpi/hotspotter/repositoryanalysis/analyzer/fileinfo/FileInfoAnalyzer.java:106 | a prefix where no occurrence starts is kept as it is |

## Left out

- Running `git log`: the `LogExtractor` files start a subprocess and write a file. They are not part of this model. The parser's input is the list of lines read, plus whether reading fails after the last line.
- `git ls-files`, JGit's `getExistingFileNames` and the `cloc` process: these are subprocesses or file-system reads. Their results, the tracked-file set and the `cloc` output lines, are inputs.
- Cloning, updating, disk-space management, the command executor and the Java project compiler: these are I/O and are not part of this model.
- Concurrency and asynchronous plumbing: the operation queue's locks, the async configurations, the analysis orchestration and SSE publishing, and the Sonar executor's threads, sleeps and retries.
- HTTP and authentication plumbing: the SonarQube client and its configuration, `prepareConnection`, `setNewSonarToken`, the controllers, the security configuration and the user services. The answers they would give are parameters.
- Persistence: every Mongo repository, and the status lookups `getSonarAnalysisStatus` and `getSonarRepoAnalysisResult`. A save is the returned sequence of batches. A lookup is a function parameter.
- Logging: messages other than the progress monitor's are dropped. The progress monitor's log calls are returned as events.
- `ProcessProgressMonitor.showDuration`: it does nothing.
- Record fields the modelled logic never reads: identifiers, `fileSize` and the Sonar `endTime`.
- `SonarResultDownloader`'s mapping of downloaded JSON into result records: `mapToAnalysisResult`, `mapComponent`, `mapIssuesToFileAnalysisResult`, `extractProblemLocations` and `parseToLocalDateTime`. The same goes for the callers that only sequence requests, `fetchAnalysisResults` and `fetchComponentTree`. These are JSON plumbing. The field readers they call are modelled.
- `ClassCastException`s from JSON values of an unexpected type: a JSON value arrives as its `String.valueOf` text.
- Floating point: the `Math.exp` height curve of the repository structure and `Double.parseDouble` are function parameters. Percentages are exact reals, so `double` rounding is not modelled.
- ProgressMonitors.Percentage: the `(int)` cast at ProcessProgressMonitor.java:63 saturates at `Integer.MAX_VALUE`, and the model does not. The model's truncated quotient is unbounded, so it differs once `completed * 100 / totalWork` exceeds 2^31 - 1, which needs `completed` far beyond `totalWork`. Computing the quotient in `double` first changes nothing for `int` operands, because `completed * 100` stays far below 2^53.
- ProgressMonitors.Update: `this.completed += completed` at ProcessProgressMonitor.java:36 wraps at 2^31, and the model's counter does not. The model's counter is unbounded, which matters only after more than 2^31 - 1 units of work.
- 32-bit overflow: it is modelled for the cookie Max-Age cast (`JavaLang.WrapInt32`). Commit and line counters are unbounded integers, because they would need more than 2^31 commits or lines to wrap.
- Dates.DaysBetween: it gives the exact difference. The analyzers' `(int)` casts of day and month differences are not wrapped, because wrapping needs dates about six million years apart.
- `RepositoryData.getPath`: it joins with `/`, the separator of the Unix hosts the service runs on. `Paths.get` on other systems is not modelled.
- The `NumberFormatException` the `cloc` row reader does not catch: every data row's counts must parse (`FileInfos.CountsParse`). This is a precondition.
- `ActivityTrendsContext.finishAnalysis` with no recorded day: the null last date would throw. This is a precondition.
- A file-information context without a repository path: the finishing step would throw. This is a precondition.
- Knowledge.FinishAnalysis: a context without a repository path is excluded by a precondition. The repository-analysis knowledge analyzer has no null guard, and reading the tracked files would throw a `NullPointerException`. The file-analysis knowledge and ownership analyzers do guard, and save nothing.
- Commit dates that `LocalDate.parse` rejects throw a `DateTimeParseException` in every analyzer's `processCommit`. Every processed commit must carry a valid ISO date (`Commits.HasValidDate`); this is a precondition.
- `getFileName` on a path made only of separators throws an index exception (`FileInfos.FileNameFails`). The file-information analyzer needs nameable paths (`FileInfos.NameablePaths`); this is a precondition.
- `buildRepositoryStructure` with two rows for one path: `Collectors.toMap` throws an `IllegalStateException`. A FileInfo path without a FileKnowledge row makes `getLeadAuthor` throw a `NullPointerException`. Both cases are excluded by a precondition (`RepositoryStructure.Buildable`).
- The knowledge enrich step's author-activity map: it is built with `Collectors.toMap` from the stored author statistics, which throws on a duplicate name or a null `isActive`. The model takes the finished map as an input. A contributor missing from the map makes `!authorActivityMap.get(name)` unbox null and throw. Every contributor of a row with a computed loss must be in the map (`Knowledge.KnownAuthors`, `Knowledge.Enrichable`); this is a precondition.
- Ownership: the e-mail passed to `recordContribution` is ignored, and the counters are keyed by author name. The e-mail is not part of any saved ownership field the model states.
- `CookieUtil.getCookieValue` on a `jwt` cookie whose value is null: `Optional.of` would throw. This is a precondition.
- `AuthorsAnalyzer` calls its context's constructor with one argument while the context declares two. The model's `Authors.NewContext` takes the reference date as optional, and an absent date stands for today.
- The older copy of `RepositoryStructureNode` in `repositoryanalysis/model`, both `SonarAnalysisStatus` classes, DTOs and configuration holders: these are records without behaviour beyond what the model's datatypes carry.
- SonarStates.FromString: upper-casing covers ASCII letters only. Java's `toUpperCase` also maps non-ASCII letters, such as `ß`.
- JavaLang.ParseInt: only ASCII digits are accepted. Java's `Integer.parseInt` also accepts other Unicode decimal digits.
- JavaLang.ToUpperAscii: it is the ASCII part of `String.toUpperCase`. Only state names are upper-cased, and they are ASCII.

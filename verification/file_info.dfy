/** The repository-analysis `FileInfoAnalyzer` and its context: per file,
    the commits in the hot-spot period, the last month, the last year and
    in all, the first and last commit dates and, when the analysis
    finishes, the code age and the line counts that `cloc` reports. */
module FileInfos {

  import opened Nullable
  import opened JavaLang
  import opened Dates
  import opened Commits
  import Contributions
  import Batches
  import Authors
  import LogRoundTrip

  const HOT_SPOT_ANALYSIS_PERIOD_MONTHS: int := 6

  /** One saved row. The store's own `id` and the never-assigned `fileSize`
      are not modelled. */
  datatype FileInfo = FileInfo(
    analysisId: string,
    filePath: string,
    fileName: string,
    fileType: Option<string>,
    totalLines: Option<int>,
    codeLines: Option<int>,
    commentLines: Option<int>,
    blankLines: Option<int>,
    commitsLastMonth: int,
    commitsInHotSpotAnalysisPeriod: int,
    commitsLastYear: int,
    totalCommits: int,
    firstCommitDate: Option<Date>,
    lastCommitDate: Option<Date>,
    codeAgeDays: Option<int>,
    codeAgeMonths: Option<int>)

  // ---------------------------------------------------------------------
  // getFileName
  // ---------------------------------------------------------------------

  predicate IsSeparator(c: char) {
    c == '/' || c == '\\'
  }

  /** `getFileName`: backslashes become slashes and the last piece of
      `split("/")` is the name. A path made of separators only splits into
      no pieces at all and indexing the last one throws, here `None`. */
  function FileName(path: string): (r: Option<string>)
    ensures r.Some? ==> '/' !in r.value
    ensures r.Some? && path != [] ==> r.value != []
  {
    var parts := JavaSplit(ReplaceChar(path, '\\', '/'), '/');
    if |parts| == 0 then None else Some(parts[|parts| - 1])
  }

  /** Pieces of a string made of separators only are all empty. */
  lemma {:induction false} SplitAllOfSeparators(s: string, sep: char)
    requires forall k :: 0 <= k < |s| ==> s[k] == sep
    ensures forall i :: 0 <= i < |SplitAll(s, sep)| ==> SplitAll(s, sep)[i] == []
    decreases |s|
  {
    if |s| > 0 {
      assert IndexOfFrom(s, sep, 0) == Some(0);
      SplitAllOfSeparators(s[1..], sep);
    }
  }

  /** `getFileName` throws exactly on a non-empty path of separators. */
  lemma FileNameFails(path: string)
    ensures FileName(path).None? <==> path != [] && forall k :: 0 <= k < |path| ==> IsSeparator(path[k])
  {
    var s := ReplaceChar(path, '\\', '/');
    if path != [] && forall k :: 0 <= k < |path| ==> IsSeparator(path[k]) {
      assert s[0] == '/';
      SplitAllOfSeparators(s, '/');
    } else if path != [] {
      var k :| 0 <= k < |path| && !IsSeparator(path[k]);
      JavaSplitNonEmpty(s, '/', k);
    }
  }

  /** A path without separators is its own name. */
  lemma FileNameOfPlainName(name: string)
    requires forall k :: 0 <= k < |name| ==> !IsSeparator(name[k])
    ensures FileName(name) == Some(name)
  {
    assert ReplaceChar(name, '\\', '/') == name;
  }

  /** Whatever the directory and whichever separator precedes it, a
      non-empty last segment is the name. */
  lemma FileNameOfChild(dir: string, sep: char, name: string)
    requires IsSeparator(sep) && name != []
    requires forall k :: 0 <= k < |name| ==> !IsSeparator(name[k])
    ensures FileName(dir + [sep] + name) == Some(name)
  {
    var d := ReplaceChar(dir, '\\', '/');
    assert ReplaceChar(dir + [sep] + name, '\\', '/') == d + ['/'] + name;
    JavaSplitLast(d, name, '/');
  }

  // ---------------------------------------------------------------------
  // The counting windows
  // ---------------------------------------------------------------------

  predicate InHotSpotPeriod(date: Date, ref: Date)
    requires Valid(ref)
  {
    !IsBefore(date, MinusMonths(ref, HOT_SPOT_ANALYSIS_PERIOD_MONTHS))
  }

  predicate InLastMonth(date: Date, ref: Date)
    requires Valid(ref)
  {
    !IsBefore(date, MinusMonths(ref, 1))
  }

  predicate InLastYear(date: Date, ref: Date)
    requires Valid(ref)
  {
    !IsBefore(date, MinusOneYear(ref))
  }

  /** The last month lies inside the hot-spot period, which lies inside
      the last year. */
  lemma WindowsNested(date: Date, ref: Date)
    requires Valid(ref)
    ensures InLastMonth(date, ref) ==> InHotSpotPeriod(date, ref)
    ensures InHotSpotPeriod(date, ref) ==> InLastYear(date, ref)
  {
    MinusMonthsMonotone(ref, 1, HOT_SPOT_ANALYSIS_PERIOD_MONTHS);
    MinusMonthsMonotone(ref, HOT_SPOT_ANALYSIS_PERIOD_MONTHS, 12);
    MinusOneYearIsTwelveMonths(ref);
  }

  // ---------------------------------------------------------------------
  // FileInfo
  // ---------------------------------------------------------------------

  /** The builder call for a path seen for the first time: every counter at
      its default of 0, the first commit date set, nothing else known. */
  function NewFileInfo(analysisId: string, path: string, name: string, date: Date): (r: FileInfo)
    ensures r.analysisId == analysisId && r.filePath == path && r.fileName == name
    ensures r.commitsLastMonth == 0 && r.commitsInHotSpotAnalysisPeriod == 0
    ensures r.commitsLastYear == 0 && r.totalCommits == 0
    ensures r.firstCommitDate == Some(date) && r.lastCommitDate.None?
  {
    FileInfo(analysisId, path, name, None, None, None, None, None, 0, 0, 0, 0, Some(date), None, None, None)
  }

  function IncrementCommitsInHotSpotAnalysisPeriod(fi: FileInfo): (r: FileInfo)
    ensures r.commitsInHotSpotAnalysisPeriod == fi.commitsInHotSpotAnalysisPeriod + 1
    ensures r.(commitsInHotSpotAnalysisPeriod := fi.commitsInHotSpotAnalysisPeriod) == fi
  {
    fi.(commitsInHotSpotAnalysisPeriod := fi.commitsInHotSpotAnalysisPeriod + 1)
  }

  function IncrementCommitsLastMonth(fi: FileInfo): (r: FileInfo)
    ensures r.commitsLastMonth == fi.commitsLastMonth + 1
    ensures r.(commitsLastMonth := fi.commitsLastMonth) == fi
  {
    fi.(commitsLastMonth := fi.commitsLastMonth + 1)
  }

  function IncrementCommitsLastYear(fi: FileInfo): (r: FileInfo)
    ensures r.commitsLastYear == fi.commitsLastYear + 1
    ensures r.(commitsLastYear := fi.commitsLastYear) == fi
  {
    fi.(commitsLastYear := fi.commitsLastYear + 1)
  }

  function IncrementTotalCommits(fi: FileInfo): (r: FileInfo)
    ensures r.totalCommits == fi.totalCommits + 1
    ensures r.(totalCommits := fi.totalCommits) == fi
  {
    fi.(totalCommits := fi.totalCommits + 1)
  }

  /** `after` is `before` with one commit of `date` counted: each window
      counter goes up by one exactly when `date` falls inside its window,
      the total by one, the last commit date becomes `date`, and nothing
      else changes. */
  predicate Counted(before: FileInfo, after: FileInfo, date: Date, ref: Date)
    requires Valid(ref)
  {
    && after.commitsInHotSpotAnalysisPeriod
       == before.commitsInHotSpotAnalysisPeriod + (if InHotSpotPeriod(date, ref) then 1 else 0)
    && after.commitsLastMonth == before.commitsLastMonth + (if InLastMonth(date, ref) then 1 else 0)
    && after.commitsLastYear == before.commitsLastYear + (if InLastYear(date, ref) then 1 else 0)
    && after.totalCommits == before.totalCommits + 1
    && after.lastCommitDate == Some(date)
    && after.(commitsInHotSpotAnalysisPeriod := before.commitsInHotSpotAnalysisPeriod,
              commitsLastMonth := before.commitsLastMonth,
              commitsLastYear := before.commitsLastYear,
              totalCommits := before.totalCommits,
              lastCommitDate := before.lastCommitDate) == before
  }

  /** The body of the `compute` callback once the entry exists. A commit in
      the last month bumps the year counter unconditionally, which agrees
      with the year window because the month lies inside the year. */
  function CountCommit(fi: FileInfo, date: Date, ref: Date): (r: FileInfo)
    requires Valid(ref)
    ensures Counted(fi, r, date, ref)
  {
    WindowsNested(date, ref);
    var hot := if InHotSpotPeriod(date, ref) then IncrementCommitsInHotSpotAnalysisPeriod(fi) else fi;
    var windows :=
      if InLastMonth(date, ref) then IncrementCommitsLastYear(IncrementCommitsLastMonth(hot))
      else if InLastYear(date, ref) then IncrementCommitsLastYear(hot)
      else hot;
    IncrementTotalCommits(windows).(lastCommitDate := Some(date))
  }

  /** The counters are nested like their windows, at least one commit has
      been seen, and both commit dates are set. */
  predicate Consistent(fi: FileInfo) {
    && 0 <= fi.commitsLastMonth <= fi.commitsInHotSpotAnalysisPeriod
    && fi.commitsInHotSpotAnalysisPeriod <= fi.commitsLastYear <= fi.totalCommits
    && fi.totalCommits >= 1
    && fi.firstCommitDate.Some? && Valid(fi.firstCommitDate.value)
    && fi.lastCommitDate.Some? && Valid(fi.lastCommitDate.value)
  }

  /** Counting a commit keeps the counters nested. */
  lemma CountKeepsConsistent(fi: FileInfo, date: Date, ref: Date)
    requires Valid(ref) && Valid(date)
    requires Consistent(fi) || (fi.totalCommits == 0 && fi.commitsLastYear == 0
                                && fi.commitsInHotSpotAnalysisPeriod == 0 && fi.commitsLastMonth == 0
                                && fi.firstCommitDate == Some(date))
    ensures Consistent(CountCommit(fi, date, ref))
  {
    WindowsNested(date, ref);
  }

  // ---------------------------------------------------------------------
  // FileInfoAnalyzerContext
  // ---------------------------------------------------------------------

  datatype Context = Context(
    analysisId: string,
    repositoryPath: Option<string>,
    referenceDate: Date,
    fileInfos: map<string, FileInfo>)

  /** The row kept under `path` names that path and its file name, belongs
      to the analysis and has consistent counters. */
  predicate Describes(analysisId: string, path: string, fi: FileInfo) {
    && FileName(path).Some?
    && fi.filePath == path && fi.fileName == FileName(path).value
    && fi.analysisId == analysisId
    && Consistent(fi)
  }

  predicate WellFormed(ctx: Context) {
    && Valid(ctx.referenceDate)
    && forall p :: p in ctx.fileInfos ==> Describes(ctx.analysisId, p, ctx.fileInfos[p])
  }

  /** The constructor: a null reference date means `today`. */
  function NewContext(analysisId: string, repositoryPath: Option<string>, referenceDate: Option<Date>, today: Date)
    : (r: Context)
    ensures r.referenceDate == (if referenceDate.Some? then referenceDate.value else today)
    ensures r.analysisId == analysisId && r.repositoryPath == repositoryPath && r.fileInfos == map[]
    ensures Valid(today) && (referenceDate.Some? ==> Valid(referenceDate.value)) ==> WellFormed(r)
  {
    Context(analysisId, repositoryPath, if referenceDate.Some? then referenceDate.value else today, map[])
  }

  /** `recordContribution`: the entry for `path` is created on first sight
      and then counts the commit; no other entry changes. */
  function RecordContribution(ctx: Context, path: string, date: Date): (r: Context)
    requires WellFormed(ctx) && Valid(date) && FileName(path).Some?
    ensures r.(fileInfos := ctx.fileInfos) == ctx
    ensures r.fileInfos.Keys == ctx.fileInfos.Keys + {path}
    ensures forall p :: p in ctx.fileInfos && p != path ==> r.fileInfos[p] == ctx.fileInfos[p]
    ensures path in ctx.fileInfos ==> Counted(ctx.fileInfos[path], r.fileInfos[path], date, ctx.referenceDate)
    ensures path !in ctx.fileInfos ==>
              Counted(NewFileInfo(ctx.analysisId, path, FileName(path).value, date), r.fileInfos[path],
                      date, ctx.referenceDate)
    ensures WellFormed(r)
  {
    var m := ctx.fileInfos;
    var before := if path in m then m[path] else NewFileInfo(ctx.analysisId, path, FileName(path).value, date);
    CountKeepsConsistent(before, date, ctx.referenceDate);
    ctx.(fileInfos := m[path := CountCommit(before, date, ctx.referenceDate)])
  }

  /** `updateFilePath` moves an entry: a usable new path and an old path
      that has an entry. */
  predicate Moves(ctx: Context, oldPath: Option<string>, newPath: Option<string>) {
    && newPath.Some? && !IsBlank(newPath.value)
    && oldPath.Some? && oldPath.value in ctx.fileInfos
  }

  /** `updateFilePath`: a null or blank new path deletes the old entry; a
      usable one moves the old entry there, rewriting its path and name and
      replacing whatever the new path held; a missing old entry changes
      nothing. */
  function UpdateFilePath(ctx: Context, oldPath: Option<string>, newPath: Option<string>): (r: Context)
    requires WellFormed(ctx)
    requires Moves(ctx, oldPath, newPath) ==> FileName(newPath.value).Some?
    ensures r.(fileInfos := ctx.fileInfos) == ctx
    ensures forall p :: p in r.fileInfos <==>
              (p in ctx.fileInfos && Some(p) != oldPath) || (Moves(ctx, oldPath, newPath) && Some(p) == newPath)
    ensures forall p :: p in r.fileInfos && !(Moves(ctx, oldPath, newPath) && Some(p) == newPath) ==>
              r.fileInfos[p] == ctx.fileInfos[p]
    ensures Moves(ctx, oldPath, newPath) ==>
              var moved := r.fileInfos[newPath.value];
              && moved.filePath == newPath.value && moved.fileName == FileName(newPath.value).value
              && moved.(filePath := ctx.fileInfos[oldPath.value].filePath,
                        fileName := ctx.fileInfos[oldPath.value].fileName) == ctx.fileInfos[oldPath.value]
    ensures WellFormed(r)
  {
    var m := ctx.fileInfos;
    if newPath.None? || IsBlank(newPath.value) then
      if oldPath.Some? then ctx.(fileInfos := m - {oldPath.value}) else ctx
    else if oldPath.Some? && oldPath.value in m then
      var n := newPath.value;
      var fi := m[oldPath.value];
      ctx.(fileInfos := (m - {oldPath.value})[n := fi.(filePath := n, fileName := FileName(n).value)])
    else
      ctx
  }

  /** Every path a commit records under has a name. */
  predicate NameablePaths(fs: seq<FileChange>) {
    forall i :: 0 <= i < |fs| ==> FileName(Contributions.RecordedPath(fs[i])).Some?
  }

  /** One changed file: a rename is moved first and the commit is counted
      under the new path. */
  function ApplyChange(ctx: Context, date: Date, f: FileChange): (r: Context)
    requires WellFormed(ctx) && Valid(date) && FileName(Contributions.RecordedPath(f)).Some?
    ensures WellFormed(r) && r.(fileInfos := ctx.fileInfos) == ctx
    ensures Contributions.RecordedPath(f) in r.fileInfos
  {
    if IsRenamed(f) then RecordContribution(UpdateFilePath(ctx, f.oldPath, f.newPath), f.newPath.value, date)
    else RecordContribution(ctx, f.filePath, date)
  }

  function ApplyChanges(ctx: Context, date: Date, fs: seq<FileChange>): (r: Context)
    requires WellFormed(ctx) && Valid(date) && NameablePaths(fs)
    decreases |fs|
    ensures WellFormed(r) && r.(fileInfos := ctx.fileInfos) == ctx
  {
    if |fs| == 0 then ctx
    else ApplyChange(ApplyChanges(ctx, date, fs[..|fs| - 1]), date, fs[|fs| - 1])
  }

  /** `processCommit`: a null commit or context changes nothing; otherwise
      each changed file is counted with the commit's date. */
  function ProcessCommit(ctx: Option<Context>, commit: Option<Commit>): (r: Option<Context>)
    requires ctx.Some? && commit.Some? ==>
               WellFormed(ctx.value) && HasValidDate(commit.value) && NameablePaths(commit.value.changedFiles)
    ensures ctx.None? || commit.None? ==> r == ctx
    ensures ctx.Some? && commit.Some? ==> r.Some? && WellFormed(r.value)
    ensures r.Some? ==> r.value.(fileInfos := ctx.value.fileInfos) == ctx.value
  {
    if ctx.None? || commit.None? then ctx
    else Some(ApplyChanges(ctx.value, CommitDate(commit.value), commit.value.changedFiles))
  }

  /** A rename with a usable new path carries the old entry over: the new
      path holds the old path's counters plus this commit and keeps its
      first commit date, and the old path is gone. */
  lemma RenameCarriesHistory(ctx: Context, date: Date, f: FileChange)
    requires WellFormed(ctx) && Valid(date) && FileName(Contributions.RecordedPath(f)).Some?
    requires IsRenamed(f) && !IsBlank(f.newPath.value) && f.oldPath.value in ctx.fileInfos
    ensures var r := ApplyChange(ctx, date, f).fileInfos;
            var prior := ctx.fileInfos[f.oldPath.value];
            var n := f.newPath.value;
            && r[n].totalCommits == prior.totalCommits + 1
            && r[n].firstCommitDate == prior.firstCommitDate
            && r[n].filePath == n && r[n].fileName == FileName(n).value
            && (f.oldPath.value != n ==> f.oldPath.value !in r)
  {
  }

  /** A rename whose new path is blank drops the old entry and starts a
      fresh one under the blank path. */
  lemma BlankRenameStartsOver(ctx: Context, date: Date, f: FileChange)
    requires WellFormed(ctx) && Valid(date) && FileName(Contributions.RecordedPath(f)).Some?
    requires IsRenamed(f) && IsBlank(f.newPath.value) && f.oldPath.value != f.newPath.value
    requires f.newPath.value !in ctx.fileInfos
    ensures var r := ApplyChange(ctx, date, f).fileInfos;
            && f.oldPath.value !in r
            && r[f.newPath.value].totalCommits == 1
            && r[f.newPath.value].firstCommitDate == Some(date)
  {
  }

  // ---------------------------------------------------------------------
  // cloc output
  // ---------------------------------------------------------------------

  /** The private `FileLinesData` record. */
  datatype FileLinesData = FileLinesData(language: string, code: int, comment: int, blank: int)

  /** `FileLinesData.total`. */
  function Total(d: FileLinesData): int {
    d.code + d.comment + d.blank
  }

  /** `line.split(",", 5)`. */
  function Fields(line: string): (parts: seq<string>)
    ensures 1 <= |parts| <= 5
  {
    JavaSplitLimit(line, ',', 5)
  }

  /** A line past the header that is neither the `SUM,` line nor short of
      five fields. */
  predicate IsDataRow(line: string) {
    !StartsWith(line, "SUM,") && |Fields(line)| >= 5
  }

  /** The three counts of a data row parse; a count that does not raises a
      NumberFormatException the analyzer does not catch. */
  predicate CountsParse(line: string) {
    IsDataRow(line) ==>
      var p := Fields(line);
      ParseInt(Trim(p[2])).Some? && ParseInt(Trim(p[3])).Some? && ParseInt(Trim(p[4])).Some?
  }

  /** The key of a data row: the trimmed path with every `./` removed. */
  function RowPath(line: string): string
    requires IsDataRow(line)
  {
    ReplaceAll(Trim(Fields(line)[1]), "./", "")
  }

  /** The record of a data row: language, blank, comment, code. */
  function RowData(line: string): (d: FileLinesData)
    requires IsDataRow(line) && CountsParse(line)
  {
    var p := Fields(line);
    FileLinesData(Trim(p[0]), ParseInt(Trim(p[4])).value, ParseInt(Trim(p[3])).value, ParseInt(Trim(p[2])).value)
  }

  predicate CountsParseAll(lines: seq<string>) {
    forall i :: 0 <= i < |lines| ==> CountsParse(lines[i])
  }

  /** What one line contributes: its key and record when it is a data row,
      nothing otherwise. */
  function ParseRow(line: string): (r: Option<(string, FileLinesData)>)
    requires CountsParse(line)
    ensures r.Some? <==> IsDataRow(line)
    ensures r.Some? ==> KeysRow(line, r.value.0)
  {
    if IsDataRow(line) then Some((RowPath(line), RowData(line))) else None
  }

  /** The reading loop after the header line: each data row is put under its
      key, a later row replacing an earlier one. */
  function ReadRows(rows: seq<Option<(string, FileLinesData)>>): (m: map<string, FileLinesData>)
    ensures |m| <= |rows|
    decreases |rows|
  {
    if |rows| == 0 then map[]
    else
      var m := ReadRows(rows[..|rows| - 1]);
      var r := rows[|rows| - 1];
      if r.Some? then m[r.value.0 := r.value.1] else m
  }

  /** Row `i` is keyed by `path`. */
  predicate RowFor(rows: seq<Option<(string, FileLinesData)>>, path: string, i: int) {
    0 <= i < |rows| && rows[i].Some? && rows[i].value.0 == path
  }

  /** Row `i` is the last row keyed by `path`. */
  predicate LastRowFor(rows: seq<Option<(string, FileLinesData)>>, path: string, i: int) {
    RowFor(rows, path, i) && forall j :: i < j < |rows| ==> !RowFor(rows, path, j)
  }

  /** Any row puts its key in the map. */
  lemma {:induction false} ReadRowsHas(rows: seq<Option<(string, FileLinesData)>>, path: string, i: nat)
    requires RowFor(rows, path, i)
    ensures path in ReadRows(rows)
    decreases |rows|
  {
    if i < |rows| - 1 {
      var front := rows[..|rows| - 1];
      assert front[i] == rows[i];
      ReadRowsHas(front, path, i);
    }
  }

  /** A key in the map holds the record of the last row keyed by it. */
  lemma {:induction false} ReadRowsLast(rows: seq<Option<(string, FileLinesData)>>, path: string) returns (i: nat)
    requires path in ReadRows(rows)
    ensures LastRowFor(rows, path, i) && ReadRows(rows)[path] == rows[i].value.1
    decreases |rows|
  {
    var front := rows[..|rows| - 1];
    if RowFor(rows, path, |rows| - 1) {
      i := |rows| - 1;
    } else {
      i := ReadRowsLast(front, path);
      forall j | i < j < |rows|
        ensures !RowFor(rows, path, j)
      {
        if j < |front| {
          assert !RowFor(front, path, j);
          assert front[j] == rows[j];
        }
      }
    }
  }

  /** A key is read exactly when some row is keyed by it, and it holds the
      record of the last such row. */
  lemma ReadRowsLastWins(rows: seq<Option<(string, FileLinesData)>>, path: string)
    ensures path in ReadRows(rows) <==> exists i :: RowFor(rows, path, i)
    ensures path in ReadRows(rows) ==> exists i :: LastRowFor(rows, path, i) && ReadRows(rows)[path] == rows[i].value.1
  {
    if path in ReadRows(rows) {
      var i := ReadRowsLast(rows, path);
    }
    if exists i :: RowFor(rows, path, i) {
      var i :| RowFor(rows, path, i);
      ReadRowsHas(rows, path, i);
    }
  }

  function ParseRows(lines: seq<string>): (rows: seq<Option<(string, FileLinesData)>>)
    requires CountsParseAll(lines)
    ensures |rows| == |lines| && forall i :: 0 <= i < |lines| ==> rows[i] == ParseRow(lines[i])
  {
    seq(|lines|, i requires 0 <= i < |lines| => ParseRow(lines[i]))
  }

  /** `getFileLinesData` on the lines `cloc` printed: the header line is
      skipped, then the rows are read. */
  function ParseClocOutput(lines: seq<string>): (m: map<string, FileLinesData>)
    requires |lines| > 0 ==> CountsParseAll(lines[1..])
    ensures |lines| <= 1 ==> m == map[]
    ensures |lines| > 0 ==> |m| <= |lines| - 1
  {
    if |lines| == 0 then map[] else ReadRows(ParseRows(lines[1..]))
  }

  /** The header line never counts, even when it looks like a data row. */
  lemma ClocHeaderIgnored(header: string, lines: seq<string>)
    requires CountsParseAll(lines)
    ensures ParseClocOutput([header] + lines) == ReadRows(ParseRows(lines))
  {
    assert ([header] + lines)[1..] == lines;
  }

  /** Line `line` is a data row keyed by `path`. */
  predicate KeysRow(line: string, path: string) {
    IsDataRow(line) && RowPath(line) == path
  }

  /** After the header, a path is read exactly when some data row is keyed
      by it, and it holds the record of the last such row: a later
      duplicate replaces an earlier one. */
  lemma ClocLastRowWins(header: string, body: seq<string>, path: string)
    requires CountsParseAll(body)
    ensures path in ParseClocOutput([header] + body) <==> exists i :: 0 <= i < |body| && KeysRow(body[i], path)
    ensures path in ParseClocOutput([header] + body) ==>
              exists i :: 0 <= i < |body| && KeysRow(body[i], path)
                          && ParseClocOutput([header] + body)[path] == RowData(body[i])
                          && forall j :: i < j < |body| ==> !KeysRow(body[j], path)
  {
    ClocHeaderIgnored(header, body);
    var rows := ParseRows(body);
    ReadRowsLastWins(rows, path);
    if path in ReadRows(rows) {
      var i := ReadRowsLast(rows, path);
      assert KeysRow(body[i], path);
      forall j | i < j < |body|
        ensures !KeysRow(body[j], path)
      {
        assert !RowFor(rows, path, j);
      }
    }
    if exists i :: 0 <= i < |body| && KeysRow(body[i], path) {
      var i :| 0 <= i < |body| && KeysRow(body[i], path);
      assert RowFor(rows, path, i);
    }
  }

  /** The rows of the `cloc` output come from data rows only, and the `SUM`
      line and short lines are skipped. */
  lemma ParseRowSkips(line: string)
    requires CountsParse(line)
    ensures StartsWith(line, "SUM,") ==> ParseRow(line).None?
    ensures |Fields(line)| < 5 ==> ParseRow(line).None?
    ensures IsDataRow(line) ==> ParseRow(line) == Some((RowPath(line), RowData(line)))
  {
  }

  /** The CSV line `cloc --by-file --csv` prints for one file. */
  function ClocRow(path: string, d: FileLinesData): string
    requires d.blank >= 0 && d.comment >= 0 && d.code >= 0
  {
    JoinWith([d.language, path, NatToDigits(d.blank), NatToDigits(d.comment), NatToDigits(d.code)], ',')
  }

  /** A field that survives `trim` and the comma split unchanged. */
  predicate PlainField(s: string) {
    |s| > 0 && ',' !in s && !IsTrimmed(s[0]) && !IsTrimmed(s[|s| - 1])
  }

  lemma TrimPlain(s: string)
    requires |s| > 0 && !IsTrimmed(s[0]) && !IsTrimmed(s[|s| - 1])
    ensures Trim(s) == s
  {
    LogRoundTrip.TrimBetween([], s, []);
    assert [] + s + [] == s;
  }

  lemma DigitsPlain(n: nat)
    ensures var s := NatToDigits(n); PlainField(s)
  {
    var s := NatToDigits(n);
    assert forall k :: 0 <= k < |s| ==> IsDigit(s[k]);
  }

  /** A row for a language other than `SUM` never starts with `SUM,`. */
  lemma NotSumLine(language: string, rest: string)
    requires ',' !in language && language != "SUM"
    ensures !StartsWith(language + "," + rest, "SUM,")
  {
    var line := language + "," + rest;
    assert line[|language|] == ',';
    if |language| >= 4 {
      assert line[3] == language[3];
    } else if |language| == 3 {
      assert line[..3] == language;
    }
  }

  /** Reading a printed row gives back its path and its record, provided
      the fields print plainly, the path holds no `./` and the counts fit
      in 32 bits. */
  lemma ClocRowRoundTrip(path: string, d: FileLinesData)
    requires PlainField(d.language) && d.language != "SUM"
    requires PlainField(path) && Lacks(path, "./")
    requires 0 <= d.blank <= INT_MAX && 0 <= d.comment <= INT_MAX && 0 <= d.code <= INT_MAX
    ensures IsDataRow(ClocRow(path, d)) && CountsParse(ClocRow(path, d))
    ensures RowPath(ClocRow(path, d)) == path && RowData(ClocRow(path, d)) == d
  {
    var b, c, k := NatToDigits(d.blank), NatToDigits(d.comment), NatToDigits(d.code);
    var parts := [d.language, path, b, c, k];
    DigitsPlain(d.blank);
    DigitsPlain(d.comment);
    DigitsPlain(d.code);
    SplitLimitJoin(parts, ',');
    var line := ClocRow(path, d);
    assert Fields(line) == parts;
    NotSumLine(d.language, JoinWith(parts[1..], ','));
    TrimPlain(d.language);
    TrimPlain(path);
    TrimPlain(b);
    TrimPlain(c);
    TrimPlain(k);
    ParseIntRoundTrip(d.blank);
    ParseIntRoundTrip(d.comment);
    ParseIntRoundTrip(d.code);
    ReplaceAllAbsent(path, "./", "");
  }

  // ---------------------------------------------------------------------
  // finishAnalysis
  // ---------------------------------------------------------------------

  /** `calculateCodeAge`: whole days and whole months from the last commit
      to the reference date; nothing else changes. */
  function WithCodeAge(fi: FileInfo, ref: Date): (r: FileInfo)
    requires Valid(ref) && fi.lastCommitDate.Some? && Valid(fi.lastCommitDate.value)
    ensures r.codeAgeDays.Some? && r.codeAgeMonths.Some?
    ensures r.codeAgeDays.value < 0 <==> IsBefore(ref, fi.lastCommitDate.value)
    ensures r.codeAgeDays.value == 0 <==> fi.lastCommitDate.value == ref
    ensures r.codeAgeMonths.value == MonthsBetween(fi.lastCommitDate.value, ref)
    ensures r.(codeAgeDays := fi.codeAgeDays, codeAgeMonths := fi.codeAgeMonths) == fi
  {
    var last := fi.lastCommitDate.value;
    fi.(codeAgeDays := Some(DaysBetween(last, ref)), codeAgeMonths := Some(MonthsBetween(last, ref)))
  }

  /** A last commit lies in the hot-spot period exactly when the code is
      younger than six whole months, or the commit falls on the period's
      first day (which is six whole months back). */
  lemma CodeAgeAndHotSpot(last: Date, ref: Date)
    requires Valid(last) && Valid(ref)
    ensures InHotSpotPeriod(last, ref) <==>
              MonthsBetween(last, ref) < HOT_SPOT_ANALYSIS_PERIOD_MONTHS
              || last == MinusMonths(ref, HOT_SPOT_ANALYSIS_PERIOD_MONTHS)
  {
    Authors.ActiveWindow(last, ref, HOT_SPOT_ANALYSIS_PERIOD_MONTHS);
    MonthsBetweenMinusMonths(ref, HOT_SPOT_ANALYSIS_PERIOD_MONTHS);
  }

  /** `addLinesData`: with a record for the row's path, the language and the
      three counts are copied and the total is their sum; without one the
      row is left alone. */
  function WithLinesData(fi: FileInfo, data: map<string, FileLinesData>): (r: FileInfo)
    ensures fi.filePath !in data ==> r == fi
    ensures fi.filePath in data ==>
              var d := data[fi.filePath];
              && r.fileType == Some(d.language)
              && r.codeLines == Some(d.code) && r.commentLines == Some(d.comment) && r.blankLines == Some(d.blank)
              && r.totalLines == Some(r.codeLines.value + r.commentLines.value + r.blankLines.value)
    ensures r.(fileType := fi.fileType, totalLines := fi.totalLines, codeLines := fi.codeLines,
               commentLines := fi.commentLines, blankLines := fi.blankLines) == fi
  {
    if fi.filePath in data then
      var d := data[fi.filePath];
      fi.(fileType := Some(d.language), codeLines := Some(d.code), commentLines := Some(d.comment),
          blankLines := Some(d.blank), totalLines := Some(Total(d)))
    else fi
  }

  function Finished(fi: FileInfo, ref: Date, data: map<string, FileLinesData>): (r: FileInfo)
    requires Valid(ref) && fi.lastCommitDate.Some? && Valid(fi.lastCommitDate.value)
    ensures r.analysisId == fi.analysisId && r.filePath == fi.filePath
  {
    WithLinesData(WithCodeAge(fi, ref), data)
  }

  /** The `existingFiles.contains(fileInfo.getFilePath())` filter over the
      map's iteration order, keeping that order. */
  function KeptPaths(order: seq<string>, m: map<string, FileInfo>, existing: set<string>): (kept: seq<string>)
    decreases |order|
    ensures forall k :: 0 <= k < |kept| ==> kept[k] in m && m[kept[k]].filePath in existing && kept[k] in order
  {
    if |order| == 0 then []
    else
      var h := order[0];
      var rest := KeptPaths(order[1..], m, existing);
      if h in m && m[h].filePath in existing then [h] + rest else rest
  }

  /** Every listed path whose row names an existing file is kept. */
  lemma {:induction false} KeptPathsComplete(order: seq<string>, m: map<string, FileInfo>, existing: set<string>, p: string)
    requires p in order && p in m && m[p].filePath in existing
    ensures p in KeptPaths(order, m, existing)
    decreases |order|
  {
    if order[0] != p {
      KeptPathsComplete(order[1..], m, existing, p);
    }
  }

  predicate NoRepeats(s: seq<string>) {
    forall k, l :: 0 <= k < l < |s| ==> s[k] != s[l]
  }

  /** A listing without repeats keeps none twice. */
  lemma {:induction false} KeptPathsDistinct(order: seq<string>, m: map<string, FileInfo>, existing: set<string>)
    requires NoRepeats(order)
    ensures NoRepeats(KeptPaths(order, m, existing))
    decreases |order|
  {
    if |order| > 0 {
      var tail := order[1..];
      assert forall k :: 0 <= k < |tail| ==> tail[k] == order[k + 1];
      KeptPathsDistinct(tail, m, existing);
      var rest := KeptPaths(tail, m, existing);
      if order[0] in m && m[order[0]].filePath in existing {
        var kept := [order[0]] + rest;
        forall k, l | 0 <= k < l < |kept|
          ensures kept[k] != kept[l]
        {
          assert kept[l] == rest[l - 1] && rest[l - 1] in tail;
          if k > 0 {
            assert kept[k] == rest[k - 1];
          }
        }
      }
    }
  }

  predicate FinishRequires(ctx: Context, order: seq<string>, clocLines: seq<string>) {
    && WellFormed(ctx) && Authors.ListsKeys(order, ctx.fileInfos)
    && ctx.repositoryPath.Some?
    && (|clocLines| > 0 ==> CountsParseAll(clocLines[1..]))
  }

  /** `finishAnalysis`: the rows of existing files, in the map's iteration
      order, each with its code age and `cloc` record, saved in batches of
      500. A null context saves nothing; a null repository path would throw
      and is excluded. */
  function FinishAnalysis(ctx: Option<Context>, order: seq<string>, existing: set<string>, clocLines: seq<string>)
    : (saved: seq<seq<FileInfo>>)
    requires ctx.Some? ==> FinishRequires(ctx.value, order, clocLines)
    ensures ctx.None? ==> saved == []
    ensures ctx.Some? ==>
              var m := ctx.value.fileInfos;
              var kept := KeptPaths(order, m, existing);
              && |Batches.Flatten(saved)| == |kept|
              && forall k :: 0 <= k < |kept| ==>
                   Batches.Flatten(saved)[k]
                   == Finished(m[kept[k]], ctx.value.referenceDate, ParseClocOutput(clocLines))
    ensures forall b :: 0 <= b < |saved| ==> 0 < |saved[b]| <= Batches.DEFAULT_SAVE_BATCH_SIZE
  {
    if ctx.None? then []
    else
      var m := ctx.value.fileInfos;
      var kept := KeptPaths(order, m, existing);
      var data := ParseClocOutput(clocLines);
      var rows := seq(|kept|, k requires 0 <= k < |kept| => Finished(m[kept[k]], ctx.value.referenceDate, data));
      Batches.ChunksFlatten(rows, Batches.DEFAULT_SAVE_BATCH_SIZE);
      Batches.ChunkShape(rows, Batches.DEFAULT_SAVE_BATCH_SIZE);
      Batches.Chunks(rows, Batches.DEFAULT_SAVE_BATCH_SIZE)
  }

  /** The saved rows respect the unique (analysisId, filePath) index: one
      row per tracked file that still exists, none for any other file. */
  lemma FinishedRowsUnique(ctx: Context, order: seq<string>, existing: set<string>, clocLines: seq<string>)
    requires FinishRequires(ctx, order, clocLines)
    ensures var rows := Batches.Flatten(FinishAnalysis(Some(ctx), order, existing, clocLines));
            && (forall k :: 0 <= k < |rows| ==> rows[k].analysisId == ctx.analysisId && rows[k].filePath in existing)
            && (forall k, l :: 0 <= k < l < |rows| ==> rows[k].filePath != rows[l].filePath)
            && (forall p :: p in ctx.fileInfos && p in existing ==> exists k :: 0 <= k < |rows| && rows[k].filePath == p)
  {
    var m := ctx.fileInfos;
    var kept := KeptPaths(order, m, existing);
    var rows := Batches.Flatten(FinishAnalysis(Some(ctx), order, existing, clocLines));
    KeptPathsDistinct(order, m, existing);
    assert forall k :: 0 <= k < |rows| ==> rows[k].filePath == kept[k] && rows[k].analysisId == ctx.analysisId;
    forall p | p in m && p in existing
      ensures exists k :: 0 <= k < |rows| && rows[k].filePath == p
    {
      KeptPathsComplete(order, m, existing, p);
      var k :| 0 <= k < |kept| && kept[k] == p;
      assert rows[k].filePath == p;
    }
  }
}

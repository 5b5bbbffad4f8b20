/** The parser's output records: a commit and the per-file line counts of
    its numstat section, shared by both generations of the analyzers. */
module Commits {

  import opened Nullable
  import JavaLang
  import Dates

  /** One numstat entry. `oldPath`/`newPath` are set only when the path
      carried git's rename notation. */
  datatype FileChange = FileChange(
    filePath: string,
    linesAdded: int,
    linesDeleted: int,
    oldPath: Option<string>,
    newPath: Option<string>)

  /** The three-argument constructor: no rename information. */
  function Unrenamed(filePath: string, linesAdded: int, linesDeleted: int): (f: FileChange)
    ensures f.filePath == filePath && f.linesAdded == linesAdded && f.linesDeleted == linesDeleted
    ensures !IsRenamed(f)
  {
    FileChange(filePath, linesAdded, linesDeleted, None, None)
  }

  /** `withFilePathChange`: the same counts and path, new rename paths. */
  function WithFilePathChange(f: FileChange, oldPath: Option<string>, newPath: Option<string>): (r: FileChange)
    ensures r.filePath == f.filePath && r.linesAdded == f.linesAdded && r.linesDeleted == f.linesDeleted
    ensures IsRenamed(r) <==> oldPath.Some? && newPath.Some?
    ensures r.oldPath == oldPath && r.newPath == newPath
  {
    FileChange(f.filePath, f.linesAdded, f.linesDeleted, oldPath, newPath)
  }

  predicate IsRenamed(f: FileChange) {
    f.oldPath.Some? && f.newPath.Some?
  }

  /** A change built with the three-argument constructor and then given two
      rename paths exposes exactly those paths, and nothing else moved. */
  lemma RenameOfUnrenamed(path: string, added: int, deleted: int, o: string, n: string)
    ensures var f := WithFilePathChange(Unrenamed(path, added, deleted), Some(o), Some(n));
            IsRenamed(f) && f.oldPath.value == o && f.newPath.value == n
            && f == FileChange(path, added, deleted, Some(o), Some(n))
  {
  }

  /** `date` is kept as the captured `YYYY-MM-DD` text, as the source does. */
  datatype Commit = Commit(
    hash: string,
    date: string,
    author: string,
    email: string,
    changedFiles: seq<FileChange>)

  /** `getCommitDateAsLocalDate` succeeds: the analyzers call it without a
      guard, so a date that does not parse is excluded by their callers. */
  predicate HasValidDate(c: Commit) {
    Dates.ParseIsoDate(c.date).Some?
  }

  function CommitDate(c: Commit): (d: Dates.Date)
    requires HasValidDate(c)
    ensures Dates.Valid(d)
  {
    Dates.ParseIsoDate(c.date).value
  }

  /** Sums of added and deleted lines over a commit's changed files (the
      analyzers' `mapToInt(...).sum()`). */
  function SumAdded(fs: seq<FileChange>): int
  {
    if |fs| == 0 then 0 else SumAdded(fs[..|fs| - 1]) + fs[|fs| - 1].linesAdded
  }

  function SumDeleted(fs: seq<FileChange>): int
  {
    if |fs| == 0 then 0 else SumDeleted(fs[..|fs| - 1]) + fs[|fs| - 1].linesDeleted
  }

  /** Counts never go negative in a parsed commit. */
  predicate NonNegativeCounts(fs: seq<FileChange>) {
    forall i :: 0 <= i < |fs| ==> fs[i].linesAdded >= 0 && fs[i].linesDeleted >= 0
  }

  lemma {:induction false} SumsNonNegative(fs: seq<FileChange>)
    requires NonNegativeCounts(fs)
    ensures SumAdded(fs) >= 0 && SumDeleted(fs) >= 0
    decreases |fs|
  {
    if |fs| > 0 {
      SumsNonNegative(fs[..|fs| - 1]);
    }
  }
}

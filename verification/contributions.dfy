/** Per-file, per-author contribution counters: the `AuthorContribution`
    record, the file-analysis `KnowledgeAnalyzerContext` that maps each path
    to its authors' counters, and the commit fold that the knowledge and
    ownership analyzers run over it. */
module Contributions {

  import opened Nullable
  import opened JavaLang
  import opened Commits

  // ---------------------------------------------------------------------
  // AuthorContribution
  // ---------------------------------------------------------------------

  datatype AuthorContribution = AuthorContribution(
    name: string,
    linesAdded: int,
    commits: int,
    contributionPercentage: real)

  /** `new AuthorContribution(name)`: every counter at zero. */
  function NewContribution(name: string): (c: AuthorContribution)
    ensures c.name == name && c.linesAdded == 0 && c.commits == 0
    ensures c.contributionPercentage == 0.0
  {
    AuthorContribution(name, 0, 0, 0.0)
  }

  function IncreaseLinesAdded(c: AuthorContribution, lines: int): (r: AuthorContribution)
    ensures r.linesAdded == c.linesAdded + lines
    ensures r.name == c.name && r.commits == c.commits
    ensures r.contributionPercentage == c.contributionPercentage
  {
    c.(linesAdded := c.linesAdded + lines)
  }

  function IncrementCommits(c: AuthorContribution): (r: AuthorContribution)
    ensures r.commits == c.commits + 1
    ensures r.name == c.name && r.linesAdded == c.linesAdded
    ensures r.contributionPercentage == c.contributionPercentage
  {
    c.(commits := c.commits + 1)
  }

  // ---------------------------------------------------------------------
  // KnowledgeAnalyzerContext
  // ---------------------------------------------------------------------

  type AuthorMap = map<string, AuthorContribution>

  type FileMap = map<string, AuthorMap>

  /** The context of one analysis run. A null repository path makes the
      file-analysis analyzers' finish step do nothing. */
  datatype Context = Context(
    analysisId: string,
    repositoryPath: Option<string>,
    fileContributions: FileMap)

  function StartAnalysis(analysisId: string, repositoryPath: Option<string>): (c: Context)
    ensures c.analysisId == analysisId && c.repositoryPath == repositoryPath
    ensures c.fileContributions == map[]
  {
    Context(analysisId, repositoryPath, map[])
  }

  /** Every counter is filed under its author's name. */
  predicate NamesMatch(m: FileMap) {
    forall f, a :: f in m && a in m[f] ==> m[f][a].name == a
  }

  /** The counter a path/author pair holds, or a fresh one. */
  function Current(m: FileMap, filePath: string, name: string): (c: AuthorContribution)
    ensures c.name == name || (filePath in m && name in m[filePath] && c == m[filePath][name])
  {
    if filePath in m && name in m[filePath] then m[filePath][name] else NewContribution(name)
  }

  /** The authors recorded for a path so far. */
  function Authors(m: FileMap, filePath: string): set<string> {
    if filePath in m then m[filePath].Keys else {}
  }

  /** `recordContribution(filePath, name, linesAdded)`: one more commit and
      `linesAdded` more lines for the pair, starting from zero when the
      pair is new; every other pair keeps its counter. */
  function RecordContribution(m: FileMap, filePath: string, name: string, linesAdded: int): (r: FileMap)
    ensures r.Keys == m.Keys + {filePath}
    ensures forall f :: f in m && f != filePath ==> r[f] == m[f]
    ensures r[filePath].Keys == Authors(m, filePath) + {name}
    ensures forall a :: a in Authors(m, filePath) && a != name ==> r[filePath][a] == m[filePath][a]
    ensures var c := Current(m, filePath, name);
            && r[filePath][name].commits == c.commits + 1
            && r[filePath][name].linesAdded == c.linesAdded + linesAdded
            && r[filePath][name].name == c.name
            && r[filePath][name].contributionPercentage == c.contributionPercentage
    ensures NamesMatch(m) ==> NamesMatch(r)
  {
    var authors := if filePath in m then m[filePath] else map[];
    var c := Current(m, filePath, name);
    m[filePath := authors[name := IncrementCommits(IncreaseLinesAdded(c, linesAdded))]]
  }

  /** `updateFilePath(oldPath, newPath)`: a null or blank new path drops the
      old entry; otherwise the old entry, if any, is moved to the new path,
      replacing whatever was there. */
  function UpdateFilePath<V>(m: map<string, V>, oldPath: string, newPath: Option<string>): (r: map<string, V>)
    ensures newPath.None? || IsBlank(newPath.value) ==>
              r.Keys == m.Keys - {oldPath} && forall f :: f in r ==> r[f] == m[f]
    ensures newPath.Some? && !IsBlank(newPath.value) && oldPath in m ==>
              && r.Keys == m.Keys - {oldPath} + {newPath.value}
              && r[newPath.value] == m[oldPath]
              && forall f :: f in r && f != newPath.value ==> r[f] == m[f]
    ensures newPath.Some? && !IsBlank(newPath.value) && oldPath !in m ==> r == m
  {
    if newPath.None? || IsBlank(newPath.value) then m - {oldPath}
    else if oldPath in m then (m - {oldPath})[newPath.value := m[oldPath]]
    else m
  }

  /** Moving an entry to a free path and back restores the map. */
  lemma MoveAndBack<V>(m: map<string, V>, a: string, b: string)
    requires a in m && b !in m && !IsBlank(a) && !IsBlank(b)
    ensures UpdateFilePath(UpdateFilePath(m, a, Some(b)), b, Some(a)) == m
  {
    var m1 := UpdateFilePath(m, a, Some(b));
    var m2 := UpdateFilePath(m1, b, Some(a));
    assert m2.Keys == m.Keys;
  }

  // ---------------------------------------------------------------------
  // The commit fold (knowledge and ownership `processCommit`)
  // ---------------------------------------------------------------------

  /** The path a change is recorded under: the new path of a rename. */
  function RecordedPath(f: FileChange): string {
    if IsRenamed(f) then f.newPath.value else f.filePath
  }

  /** One changed file: a rename first moves the old path's counters, then
      the contribution is recorded under the path the file now has. */
  function ApplyChange(m: FileMap, author: string, f: FileChange): (r: FileMap)
    ensures NamesMatch(m) ==> NamesMatch(r)
  {
    var moved := if IsRenamed(f) then UpdateFilePath(m, f.oldPath.value, f.newPath) else m;
    RecordContribution(moved, RecordedPath(f), author, f.linesAdded)
  }

  /** The changed files of one commit, in order. */
  function ApplyChanges(m: FileMap, author: string, fs: seq<FileChange>): (r: FileMap)
    decreases |fs|
    ensures NamesMatch(m) ==> NamesMatch(r)
  {
    if |fs| == 0 then m
    else ApplyChange(ApplyChanges(m, author, fs[..|fs| - 1]), author, fs[|fs| - 1])
  }

  /** `processCommit(commit, context)`: a null commit or context changes
      nothing. */
  function ProcessCommit(ctx: Option<Context>, commit: Option<Commit>): (r: Option<Context>)
    ensures ctx.None? || commit.None? ==> r == ctx
    ensures r.Some? ==> r.value.analysisId == ctx.value.analysisId && r.value.repositoryPath == ctx.value.repositoryPath
  {
    if ctx.None? || commit.None? then ctx
    else
      var c := ctx.value;
      Some(c.(fileContributions := ApplyChanges(c.fileContributions, commit.value.author, commit.value.changedFiles)))
  }

  /** A rename with a usable new path carries the old path's history over:
      the new path holds exactly the old path's authors plus the committer,
      and nothing that was at the new path before survives unless it was
      also at the old path (a replacement, not a merge). */
  lemma RenameCarriesHistory(m: FileMap, author: string, f: FileChange)
    requires IsRenamed(f) && !IsBlank(f.newPath.value) && f.oldPath.value in m
    ensures var r := ApplyChange(m, author, f);
            var n := f.newPath.value;
            && r[n].Keys == m[f.oldPath.value].Keys + {author}
            && (forall a :: a in m[f.oldPath.value] && a != author ==> r[n][a] == m[f.oldPath.value][a])
            && r[n][author].commits == Current(m, f.oldPath.value, author).commits + 1
            && (f.oldPath.value != n ==> f.oldPath.value !in r)
  {
    var moved := UpdateFilePath(m, f.oldPath.value, f.newPath);
    assert Current(moved, f.newPath.value, author) == Current(m, f.oldPath.value, author);
  }

  /** A change whose path is not a rename only touches its own path. */
  lemma PlainChangeLocal(m: FileMap, author: string, f: FileChange, g: string)
    requires !IsRenamed(f) && g != f.filePath
    ensures var r := ApplyChange(m, author, f);
            (g in r <==> g in m) && (g in m ==> r[g] == m[g])
  {
  }

  // ---------------------------------------------------------------------
  // Counting: without renames, the counters are plain tallies
  // ---------------------------------------------------------------------

  predicate NoRenames(fs: seq<FileChange>) {
    forall i :: 0 <= i < |fs| ==> !IsRenamed(fs[i])
  }

  /** How many of the changes touch path p. */
  function Touches(fs: seq<FileChange>, p: string): nat
    decreases |fs|
  {
    if |fs| == 0 then 0
    else Touches(fs[..|fs| - 1], p) + (if fs[|fs| - 1].filePath == p then 1 else 0)
  }

  /** Lines added by the changes that touch path p. */
  function AddedTo(fs: seq<FileChange>, p: string): int
    decreases |fs|
  {
    if |fs| == 0 then 0
    else AddedTo(fs[..|fs| - 1], p) + (if fs[|fs| - 1].filePath == p then fs[|fs| - 1].linesAdded else 0)
  }

  /** Over a commit without renames, the author's counter for each path
      grows by the number of changes to that path and their added lines. */
  lemma {:induction false} TallyChanges(m: FileMap, author: string, fs: seq<FileChange>, p: string)
    requires NoRenames(fs)
    ensures var r := ApplyChanges(m, author, fs);
            && Current(r, p, author).commits == Current(m, p, author).commits + Touches(fs, p)
            && Current(r, p, author).linesAdded == Current(m, p, author).linesAdded + AddedTo(fs, p)
    decreases |fs|
  {
    if |fs| > 0 {
      var init := fs[..|fs| - 1];
      assert NoRenames(init) by {
        forall i | 0 <= i < |init| ensures !IsRenamed(init[i]) {
          assert init[i] == fs[i];
        }
      }
      TallyChanges(m, author, init, p);
      TallyStep(ApplyChanges(m, author, init), author, fs[|fs| - 1], p);
    }
  }

  lemma TallyStep(m: FileMap, author: string, f: FileChange, p: string)
    requires !IsRenamed(f)
    ensures var r := ApplyChange(m, author, f);
            && Current(r, p, author).commits == Current(m, p, author).commits + (if f.filePath == p then 1 else 0)
            && Current(r, p, author).linesAdded == Current(m, p, author).linesAdded + (if f.filePath == p then f.linesAdded else 0)
  {
  }

  // ---------------------------------------------------------------------
  // Iteration order of the finish step
  // ---------------------------------------------------------------------

  /** One entry of the file map as the finish step sees it: the path and
      the author counters in the map's iteration order. */
  type Entry = (string, seq<AuthorContribution>)

  /** `vs` lists the counters of `am`, each author once. */
  predicate ListsAuthors(vs: seq<AuthorContribution>, am: AuthorMap) {
    && (forall i :: 0 <= i < |vs| ==> vs[i].name in am && am[vs[i].name] == vs[i])
    && (forall i, j :: 0 <= i < j < |vs| ==> vs[i].name != vs[j].name)
    && (forall a :: a in am ==> exists i :: 0 <= i < |vs| && vs[i].name == a)
  }

  /** `entries` is an iteration order of `m`: each path once, with its
      counters listed. */
  predicate ListsFiles(entries: seq<Entry>, m: FileMap) {
    && (forall i :: 0 <= i < |entries| ==> entries[i].0 in m && ListsAuthors(entries[i].1, m[entries[i].0]))
    && DistinctPaths(entries)
    && (forall f :: f in m ==> exists i :: 0 <= i < |entries| && entries[i].0 == f)
  }

  /** The `existingFiles.contains(path)` filter, keeping the order. */
  function KeptEntries(entries: seq<Entry>, existing: set<string>): (r: seq<Entry>)
    decreases |entries|
    ensures |r| <= |entries|
    ensures forall k :: 0 <= k < |r| ==> r[k].0 in existing && r[k] in entries
  {
    if |entries| == 0 then []
    else
      var rest := KeptEntries(entries[1..], existing);
      assert forall k :: 0 <= k < |rest| ==> rest[k] in entries;
      if entries[0].0 in existing then [entries[0]] + rest else rest
  }

  /** The kept entries are exactly the tracked paths of the map, each once,
      each with its own counters. */
  lemma KeptEntriesCover(entries: seq<Entry>, m: FileMap, existing: set<string>)
    requires ListsFiles(entries, m)
    ensures var r := KeptEntries(entries, existing);
            && (forall k :: 0 <= k < |r| ==> r[k].0 in m && r[k].0 in existing && ListsAuthors(r[k].1, m[r[k].0]))
            && DistinctPaths(r)
            && (forall f :: f in m && f in existing ==> exists k :: 0 <= k < |r| && r[k].0 == f)
  {
    KeptDistinct(entries, existing);
    var r := KeptEntries(entries, existing);
    forall f | f in m && f in existing
      ensures exists k :: 0 <= k < |r| && r[k].0 == f
    {
      var i :| 0 <= i < |entries| && entries[i].0 == f;
      KeptHas(entries, existing, i);
    }
  }

  predicate DistinctPaths(es: seq<Entry>) {
    forall i, j :: 0 <= i < j < |es| ==> es[i].0 != es[j].0
  }

  lemma {:induction false} KeptDistinct(entries: seq<Entry>, existing: set<string>)
    requires DistinctPaths(entries)
    ensures DistinctPaths(KeptEntries(entries, existing))
    decreases |entries|
  {
    if |entries| > 0 {
      KeptDistinct(entries[1..], existing);
      var rest := KeptEntries(entries[1..], existing);
      forall k | 0 <= k < |rest|
        ensures rest[k].0 != entries[0].0
      {
        var j :| 0 <= j < |entries[1..]| && entries[1..][j] == rest[k];
        assert entries[j + 1] == rest[k];
      }
      var r := KeptEntries(entries, existing);
      if entries[0].0 in existing {
        assert r == [entries[0]] + rest;
        forall k, l | 0 <= k < l < |r|
          ensures r[k].0 != r[l].0
        {
          assert r[l] == rest[l - 1];
          if k > 0 {
            assert r[k] == rest[k - 1];
          }
        }
      } else {
        assert r == rest;
      }
    }
  }

  lemma {:induction false} KeptHas(entries: seq<Entry>, existing: set<string>, i: nat)
    requires i < |entries| && entries[i].0 in existing
    ensures exists k :: 0 <= k < |KeptEntries(entries, existing)| && KeptEntries(entries, existing)[k] == entries[i]
    decreases |entries|
  {
    var r := KeptEntries(entries, existing);
    if i == 0 {
      assert r[0] == entries[0];
    } else {
      KeptHas(entries[1..], existing, i - 1);
      var rest := KeptEntries(entries[1..], existing);
      var k :| 0 <= k < |rest| && rest[k] == entries[1..][i - 1];
      if entries[0].0 in existing {
        assert r[k + 1] == rest[k];
      }
    }
  }
}

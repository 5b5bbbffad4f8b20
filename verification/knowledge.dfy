/** The repository-analysis `KnowledgeAnalyzer`: one `FileKnowledge` row
    per tracked file with its contributors ranked by share of added lines
    and a lead author, saved in batches; later enriched with the share of
    lines whose authors are no longer active (the knowledge loss). */
module Knowledge {

  import opened Nullable
  import opened Contributions
  import opened Ranking
  import Batches

  datatype FileKnowledge = FileKnowledge(
    analysisId: string,
    filePath: string,
    linesAdded: int,
    commits: int,
    authorContributions: seq<AuthorContribution>,
    leadAuthor: Option<string>,
    leadAuthorKnowledgePercentage: Option<real>,
    contributors: int,
    activeContributors: Option<int>,
    knowledgeLoss: real)

  /** `calculateFileKnowledge`: totals, percentages, the ranked list and
      the lead. `values` are the file's counters in the map's iteration
      order. */
  function CalculateFileKnowledge(analysisId: string, filePath: string, values: seq<AuthorContribution>)
    : (r: FileKnowledge)
    ensures r.analysisId == analysisId && r.filePath == filePath
    ensures r.linesAdded == SumLines(values) && r.commits == SumCommits(values)
    ensures r.contributors == |values|
    ensures multiset(r.authorContributions) == multiset(WithPercentages(values, SumLines(values)))
    ensures SortedDesc(r.authorContributions)
    ensures SumLines(r.authorContributions) == r.linesAdded
    ensures var lead := LeadContribution(WithPercentages(values, SumLines(values)));
            && (lead.None? ==> r.leadAuthor.None? && r.leadAuthorKnowledgePercentage.None?)
            && (lead.Some? ==> r.leadAuthor == Some(lead.value.name)
                               && r.leadAuthorKnowledgePercentage == Some(lead.value.contributionPercentage))
    ensures r.activeContributors.None? && r.knowledgeLoss == 0.0
  {
    var total := SumLines(values);
    var annotated := WithPercentages(values, total);
    var ranked := SortDesc(annotated);
    SortSorted(annotated);
    SortSums(annotated);
    PercentagesKeepSums(values, total);
    LeadIgnoresSort(annotated);
    var lead := LeadContribution(ranked);
    FileKnowledge(
      analysisId, filePath, total, SumCommits(values), ranked,
      if lead.Some? then Some(lead.value.name) else None,
      if lead.Some? then Some(lead.value.contributionPercentage) else None,
      |ranked|, None, 0.0)
  }

  /** The rows `finishAnalysis` builds: one per tracked path, in the
      map's iteration order. */
  function FinishRows(analysisId: string, entries: seq<Entry>, existing: set<string>): (rows: seq<FileKnowledge>)
    ensures |rows| == |RowPaths(entries, existing)|
    ensures forall k :: 0 <= k < |rows| ==>
              && rows[k].analysisId == analysisId && rows[k].filePath == RowPaths(entries, existing)[k]
              && rows[k].linesAdded == SumLines(KeptEntries(entries, existing)[k].1)
  {
    var kept := KeptEntries(entries, existing);
    seq(|kept|, k requires 0 <= k < |kept| => CalculateFileKnowledge(analysisId, kept[k].0, kept[k].1))
  }

  /** One path per tracked path of the map: every listed path is tracked
      and recorded, none is listed twice, and every tracked recorded path
      is listed. */
  predicate OnePerTrackedPath(ps: seq<string>, m: FileMap, existing: set<string>) {
    && (forall k :: 0 <= k < |ps| ==> ps[k] in m && ps[k] in existing)
    && (forall k, l :: 0 <= k < l < |ps| ==> ps[k] != ps[l])
    && (forall f :: f in m && f in existing ==> f in ps)
  }

  /** The rows' paths are one per tracked path of the map. */
  predicate SavedOnePerTrackedPath(rows: seq<FileKnowledge>, m: FileMap, existing: set<string>) {
    && (forall k :: 0 <= k < |rows| ==> rows[k].filePath in m && rows[k].filePath in existing)
    && (forall k, l :: 0 <= k < l < |rows| ==> rows[k].filePath != rows[l].filePath)
    && (forall f :: f in m && f in existing ==> exists k :: 0 <= k < |rows| && rows[k].filePath == f)
  }

  /** The paths finish emits rows for, in order. */
  function RowPaths(entries: seq<Entry>, existing: set<string>): (ps: seq<string>)
    ensures |ps| == |KeptEntries(entries, existing)|
    ensures forall k :: 0 <= k < |ps| ==> ps[k] == KeptEntries(entries, existing)[k].0
  {
    var kept := KeptEntries(entries, existing);
    seq(|kept|, k requires 0 <= k < |kept| => kept[k].0)
  }

  /** Finish emits one row per tracked path of the map. */
  lemma RowPathsCover(entries: seq<Entry>, m: FileMap, existing: set<string>)
    requires ListsFiles(entries, m)
    ensures OnePerTrackedPath(RowPaths(entries, existing), m, existing)
  {
    KeptEntriesCover(entries, m, existing);
    var kept := KeptEntries(entries, existing);
    var ps := RowPaths(entries, existing);
    forall f | f in m && f in existing
      ensures f in ps
    {
      var k :| 0 <= k < |kept| && kept[k].0 == f;
      assert ps[k] == f;
    }
  }

  /** The rows finish builds are one per tracked path. */
  lemma FinishRowsOnePerPath(analysisId: string, entries: seq<Entry>, m: FileMap, existing: set<string>)
    requires ListsFiles(entries, m)
    ensures SavedOnePerTrackedPath(FinishRows(analysisId, entries, existing), m, existing)
  {
    RowPathsCover(entries, m, existing);
    var rows := FinishRows(analysisId, entries, existing);
    var ps := RowPaths(entries, existing);
    assert forall k :: 0 <= k < |rows| ==> rows[k].filePath == ps[k];
    forall f | f in m && f in existing
      ensures exists k :: 0 <= k < |rows| && rows[k].filePath == f
    {
      var k :| 0 <= k < |ps| && ps[k] == f;
      assert rows[k].filePath == f;
    }
  }

  /** Each row counts the authors recorded for its path. */
  lemma FinishRowsContributors(analysisId: string, entries: seq<Entry>, m: FileMap, existing: set<string>, k: nat)
    requires ListsFiles(entries, m) && k < |FinishRows(analysisId, entries, existing)|
    ensures var row := FinishRows(analysisId, entries, existing)[k];
            row.filePath in m && row.contributors == |m[row.filePath]|
  {
    KeptEntriesCover(entries, m, existing);
    var kept := KeptEntries(entries, existing);
    ListedCount(kept[k].1, m[kept[k].0]);
  }

  /** A listing of a map's counters has one element per author. */
  lemma ListedCount(vs: seq<AuthorContribution>, am: AuthorMap)
    requires ListsAuthors(vs, am)
    ensures |vs| == |am|
  {
    var names := set i | 0 <= i < |vs| :: vs[i].name;
    assert names == am.Keys;
    NamesCount(vs);
  }

  lemma {:induction false} NamesCount(vs: seq<AuthorContribution>)
    requires forall i, j :: 0 <= i < j < |vs| ==> vs[i].name != vs[j].name
    ensures |set i | 0 <= i < |vs| :: vs[i].name| == |vs|
    decreases |vs|
  {
    if |vs| > 0 {
      var init := vs[..|vs| - 1];
      NamesCount(init);
      var s := set i | 0 <= i < |init| :: init[i].name;
      var t := set i | 0 <= i < |vs| :: vs[i].name;
      assert t == s + {vs[|vs| - 1].name};
      assert vs[|vs| - 1].name !in s;
    }
  }

  /** `finishAnalysis`: the `saveAll` calls, batches of 500 rows, one row
      per tracked path of the context's map. A null context saves nothing.
      There is no guard for a null repository path: reading the tracked
      files would throw, so the path is required. */
  function FinishAnalysis(ctx: Option<Context>, entries: seq<Entry>, existing: set<string>)
    : (saved: seq<seq<FileKnowledge>>)
    requires ctx.Some? ==> ctx.value.repositoryPath.Some?
    requires ctx.Some? ==> ListsFiles(entries, ctx.value.fileContributions)
    ensures ctx.None? ==> saved == []
    ensures ctx.Some? ==> Batches.Flatten(saved) == FinishRows(ctx.value.analysisId, entries, existing)
    ensures ctx.Some? ==> SavedOnePerTrackedPath(Batches.Flatten(saved), ctx.value.fileContributions, existing)
    ensures forall b :: 0 <= b < |saved| ==> 0 < |saved[b]| <= Batches.DEFAULT_SAVE_BATCH_SIZE
  {
    if ctx.None? then []
    else
      var rows := FinishRows(ctx.value.analysisId, entries, existing);
      FinishRowsOnePerPath(ctx.value.analysisId, entries, ctx.value.fileContributions, existing);
      Batches.ChunkShape(rows, Batches.DEFAULT_SAVE_BATCH_SIZE);
      Batches.ChunksFlatten(rows, Batches.DEFAULT_SAVE_BATCH_SIZE);
      Batches.Chunks(rows, Batches.DEFAULT_SAVE_BATCH_SIZE)
  }

  // ---------------------------------------------------------------------
  // enrichAnalysisData
  // ---------------------------------------------------------------------

  /** `authorActivityMap.getOrDefault(name, false)`. */
  predicate IsActive(active: map<string, bool>, name: string) {
    name in active && active[name]
  }

  /** The contributors known to the activity map: `!authorActivityMap.get`
      on anyone else unboxes null and throws. */
  predicate KnownAuthors(cs: seq<AuthorContribution>, active: map<string, bool>) {
    forall k :: 0 <= k < |cs| ==> cs[k].name in active
  }

  function CountActive(cs: seq<AuthorContribution>, active: map<string, bool>): (n: nat)
    decreases |cs|
    ensures n <= |cs|
  {
    if |cs| == 0 then 0 else (if IsActive(active, cs[0].name) then 1 else 0) + CountActive(cs[1..], active)
  }

  function CountInactive(cs: seq<AuthorContribution>, active: map<string, bool>): nat
    decreases |cs|
  {
    if |cs| == 0 then 0 else (if IsActive(active, cs[0].name) then 0 else 1) + CountInactive(cs[1..], active)
  }

  function ActiveLines(cs: seq<AuthorContribution>, active: map<string, bool>): int
    decreases |cs|
  {
    if |cs| == 0 then 0
    else (if IsActive(active, cs[0].name) then cs[0].linesAdded else 0) + ActiveLines(cs[1..], active)
  }

  /** Lines added by inactive authors. */
  function InactiveLines(cs: seq<AuthorContribution>, active: map<string, bool>): int
    requires KnownAuthors(cs, active)
    decreases |cs|
  {
    if |cs| == 0 then 0
    else (if !active[cs[0].name] then cs[0].linesAdded else 0) + InactiveLines(cs[1..], active)
  }

  /** Every contributor is either active or inactive: the two counts and
      the two line sums split the whole. */
  lemma {:induction false} ActiveSplit(cs: seq<AuthorContribution>, active: map<string, bool>)
    requires KnownAuthors(cs, active)
    ensures CountActive(cs, active) + CountInactive(cs, active) == |cs|
    ensures ActiveLines(cs, active) + InactiveLines(cs, active) == SumLines(cs)
    decreases |cs|
  {
    if |cs| > 0 {
      ActiveSplit(cs[1..], active);
    }
  }

  predicate NonNegativeLines(cs: seq<AuthorContribution>) {
    forall k :: 0 <= k < |cs| ==> cs[k].linesAdded >= 0
  }

  lemma {:induction false} LineSumsBounded(cs: seq<AuthorContribution>, active: map<string, bool>)
    requires KnownAuthors(cs, active) && NonNegativeLines(cs)
    ensures 0 <= InactiveLines(cs, active) && 0 <= ActiveLines(cs, active)
    decreases |cs|
  {
    if |cs| > 0 {
      LineSumsBounded(cs[1..], active);
    }
  }

  /** What enrich needs of a row: the contributors of a row it computes a
      loss for are all known. */
  predicate Enrichable(row: FileKnowledge, active: map<string, bool>) {
    row.linesAdded != 0 && |row.authorContributions| > 0 ==> KnownAuthors(row.authorContributions, active)
  }

  /** One row of `enrichAnalysisData`. A null contribution list is taken as
      empty. */
  function EnrichRow(row: FileKnowledge, active: map<string, bool>): (r: FileKnowledge)
    requires Enrichable(row, active)
    ensures r.filePath == row.filePath && r.authorContributions == row.authorContributions
    ensures r.linesAdded == row.linesAdded && r.leadAuthor == row.leadAuthor && r.contributors == row.contributors
    ensures row.linesAdded == 0 || |row.authorContributions| == 0 ==>
              r.knowledgeLoss == 0.0 && r.activeContributors == row.activeContributors
    ensures row.linesAdded != 0 && |row.authorContributions| > 0 ==>
              && r.activeContributors == Some(CountActive(row.authorContributions, active))
              && r.knowledgeLoss == (InactiveLines(row.authorContributions, active) as real) * 100.0 / (row.linesAdded as real)
  {
    var cs := row.authorContributions;
    if row.linesAdded == 0 || |cs| == 0 then row.(knowledgeLoss := 0.0)
    else
      row.(activeContributors := Some(CountActive(cs, active)),
           knowledgeLoss := (InactiveLines(cs, active) as real) * 100.0 / (row.linesAdded as real))
  }

  /** For a row whose total is the sum of its non-negative counters, the
      loss is a percentage and the active contributors are at most all of
      them. */
  lemma LossIsPercentage(row: FileKnowledge, active: map<string, bool>)
    requires Enrichable(row, active)
    requires row.linesAdded == SumLines(row.authorContributions) && NonNegativeLines(row.authorContributions)
    requires row.contributors == |row.authorContributions|
    ensures var r := EnrichRow(row, active);
            && 0.0 <= r.knowledgeLoss <= 100.0
            && (r.activeContributors != row.activeContributors ==> r.activeContributors.value <= r.contributors)
  {
    var cs := row.authorContributions;
    if row.linesAdded != 0 && |cs| > 0 {
      ActiveSplit(cs, active);
      LineSumsBounded(cs, active);
      Fraction(InactiveLines(cs, active) as real, row.linesAdded as real);
    }
  }

  lemma Fraction(a: real, t: real)
    requires 0.0 <= a <= t && t > 0.0
    ensures 0.0 <= a * 100.0 / t <= 100.0
  {
  }

  predicate EnrichableAll(rows: seq<FileKnowledge>, active: map<string, bool>) {
    forall k :: 0 <= k < |rows| ==> Enrichable(rows[k], active)
  }

  /** `enrichAnalysisData`: every stored row enriched, saved back in
      batches of 500. */
  function Enrich(rows: seq<FileKnowledge>, active: map<string, bool>): (saved: seq<seq<FileKnowledge>>)
    requires EnrichableAll(rows, active)
    ensures |Batches.Flatten(saved)| == |rows|
    ensures forall k :: 0 <= k < |rows| ==> Batches.Flatten(saved)[k] == EnrichRow(rows[k], active)
  {
    var enriched := seq(|rows|, k requires 0 <= k < |rows| => EnrichRow(rows[k], active));
    Batches.ChunksFlatten(enriched, Batches.DEFAULT_SAVE_BATCH_SIZE);
    Batches.Chunks(enriched, Batches.DEFAULT_SAVE_BATCH_SIZE)
  }

  /** Rows as finish builds them meet the conditions of `LossIsPercentage`
      when the counters are non-negative. */
  lemma FinishedRowConsistent(analysisId: string, filePath: string, values: seq<AuthorContribution>)
    requires NonNegativeLines(values)
    ensures var r := CalculateFileKnowledge(analysisId, filePath, values);
            && r.linesAdded == SumLines(r.authorContributions)
            && NonNegativeLines(r.authorContributions)
            && r.contributors == |r.authorContributions|
  {
    var r := CalculateFileKnowledge(analysisId, filePath, values);
    var annotated := WithPercentages(values, SumLines(values));
    forall k | 0 <= k < |r.authorContributions|
      ensures r.authorContributions[k].linesAdded >= 0
    {
      assert r.authorContributions[k] in multiset(annotated);
      var i :| 0 <= i < |annotated| && annotated[i] == r.authorContributions[k];
    }
    assert |r.authorContributions| == |multiset(r.authorContributions)| == |annotated|;
  }
}

/** The file-analysis `KnowledgeAnalyzer`, the earlier generation: the same
    ranking with the lead author's name only, a finish step that flushes a
    buffer every 500 rows, and an enrich step without active-contributor
    counts. */
module LegacyKnowledge {

  import opened Nullable
  import opened Contributions
  import opened Ranking
  import Batches
  import Knowledge

  datatype FileKnowledge = FileKnowledge(
    analysisId: string,
    filePath: string,
    linesAdded: int,
    commits: int,
    authorContributions: seq<AuthorContribution>,
    leadAuthor: Option<string>,
    contributors: int,
    activeContributors: Option<int>,
    knowledgeLoss: real)

  /** `determineLeadAuthor`: the name of the lead contribution. */
  function LeadAuthor(cs: seq<AuthorContribution>): (r: Option<string>)
    ensures r.None? <==> MaxPercentage(cs) < 1.0
    ensures r.Some? ==> exists k :: 0 <= k < |cs| && cs[k].name == r.value
                          && cs[k].contributionPercentage == MaxPercentage(cs)
    ensures r.Some? ==> exists i :: FirstMostCommitsAt(cs, MaxPercentage(cs), i) && cs[i].name == r.value
  {
    match LeadContribution(cs)
    case None => None
    case Some(c) => Some(c.name)
  }

  /** `calculateFileKnowledge` of this generation agrees with the newer one
      on every field they share. */
  function CalculateFileKnowledge(analysisId: string, filePath: string, values: seq<AuthorContribution>)
    : (r: FileKnowledge)
    ensures var n := Knowledge.CalculateFileKnowledge(analysisId, filePath, values);
            && r.filePath == n.filePath && r.linesAdded == n.linesAdded && r.commits == n.commits
            && r.authorContributions == n.authorContributions && r.leadAuthor == n.leadAuthor
            && r.contributors == n.contributors
    ensures r.activeContributors.None? && r.knowledgeLoss == 0.0
  {
    var total := SumLines(values);
    var ranked := SortDesc(WithPercentages(values, total));
    FileKnowledge(analysisId, filePath, total, SumCommits(values), ranked, LeadAuthor(ranked),
                  |ranked|, None, 0.0)
  }

  function FinishRows(analysisId: string, entries: seq<Entry>, existing: set<string>): seq<FileKnowledge>
  {
    var kept := KeptEntries(entries, existing);
    seq(|kept|, k requires 0 <= k < |kept| => CalculateFileKnowledge(analysisId, kept[k].0, kept[k].1))
  }

  /** `finishAnalysis`: nothing without a context or repository path;
      otherwise the rows are buffered and saved every 500 and once more at
      the end, so every row is saved exactly once and in order. */
  method FinishAnalysis(ctx: Option<Context>, entries: seq<Entry>, existing: set<string>)
    returns (saved: seq<seq<FileKnowledge>>)
    requires ctx.Some? ==> ListsFiles(entries, ctx.value.fileContributions)
    ensures ctx.None? || ctx.value.repositoryPath.None? ==> saved == []
    ensures ctx.Some? && ctx.value.repositoryPath.Some? ==>
              Batches.Flatten(saved) == FinishRows(ctx.value.analysisId, entries, existing)
    ensures ctx.Some? && ctx.value.repositoryPath.Some? ==>
              && |Batches.Flatten(saved)| == |Knowledge.RowPaths(entries, existing)|
              && (forall k :: 0 <= k < |Batches.Flatten(saved)| ==>
                    Batches.Flatten(saved)[k].filePath == Knowledge.RowPaths(entries, existing)[k])
              && Knowledge.OnePerTrackedPath(Knowledge.RowPaths(entries, existing), ctx.value.fileContributions, existing)
    ensures forall b :: 0 <= b < |saved| ==> 0 < |saved[b]| <= Batches.DEFAULT_SAVE_BATCH_SIZE
  {
    if ctx.None? || ctx.value.repositoryPath.None? {
      return [];
    }
    var rows := FinishRows(ctx.value.analysisId, entries, existing);
    saved := Batches.BufferedSave(rows, Batches.DEFAULT_SAVE_BATCH_SIZE);
    Batches.ChunkShape(rows, Batches.DEFAULT_SAVE_BATCH_SIZE);
    Batches.ChunksFlatten(rows, Batches.DEFAULT_SAVE_BATCH_SIZE);
    Knowledge.RowPathsCover(entries, ctx.value.fileContributions, existing);
  }

  predicate Enrichable(row: FileKnowledge, active: map<string, bool>) {
    row.linesAdded != 0 && |row.authorContributions| > 0 ==> Knowledge.KnownAuthors(row.authorContributions, active)
  }

  /** One row of this generation's enrich: the loss only. */
  function EnrichRow(row: FileKnowledge, active: map<string, bool>): (r: FileKnowledge)
    requires Enrichable(row, active)
    ensures r.activeContributors == row.activeContributors
    ensures r.authorContributions == row.authorContributions && r.linesAdded == row.linesAdded
    ensures row.linesAdded == 0 || |row.authorContributions| == 0 ==> r.knowledgeLoss == 0.0
    ensures row.linesAdded != 0 && |row.authorContributions| > 0 ==>
              r.knowledgeLoss == (Knowledge.InactiveLines(row.authorContributions, active) as real) * 100.0
                                 / (row.linesAdded as real)
  {
    var cs := row.authorContributions;
    if row.linesAdded == 0 || |cs| == 0 then row.(knowledgeLoss := 0.0)
    else row.(knowledgeLoss := (Knowledge.InactiveLines(cs, active) as real) * 100.0 / (row.linesAdded as real))
  }

  /** Both generations compute the same loss for the same row. */
  lemma SameLoss(row: Knowledge.FileKnowledge, active: map<string, bool>)
    requires Knowledge.Enrichable(row, active)
    ensures var old_row := FileKnowledge(row.analysisId, row.filePath, row.linesAdded, row.commits,
                                        row.authorContributions, row.leadAuthor, row.contributors,
                                        row.activeContributors, row.knowledgeLoss);
            EnrichRow(old_row, active).knowledgeLoss == Knowledge.EnrichRow(row, active).knowledgeLoss
  {
  }
}

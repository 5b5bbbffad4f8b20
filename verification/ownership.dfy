/** The file-analysis `OwnershipAnalyzer`: per tracked file, the
    contributors ranked by share of added lines and every author whose
    share ties (within 0.01) with the largest one. */
module Ownership {

  import opened Nullable
  import opened Contributions
  import opened Ranking
  import Batches
  import Knowledge

  const BATCH_SIZE: int := 500

  datatype FileOwnership = FileOwnership(
    analysisId: string,
    filePath: string,
    linesAdded: int,
    commits: int,
    authorContributions: seq<AuthorContribution>,
    leadAuthors: seq<string>,
    contributors: int)

  /** The first element of a list ranked by decreasing percentage holds
      the largest percentage. */
  lemma {:induction false} SortedFirstIsMax(cs: seq<AuthorContribution>)
    requires SortedDesc(cs) && |cs| > 0
    ensures cs[0].contributionPercentage == MaxPercentage(cs)
    decreases |cs|
  {
    if |cs| > 1 {
      SortedFirstIsMax(cs[1..]);
      assert cs[1..][0] == cs[1];
    }
  }

  /** Everyone within 0.01 of `top` is listed by `NamesNear`. */
  lemma {:induction false} NamesNearComplete(cs: seq<AuthorContribution>, top: real, i: nat)
    requires i < |cs| && Abs(cs[i].contributionPercentage - top) < 0.01
    ensures cs[i].name in NamesNear(cs, top)
    decreases |cs|
  {
    if i > 0 {
      NamesNearComplete(cs[1..], top, i - 1);
      assert cs[1..][i - 1] == cs[i];
    }
  }

  /** `calculateFileOwnership`. */
  function CalculateFileOwnership(analysisId: string, filePath: string, values: seq<AuthorContribution>)
    : (r: FileOwnership)
    ensures r.analysisId == analysisId && r.filePath == filePath
    ensures r.linesAdded == SumLines(values) && r.commits == SumCommits(values)
    ensures r.contributors == |values|
    ensures multiset(r.authorContributions) == multiset(WithPercentages(values, SumLines(values)))
    ensures SortedDesc(r.authorContributions)
    ensures r.leadAuthors == LeadAuthors(r.authorContributions)
  {
    var total := SumLines(values);
    var ranked := SortDesc(WithPercentages(values, total));
    SortSorted(WithPercentages(values, total));
    FileOwnership(analysisId, filePath, total, SumCommits(values), ranked, LeadAuthors(ranked), |ranked|)
  }

  /** On a ranked list nobody leads exactly when the largest share is
      below 1 percent. */
  lemma LeadAuthorsNone(cs: seq<AuthorContribution>)
    requires SortedDesc(cs)
    ensures LeadAuthors(cs) == [] <==> MaxPercentage(cs) < 1.0
  {
    if |cs| > 0 {
      SortedFirstIsMax(cs);
    }
  }

  /** On a ranked list everyone within 0.01 of the largest share leads. */
  lemma LeadAuthorsComplete(cs: seq<AuthorContribution>, k: nat)
    requires SortedDesc(cs) && k < |cs| && MaxPercentage(cs) >= 1.0
    requires Abs(cs[k].contributionPercentage - MaxPercentage(cs)) < 0.01
    ensures cs[k].name in LeadAuthors(cs)
  {
    assert cs[0].contributionPercentage == MaxPercentage(cs) by {
      SortedFirstIsMax(cs);
    }
    NearFirstLeads(cs, k);
  }

  lemma NearFirstLeads(cs: seq<AuthorContribution>, k: nat)
    requires k < |cs| && cs[0].contributionPercentage >= 1.0
    requires Abs(cs[k].contributionPercentage - cs[0].contributionPercentage) < 0.01
    ensures cs[k].name in LeadAuthors(cs)
  {
    NamesNearComplete(cs, cs[0].contributionPercentage, k);
  }

  /** On a ranked list only authors within 0.01 of the largest share
      lead. */
  lemma LeadAuthorsSound(cs: seq<AuthorContribution>, n: string)
    requires SortedDesc(cs) && n in LeadAuthors(cs)
    ensures exists k :: 0 <= k < |cs| && cs[k].name == n
                        && Abs(cs[k].contributionPercentage - MaxPercentage(cs)) < 0.01
  {
    assert cs[0].contributionPercentage == MaxPercentage(cs) by {
      SortedFirstIsMax(cs);
    }
    var i := LeaderNearFirst(cs, n);
  }

  lemma LeaderNearFirst(cs: seq<AuthorContribution>, n: string) returns (i: nat)
    requires n in LeadAuthors(cs)
    ensures i < |cs| && cs[i].name == n && Abs(cs[i].contributionPercentage - cs[0].contributionPercentage) < 0.01
  {
    i := NamesNearWitness(cs, cs[0].contributionPercentage, n);
  }

  /** Where a name listed by `NamesNear` comes from. */
  lemma {:induction false} NamesNearWitness(cs: seq<AuthorContribution>, top: real, n: string) returns (i: nat)
    requires n in NamesNear(cs, top)
    ensures i < |cs| && cs[i].name == n && Abs(cs[i].contributionPercentage - top) < 0.01
    decreases |cs|
  {
    if Abs(cs[0].contributionPercentage - top) < 0.01 && cs[0].name == n {
      i := 0;
    } else {
      var j := NamesNearWitness(cs[1..], top, n);
      i := j + 1;
      assert cs[1..][j] == cs[i];
    }
  }

  /** The knowledge analyzers' single lead author, when there is one, is
      always among the ownership analyzer's lead authors for the same
      counters. */
  lemma KnowledgeLeadIsOwner(cs: seq<AuthorContribution>)
    requires SortedDesc(cs)
    ensures LeadContribution(cs).Some? ==> LeadContribution(cs).value.name in LeadAuthors(cs)
  {
    var lead := LeadContribution(cs);
    if lead.Some? {
      SortedFirstIsMax(cs);
      var i :| 0 <= i < |cs| && cs[i] == lead.value;
      NamesNearComplete(cs, cs[0].contributionPercentage, i);
    }
  }

  function FinishRows(analysisId: string, entries: seq<Entry>, existing: set<string>): (rows: seq<FileOwnership>)
    ensures |rows| == |Knowledge.RowPaths(entries, existing)|
    ensures forall k :: 0 <= k < |rows| ==>
              && rows[k].analysisId == analysisId && rows[k].filePath == Knowledge.RowPaths(entries, existing)[k]
              && rows[k].linesAdded == SumLines(KeptEntries(entries, existing)[k].1)
  {
    var kept := KeptEntries(entries, existing);
    seq(|kept|, k requires 0 <= k < |kept| => CalculateFileOwnership(analysisId, kept[k].0, kept[k].1))
  }

  /** `finishAnalysis`: no context or repository path saves nothing;
      otherwise each tracked row is saved once, in order, in buffers of
      500 and a final partial one. */
  method FinishAnalysis(ctx: Option<Context>, entries: seq<Entry>, existing: set<string>)
    returns (saved: seq<seq<FileOwnership>>)
    requires ctx.Some? ==> ListsFiles(entries, ctx.value.fileContributions)
    ensures ctx.None? || ctx.value.repositoryPath.None? ==> saved == []
    ensures ctx.Some? && ctx.value.repositoryPath.Some? ==>
              Batches.Flatten(saved) == FinishRows(ctx.value.analysisId, entries, existing)
    ensures ctx.Some? && ctx.value.repositoryPath.Some? ==>
              && |Batches.Flatten(saved)| == |Knowledge.RowPaths(entries, existing)|
              && (forall k :: 0 <= k < |Batches.Flatten(saved)| ==>
                    Batches.Flatten(saved)[k].filePath == Knowledge.RowPaths(entries, existing)[k])
              && Knowledge.OnePerTrackedPath(Knowledge.RowPaths(entries, existing), ctx.value.fileContributions, existing)
    ensures forall b :: 0 <= b < |saved| ==> 0 < |saved[b]| <= BATCH_SIZE
  {
    if ctx.None? || ctx.value.repositoryPath.None? {
      return [];
    }
    var rows := FinishRows(ctx.value.analysisId, entries, existing);
    saved := Batches.BufferedSave(rows, BATCH_SIZE);
    Batches.ChunkShape(rows, BATCH_SIZE);
    Batches.ChunksFlatten(rows, BATCH_SIZE);
    Knowledge.RowPathsCover(entries, ctx.value.fileContributions, existing);
  }
}

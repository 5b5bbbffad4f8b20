/** The repository-analysis `AuthorsAnalyzer`: per author, commit and line
    counters, the e-mail addresses used, the first and last commit dates,
    inactivity measured against "today", and the number of files the
    author leads. */
module Authors {

  import opened Nullable
  import JavaLang
  import opened Dates
  import opened Commits
  import Batches
  import LegacyKnowledge

  const AUTHOR_INACTIVITY_THRESHOLD_MONTHS: int := 6

  datatype AuthorStatistics = AuthorStatistics(
    analysisId: string,
    name: string,
    emails: set<string>,
    firstCommitDate: Option<Date>,
    lastCommitDate: Option<Date>,
    isActive: bool,
    daysSinceLastCommit: Option<int>,
    monthsSinceLastCommit: Option<int>,
    daysSinceFirstCommit: Option<int>,
    monthsSinceFirstCommit: Option<int>,
    commits: int,
    totalLinesAdded: int,
    totalLinesDeleted: int,
    uniqueModifiedFiles: int,
    filesAsLeadAuthor: int)

  /** The builder with only the identifying fields set: active, no e-mail,
      every counter 0. */
  function NewStatistics(analysisId: string, name: string): (s: AuthorStatistics)
    ensures s.analysisId == analysisId && s.name == name
    ensures s.isActive && s.emails == {}
    ensures s.commits == 0 && s.totalLinesAdded == 0 && s.totalLinesDeleted == 0
    ensures s.uniqueModifiedFiles == 0 && s.filesAsLeadAuthor == 0
    ensures s.firstCommitDate.None? && s.lastCommitDate.None?
  {
    AuthorStatistics(analysisId, name, {}, None, None, true, None, None, None, None, 0, 0, 0, 0, 0)
  }

  /** `addEmail`: set semantics. */
  function AddEmail(s: AuthorStatistics, email: string): (r: AuthorStatistics)
    ensures email in r.emails && r.emails - {email} == s.emails - {email}
    ensures email in s.emails ==> r == s
    ensures r.(emails := s.emails) == s
  {
    s.(emails := s.emails + {email})
  }

  function IncrementCommits(s: AuthorStatistics): (r: AuthorStatistics)
    ensures r.commits == s.commits + 1 && r.(commits := s.commits) == s
  {
    s.(commits := s.commits + 1)
  }

  function IncreaseLinesAdded(s: AuthorStatistics, lines: int): (r: AuthorStatistics)
    ensures r.totalLinesAdded - s.totalLinesAdded == lines && r.(totalLinesAdded := s.totalLinesAdded) == s
  {
    s.(totalLinesAdded := s.totalLinesAdded + lines)
  }

  function IncreaseLinesDeleted(s: AuthorStatistics, lines: int): (r: AuthorStatistics)
    ensures r.totalLinesDeleted - s.totalLinesDeleted == lines && r.(totalLinesDeleted := s.totalLinesDeleted) == s
  {
    s.(totalLinesDeleted := s.totalLinesDeleted + lines)
  }

  function IncrementFilesAsLeadAuthor(s: AuthorStatistics): (r: AuthorStatistics)
    ensures r.filesAsLeadAuthor == s.filesAsLeadAuthor + 1 && r.(filesAsLeadAuthor := s.filesAsLeadAuthor) == s
  {
    s.(filesAsLeadAuthor := s.filesAsLeadAuthor + 1)
  }

  // ---------------------------------------------------------------------
  // Context
  // ---------------------------------------------------------------------

  datatype Context = Context(analysisId: string, referenceDate: Date, authorStatistics: map<string, AuthorStatistics>)

  /** Statistics with valid first and last commit dates, as every
      recorded author's are. */
  predicate Dated(s: AuthorStatistics) {
    && s.firstCommitDate.Some? && Valid(s.firstCommitDate.value)
    && s.lastCommitDate.Some? && Valid(s.lastCommitDate.value)
  }

  /** What recording guarantees and what the finish step needs: a valid
      reference date and every author dated under their own name. */
  predicate WellFormed(ctx: Context) {
    && Valid(ctx.referenceDate)
    && forall a :: a in ctx.authorStatistics ==> ctx.authorStatistics[a].name == a && Dated(ctx.authorStatistics[a])
  }

  /** The constructor: a null reference date is replaced by today's. */
  function NewContext(analysisId: string, referenceDate: Option<Date>, today: Date): (ctx: Context)
    requires Valid(today) && (referenceDate.Some? ==> Valid(referenceDate.value))
    ensures WellFormed(ctx) && ctx.authorStatistics == map[]
    ensures ctx.referenceDate == (if referenceDate.Some? then referenceDate.value else today)
  {
    Context(analysisId, if referenceDate.Some? then referenceDate.value else today, map[])
  }

  /** `recordContribution(name, email, date, added, deleted)`. */
  function RecordContribution(ctx: Context, name: string, email: string, date: Date, added: int, deleted: int)
    : (r: Context)
    requires WellFormed(ctx) && Valid(date)
    ensures WellFormed(r)
    ensures r.analysisId == ctx.analysisId && r.referenceDate == ctx.referenceDate
    ensures r.authorStatistics.Keys == ctx.authorStatistics.Keys + {name}
    ensures forall a :: a in ctx.authorStatistics && a != name ==> r.authorStatistics[a] == ctx.authorStatistics[a]
    ensures var s := r.authorStatistics[name];
            && s.lastCommitDate == Some(date)
            && email in s.emails
    ensures name !in ctx.authorStatistics ==>
              var s := r.authorStatistics[name];
              && s.firstCommitDate == Some(date)
              && s.daysSinceFirstCommit == Some(DaysBetween(date, ctx.referenceDate))
              && s.monthsSinceFirstCommit == Some(MonthsBetween(date, ctx.referenceDate))
              && s.commits == 1 && s.totalLinesAdded == added && s.totalLinesDeleted == deleted
              && s.emails == {email} && s.filesAsLeadAuthor == 0 && s.isActive
    ensures name in ctx.authorStatistics ==>
              var s, o := r.authorStatistics[name], ctx.authorStatistics[name];
              && s.firstCommitDate == o.firstCommitDate
              && s.daysSinceFirstCommit == o.daysSinceFirstCommit
              && s.monthsSinceFirstCommit == o.monthsSinceFirstCommit
              && s.commits == o.commits + 1
              && s.totalLinesAdded == o.totalLinesAdded + added
              && s.totalLinesDeleted == o.totalLinesDeleted + deleted
              && s.emails == o.emails + {email}
              && s.filesAsLeadAuthor == o.filesAsLeadAuthor
  {
    var stats := ctx.authorStatistics;
    var base := if name in stats then stats[name] else FirstStatistics(ctx.analysisId, name, date, ctx.referenceDate);
    ctx.(authorStatistics := stats[name := Bumped(base, email, date, added, deleted)])
  }

  /** The statistics built for an author's first contribution. */
  function FirstStatistics(analysisId: string, name: string, date: Date, referenceDate: Date): (s: AuthorStatistics)
    requires Valid(date) && Valid(referenceDate)
    ensures s.name == name && s.firstCommitDate == Some(date)
    ensures s.daysSinceFirstCommit == Some(DaysBetween(date, referenceDate))
    ensures s.monthsSinceFirstCommit == Some(MonthsBetween(date, referenceDate))
    ensures s.commits == 0 && s.totalLinesAdded == 0 && s.totalLinesDeleted == 0
    ensures s.emails == {} && s.filesAsLeadAuthor == 0 && s.isActive
  {
    NewStatistics(analysisId, name).(
      firstCommitDate := Some(date),
      daysSinceFirstCommit := Some(DaysBetween(date, referenceDate)),
      monthsSinceFirstCommit := Some(MonthsBetween(date, referenceDate)))
  }

  /** The updates every contribution makes. */
  function Bumped(s: AuthorStatistics, email: string, date: Date, added: int, deleted: int): (r: AuthorStatistics)
    ensures r.name == s.name && r.firstCommitDate == s.firstCommitDate && r.lastCommitDate == Some(date)
    ensures r.daysSinceFirstCommit == s.daysSinceFirstCommit && r.monthsSinceFirstCommit == s.monthsSinceFirstCommit
    ensures r.commits == s.commits + 1 && r.emails == s.emails + {email}
    ensures r.totalLinesAdded == s.totalLinesAdded + added && r.totalLinesDeleted == s.totalLinesDeleted + deleted
    ensures r.filesAsLeadAuthor == s.filesAsLeadAuthor && r.isActive == s.isActive
    ensures Valid(date) && s.firstCommitDate.Some? && Valid(s.firstCommitDate.value) ==> Dated(r)
  {
    IncrementCommits(IncreaseLinesDeleted(IncreaseLinesAdded(
      AddEmail(s, email).(lastCommitDate := Some(date)), added), deleted))
  }

  /** Commits whose date `LocalDate.parse` accepts: the analyzer parses
      without a guard, so any other date throws. */
  predicate AllDated(commits: seq<Commit>) {
    forall i :: 0 <= i < |commits| ==> HasValidDate(commits[i])
  }

  /** `processCommit`: one contribution per commit, carrying the sums of
      the added and deleted lines over its changed files. A null commit or
      context changes nothing. */
  function ProcessCommit(ctx: Option<Context>, commit: Option<Commit>): (r: Option<Context>)
    requires ctx.Some? ==> WellFormed(ctx.value)
    requires commit.Some? ==> HasValidDate(commit.value)
    ensures r.Some? ==> WellFormed(r.value)
    ensures ctx.None? || commit.None? ==> r == ctx
    ensures ctx.Some? && commit.Some? ==>
              var c := commit.value;
              r == Some(RecordContribution(ctx.value, c.author, c.email, CommitDate(c),
                                           SumAdded(c.changedFiles), SumDeleted(c.changedFiles)))
  {
    if ctx.None? || commit.None? then ctx
    else
      var c := commit.value;
      Some(RecordContribution(ctx.value, c.author, c.email, CommitDate(c),
                              SumAdded(c.changedFiles), SumDeleted(c.changedFiles)))
  }

  /** The commits fed to the analyzer, one after another. */
  function ProcessAll(ctx: Context, commits: seq<Commit>): (r: Context)
    requires WellFormed(ctx) && AllDated(commits)
    ensures WellFormed(r)
    decreases |commits|
  {
    if |commits| == 0 then ctx
    else
      var init := commits[..|commits| - 1];
      var c := commits[|commits| - 1];
      ProcessCommit(Some(ProcessAll(ctx, init)), Some(c)).value
  }

  /** Reference definitions: an author's commits, their lines, and the
      date of the last of them. */
  function CountBy(commits: seq<Commit>, a: string): nat
    decreases |commits|
  {
    if |commits| == 0 then 0
    else CountBy(commits[..|commits| - 1], a) + (if commits[|commits| - 1].author == a then 1 else 0)
  }

  function AddedBy(commits: seq<Commit>, a: string): int
    decreases |commits|
  {
    if |commits| == 0 then 0
    else AddedBy(commits[..|commits| - 1], a)
         + (if commits[|commits| - 1].author == a then SumAdded(commits[|commits| - 1].changedFiles) else 0)
  }

  function LastBy(commits: seq<Commit>, a: string): Option<Commit>
    decreases |commits|
  {
    if |commits| == 0 then None
    else if commits[|commits| - 1].author == a then Some(commits[|commits| - 1])
    else LastBy(commits[..|commits| - 1], a)
  }

  /** What the statistics of `a` say after `commits`: recorded exactly
      when they made a commit, their commit count the number of their
      commits, their added lines the sum over those commits, and their
      last commit date that of their last commit in processing order (not
      the latest date). */
  predicate Tallied(m: map<string, AuthorStatistics>, commits: seq<Commit>, a: string)
    requires AllDated(commits)
  {
    && (a in m <==> CountBy(commits, a) > 0)
    && (a in m ==>
          && m[a].commits == CountBy(commits, a)
          && m[a].totalLinesAdded == AddedBy(commits, a)
          && LastBy(commits, a).Some? && HasValidDate(LastBy(commits, a).value)
          && m[a].lastCommitDate == Some(CommitDate(LastBy(commits, a).value)))
  }

  /** What one recorded commit does to the statistics of `a`. */
  predicate RecordedStep(before: map<string, AuthorStatistics>, after: map<string, AuthorStatistics>, c: Commit, a: string)
    requires HasValidDate(c)
  {
    && (c.author == a ==>
          && a in after
          && after[a].commits == (if a in before then before[a].commits else 0) + 1
          && after[a].totalLinesAdded == (if a in before then before[a].totalLinesAdded else 0) + SumAdded(c.changedFiles)
          && after[a].lastCommitDate == Some(CommitDate(c)))
    && (c.author != a ==> (a in after <==> a in before) && (a in before ==> after[a] == before[a]))
  }

  lemma RecordStep(ctx: Context, c: Commit, a: string)
    requires WellFormed(ctx) && HasValidDate(c)
    ensures RecordedStep(ctx.authorStatistics, ProcessCommit(Some(ctx), Some(c)).value.authorStatistics, c, a)
  {
  }

  lemma TallyStep(before: map<string, AuthorStatistics>, after: map<string, AuthorStatistics>, commits: seq<Commit>, a: string)
    requires |commits| > 0 && AllDated(commits) && AllDated(commits[..|commits| - 1])
    requires Tallied(before, commits[..|commits| - 1], a)
    requires RecordedStep(before, after, commits[|commits| - 1], a)
    ensures Tallied(after, commits, a)
  {
    var init := commits[..|commits| - 1];
    var c := commits[|commits| - 1];
    assert CountBy(commits, a) == CountBy(init, a) + (if c.author == a then 1 else 0);
    assert AddedBy(commits, a) == AddedBy(init, a) + (if c.author == a then SumAdded(c.changedFiles) else 0);
    if c.author == a {
      if a !in before {
        NoCommitsNoLines(init, a);
      }
      assert LastBy(commits, a) == Some(c);
    } else {
      assert LastBy(commits, a) == LastBy(init, a);
    }
  }

  lemma {:induction false} NoCommitsNoLines(commits: seq<Commit>, a: string)
    requires CountBy(commits, a) == 0
    ensures AddedBy(commits, a) == 0
    decreases |commits|
  {
    if |commits| > 0 {
      NoCommitsNoLines(commits[..|commits| - 1], a);
    }
  }

  lemma AllDatedPrefix(commits: seq<Commit>)
    requires AllDated(commits) && |commits| > 0
    ensures AllDated(commits[..|commits| - 1])
  {
    var init := commits[..|commits| - 1];
    forall i | 0 <= i < |init| ensures HasValidDate(init[i]) {
      assert init[i] == commits[i];
    }
  }

  /** Starting from an empty context, each author's statistics are their
      tally over the commits. */
  lemma {:induction false} AuthorTotals(ctx: Context, commits: seq<Commit>, a: string)
    requires WellFormed(ctx) && ctx.authorStatistics == map[] && AllDated(commits)
    ensures Tallied(ProcessAll(ctx, commits).authorStatistics, commits, a)
    decreases |commits|
  {
    if |commits| > 0 {
      AllDatedPrefix(commits);
      AuthorTotals(ctx, commits[..|commits| - 1], a);
      var prev := ProcessAll(ctx, commits[..|commits| - 1]);
      RecordStep(prev, commits[|commits| - 1], a);
      TallyStep(prev.authorStatistics, ProcessAll(ctx, commits).authorStatistics, commits, a);
    }
  }

  // ---------------------------------------------------------------------
  // finishAnalysis
  // ---------------------------------------------------------------------

  /** `checkIfInactive`: active when the last commit is fewer than six
      complete months ago. */
  function IsActiveSince(months: Option<int>): (b: bool)
    ensures b <==> months.Some? && months.value < AUTHOR_INACTIVITY_THRESHOLD_MONTHS
  {
    months.Some? && months.value < AUTHOR_INACTIVITY_THRESHOLD_MONTHS
  }

  /** `calculateInactivityTime` followed by `checkIfInactive`, measured to
      `today` (the clock), not to the context's reference date. */
  function Finished(s: AuthorStatistics, today: Date): (r: AuthorStatistics)
    requires Valid(today) && s.lastCommitDate.Some? && Valid(s.lastCommitDate.value)
    ensures r.daysSinceLastCommit == Some(DaysBetween(s.lastCommitDate.value, today))
    ensures r.monthsSinceLastCommit == Some(MonthsBetween(s.lastCommitDate.value, today))
    ensures r.isActive <==> IsAfter(s.lastCommitDate.value, MinusMonths(today, AUTHOR_INACTIVITY_THRESHOLD_MONTHS))
    ensures r.commits == s.commits && r.emails == s.emails && r.name == s.name
    ensures r == s.(daysSinceLastCommit := r.daysSinceLastCommit, monthsSinceLastCommit := r.monthsSinceLastCommit,
                    isActive := r.isActive)
  {
    var last := s.lastCommitDate.value;
    ActiveWindow(last, today, AUTHOR_INACTIVITY_THRESHOLD_MONTHS);
    var months := MonthsBetween(last, today);
    s.(daysSinceLastCommit := Some(DaysBetween(last, today)),
       monthsSinceLastCommit := Some(months),
       isActive := IsActiveSince(Some(months)))
  }

  /** Fewer than n complete months between `last` and `today` exactly when
      `last` falls after the day n months before `today`. */
  lemma ActiveWindow(last: Date, today: Date, n: int)
    requires Valid(last) && Valid(today) && n >= 1
    ensures MonthsBetween(last, today) < n <==> IsAfter(last, MinusMonths(today, n))
  {
    var m := MinusMonths(today, n);
    var diff := (ProlepticMonth(today) * 32 + today.day) - (ProlepticMonth(last) * 32 + last.day);
    if diff < 0 {
      assert IsBefore(today, last);
      MinusMonthsIsBefore(today, n);
      BeforeIffSmallerDayNumber(m, today);
      BeforeIffSmallerDayNumber(today, last);
      BeforeIffSmallerDayNumber(m, last);
    } else {
      assert MonthsBetween(last, today) == diff / 32;
      assert diff - 32 * n == 32 * (ProlepticMonth(m) - ProlepticMonth(last)) + (today.day - last.day);
      MonthOrder(m, last);
    }
  }

  /** Comparing two valid dates by month number, then by day. */
  lemma MonthOrder(a: Date, b: Date)
    requires Valid(a) && Valid(b)
    ensures ProlepticMonth(a) < ProlepticMonth(b) ==> IsBefore(a, b)
    ensures ProlepticMonth(a) > ProlepticMonth(b) ==> IsBefore(b, a)
    ensures ProlepticMonth(a) == ProlepticMonth(b) ==> a.year == b.year && a.month == b.month
  {
  }

  /** An enumeration of a map's keys: each once, all of them. */
  predicate ListsKeys<K, V>(order: seq<K>, m: map<K, V>) {
    && (forall k :: 0 <= k < |order| ==> order[k] in m)
    && (forall k, l :: 0 <= k < l < |order| ==> order[k] != order[l])
    && (forall a :: a in m ==> a in order)
  }

  /** What `finishAnalysis` leaves behind in the context: it finishes the
      context's own statistics objects in place, so every author's record
      is finished against `today` and nothing else changes. */
  function FinishContext(ctx: Context, today: Date): (r: Context)
    requires Valid(today) && WellFormed(ctx)
    ensures WellFormed(r) && r.analysisId == ctx.analysisId && r.referenceDate == ctx.referenceDate
    ensures r.authorStatistics.Keys == ctx.authorStatistics.Keys
    ensures forall a :: a in ctx.authorStatistics ==>
              r.authorStatistics[a] == Finished(ctx.authorStatistics[a], today)
  {
    var m := ctx.authorStatistics;
    ctx.(authorStatistics := map a | a in m :: Finished(m[a], today))
  }

  /** `finishAnalysis`: every author's statistics, finished against
      `today`, handed to `saveDataInBatches` in the map's iteration order
      `order`; the saved records are those the finished context holds. A
      null context saves nothing. */
  function FinishAnalysis(ctx: Option<Context>, order: seq<string>, today: Date): (saved: seq<seq<AuthorStatistics>>)
    requires Valid(today)
    requires ctx.Some? ==> WellFormed(ctx.value) && ListsKeys(order, ctx.value.authorStatistics)
    ensures ctx.None? ==> saved == []
    ensures ctx.Some? ==> |Batches.Flatten(saved)| == |order|
    ensures ctx.Some? ==> forall k :: 0 <= k < |order| ==>
              Batches.Flatten(saved)[k] == Finished(ctx.value.authorStatistics[order[k]], today)
    ensures ctx.Some? ==> forall k :: 0 <= k < |order| ==>
              Batches.Flatten(saved)[k] == FinishContext(ctx.value, today).authorStatistics[order[k]]
  {
    if ctx.None? then []
    else
      var m := FinishContext(ctx.value, today).authorStatistics;
      var rows := seq(|order|, k requires 0 <= k < |order| => m[order[k]]);
      Batches.ChunksFlatten(rows, Batches.DEFAULT_SAVE_BATCH_SIZE);
      Batches.Chunks(rows, Batches.DEFAULT_SAVE_BATCH_SIZE)
  }

  // ---------------------------------------------------------------------
  // enrichAnalysisData
  // ---------------------------------------------------------------------

  /** A row's lead author names a known author and is not blank. */
  function LeadOf(row: LegacyKnowledge.FileKnowledge): Option<string> {
    if row.leadAuthor.Some? && !JavaLang.IsBlank(row.leadAuthor.value) then row.leadAuthor else None
  }

  /** The number of rows that `a` leads. */
  function LeadCount(rows: seq<LegacyKnowledge.FileKnowledge>, a: string): nat
    decreases |rows|
  {
    if |rows| == 0 then 0
    else LeadCount(rows[..|rows| - 1], a) + (if LeadOf(rows[|rows| - 1]) == Some(a) then 1 else 0)
  }

  /** The counting loop of `enrichAnalysisData`. */
  function CountLeads(m: map<string, AuthorStatistics>, rows: seq<LegacyKnowledge.FileKnowledge>)
    : (r: map<string, AuthorStatistics>)
    ensures r.Keys == m.Keys
    ensures forall a :: a in m ==>
              r[a] == m[a].(filesAsLeadAuthor := m[a].filesAsLeadAuthor + LeadCount(rows, a))
    decreases |rows|
  {
    if |rows| == 0 then m
    else
      var prev := CountLeads(m, rows[..|rows| - 1]);
      var lead := LeadOf(rows[|rows| - 1]);
      if lead.Some? && lead.value in prev then prev[lead.value := IncrementFilesAsLeadAuthor(prev[lead.value])]
      else prev
  }

  function SumLeadCounts(names: seq<string>, rows: seq<LegacyKnowledge.FileKnowledge>): nat
    decreases |names|
  {
    if |names| == 0 then 0 else LeadCount(rows, names[0]) + SumLeadCounts(names[1..], rows)
  }

  function Occurrences(names: seq<string>, a: string): nat
    decreases |names|
  {
    if |names| == 0 then 0 else (if names[0] == a then 1 else 0) + Occurrences(names[1..], a)
  }

  lemma {:induction false} DistinctOnce(names: seq<string>, a: string)
    requires forall k, l :: 0 <= k < l < |names| ==> names[k] != names[l]
    ensures Occurrences(names, a) <= 1
    decreases |names|
  {
    if |names| > 0 {
      DistinctOnce(names[1..], a);
      if names[0] == a {
        assert forall k :: 0 <= k < |names| - 1 ==> names[1..][k] == names[k + 1];
        NotIn(names[1..], a);
      }
    }
  }

  lemma {:induction false} NotIn(names: seq<string>, a: string)
    requires forall k :: 0 <= k < |names| ==> names[k] != a
    ensures Occurrences(names, a) == 0
    decreases |names|
  {
    if |names| > 0 {
      NotIn(names[1..], a);
    }
  }

  lemma {:induction false} SumLeadCountsStep(names: seq<string>, rows: seq<LegacyKnowledge.FileKnowledge>)
    requires |rows| > 0
    ensures var last := LeadOf(rows[|rows| - 1]);
            SumLeadCounts(names, rows) == SumLeadCounts(names, rows[..|rows| - 1])
                                          + (if last.Some? then Occurrences(names, last.value) else 0)
    decreases |names|
  {
    if |names| > 0 {
      SumLeadCountsStep(names[1..], rows);
    }
  }

  /** Over a list of distinct authors, one enrich adds at most one lead
      per row in total. */
  lemma {:induction false} LeadsBounded(names: seq<string>, rows: seq<LegacyKnowledge.FileKnowledge>)
    requires forall k, l :: 0 <= k < l < |names| ==> names[k] != names[l]
    ensures SumLeadCounts(names, rows) <= |rows|
    decreases |rows|
  {
    if |rows| == 0 {
      ZeroCounts(names, rows);
    } else {
      LeadsBounded(names, rows[..|rows| - 1]);
      SumLeadCountsStep(names, rows);
      var last := LeadOf(rows[|rows| - 1]);
      if last.Some? {
        DistinctOnce(names, last.value);
      }
    }
  }

  lemma {:induction false} ZeroCounts(names: seq<string>, rows: seq<LegacyKnowledge.FileKnowledge>)
    requires |rows| == 0
    ensures SumLeadCounts(names, rows) == 0
    decreases |names|
  {
    if |names| > 0 {
      ZeroCounts(names[1..], rows);
    }
  }

  /** `enrichAnalysisData`: the lead counts added, then every author saved
      in batches in the map's iteration order. A null context saves
      nothing. */
  function Enrich(ctx: Option<Context>, order: seq<string>, rows: seq<LegacyKnowledge.FileKnowledge>)
    : (saved: seq<seq<AuthorStatistics>>)
    requires ctx.Some? ==> ListsKeys(order, ctx.value.authorStatistics)
    ensures ctx.None? ==> saved == []
    ensures ctx.Some? ==> |Batches.Flatten(saved)| == |order|
    ensures ctx.Some? ==> forall k :: 0 <= k < |order| ==>
              var s := ctx.value.authorStatistics[order[k]];
              Batches.Flatten(saved)[k] == s.(filesAsLeadAuthor := s.filesAsLeadAuthor + LeadCount(rows, order[k]))
  {
    if ctx.None? then []
    else
      var m := CountLeads(ctx.value.authorStatistics, rows);
      var out := seq(|order|, k requires 0 <= k < |order| => m[order[k]]);
      Batches.ChunksFlatten(out, Batches.DEFAULT_SAVE_BATCH_SIZE);
      Batches.Chunks(out, Batches.DEFAULT_SAVE_BATCH_SIZE)
  }

  /** Enrich after finish, on the same context: the records saved last
      carry both the inactivity fields finish set and the lead counts enrich
      added. */
  lemma FinishThenEnrich(ctx: Context, order: seq<string>, today: Date,
                         rows: seq<LegacyKnowledge.FileKnowledge>, k: nat)
    requires Valid(today) && WellFormed(ctx) && ListsKeys(order, ctx.authorStatistics)
    requires k < |order|
    ensures ListsKeys(order, FinishContext(ctx, today).authorStatistics)
    ensures |Batches.Flatten(Enrich(Some(FinishContext(ctx, today)), order, rows))| == |order|
    ensures Batches.Flatten(Enrich(Some(FinishContext(ctx, today)), order, rows))[k]
            == Finished(ctx.authorStatistics[order[k]], today).(
                 filesAsLeadAuthor := ctx.authorStatistics[order[k]].filesAsLeadAuthor + LeadCount(rows, order[k]))
  {
    var f := FinishContext(ctx, today);
    assert ListsKeys(order, f.authorStatistics);
    var s := ctx.authorStatistics[order[k]];
    assert f.authorStatistics[order[k]] == Finished(s, today);
  }
}

/** The repository-analysis `ActivityTrendsAnalyzer` and its context: one
    row per calendar day with the day's commits and changed lines, and,
    once the day has been passed, how many authors committed since the
    previous filled day and how many were still active. */
module ActivityTrends {

  import opened Nullable
  import opened Dates
  import opened Commits
  import Authors

  /** One day's row. */
  datatype DailyStats = DailyStats(
    date: Date,
    commits: int,
    uniqueAuthors: Option<int>,
    activeAuthors: Option<int>,
    linesAdded: int,
    linesDeleted: int)

  /** The saved document: the day rows in insertion order. */
  datatype Trends = Trends(analysisId: string, dailyStats: seq<DailyStats>)

  // ---------------------------------------------------------------------
  // ActivityTrendsDailyStats
  // ---------------------------------------------------------------------

  /** The builder with only the date set: every count at its default of 0,
      the author counts unset. */
  function NewDailyStats(date: Date): (r: DailyStats)
    ensures r.date == date && r.commits == 0 && r.linesAdded == 0 && r.linesDeleted == 0
    ensures r.uniqueAuthors.None? && r.activeAuthors.None?
  {
    DailyStats(date, 0, None, None, 0, 0)
  }

  function IncrementCommits(s: DailyStats): (r: DailyStats)
    ensures r.commits == s.commits + 1 && r.(commits := s.commits) == s
  {
    s.(commits := s.commits + 1)
  }

  function IncreaseLinesAdded(s: DailyStats, n: int): (r: DailyStats)
    ensures r.linesAdded == s.linesAdded + n && r.(linesAdded := s.linesAdded) == s
  {
    s.(linesAdded := s.linesAdded + n)
  }

  function IncreaseLinesDeleted(s: DailyStats, n: int): (r: DailyStats)
    ensures r.linesDeleted == s.linesDeleted + n && r.(linesDeleted := s.linesDeleted) == s
  {
    s.(linesDeleted := s.linesDeleted + n)
  }

  // ---------------------------------------------------------------------
  // ActivityTrendsContext
  // ---------------------------------------------------------------------

  /** `dayOrder` is the insertion order of the `LinkedHashMap` of rows. */
  datatype Context = Context(
    analysisId: string,
    referenceDate: Date,
    authorInactivityThresholdMonths: int,
    days: map<Date, DailyStats>,
    dayOrder: seq<Date>,
    lastDate: Option<Date>,
    uniqueAuthors: set<string>,
    authorLastActivity: map<string, Date>)

  predicate WellFormed(ctx: Context) {
    && Valid(ctx.referenceDate)
    && (ctx.lastDate.Some? ==> Valid(ctx.lastDate.value))
    && (forall d :: d in ctx.days ==> ctx.days[d].date == d)
    && Authors.ListsKeys(ctx.dayOrder, ctx.days)
  }

  /** The constructor: a null reference date means `today`; no rows, no
      last date, no authors. */
  function NewContext(analysisId: string, referenceDate: Option<Date>, threshold: int, today: Date): (r: Context)
    ensures r.referenceDate == (if referenceDate.Some? then referenceDate.value else today)
    ensures r.analysisId == analysisId && r.authorInactivityThresholdMonths == threshold
    ensures r.days == map[] && r.dayOrder == [] && r.lastDate.None?
    ensures r.uniqueAuthors == {} && r.authorLastActivity == map[]
    ensures Valid(r.referenceDate) ==> WellFormed(r)
  {
    Context(analysisId, if referenceDate.Some? then referenceDate.value else today, threshold, map[], [], None, {}, map[])
  }

  /** `compute(key, …)` on the linked map: the row is stored under `key`
      and, if the key is new, appended to the insertion order. */
  function Put(ctx: Context, key: Date, s: DailyStats): (r: Context)
    ensures r.days == ctx.days[key := s] && key in r.days
    ensures r.dayOrder == ctx.dayOrder + (if key in ctx.days then [] else [key])
    ensures r.(days := ctx.days, dayOrder := ctx.dayOrder) == ctx
  {
    var order := if key in ctx.days then ctx.dayOrder else ctx.dayOrder + [key];
    ctx.(days := ctx.days[key := s], dayOrder := order)
  }

  /** Storing a row under its own date keeps the rows keyed by date and
      the insertion order listing each key once. */
  lemma PutKeepsWellFormed(ctx: Context, key: Date, s: DailyStats)
    requires WellFormed(ctx) && s.date == key
    ensures WellFormed(Put(ctx, key, s))
  {
    var r := Put(ctx, key, s);
    forall a | a in r.days
      ensures a in r.dayOrder
    {
      if a != key {
        var k :| 0 <= k < |ctx.dayOrder| && ctx.dayOrder[k] == a;
        assert r.dayOrder[k] == a;
      } else if key !in ctx.days {
        assert r.dayOrder[|ctx.dayOrder|] == key;
      }
    }
  }

  /** The row stored for `d`, or a fresh one when the map has none. */
  function RowFor(ctx: Context, d: Date): DailyStats {
    if d in ctx.days then ctx.days[d] else NewDailyStats(d)
  }

  /** In a well-formed context the row for `d` is dated `d`. */
  lemma RowForDate(ctx: Context, d: Date)
    requires WellFormed(ctx)
    ensures RowFor(ctx, d).date == d
  {
  }

  /** `removeInactiveAuthors` with its threshold date: only authors whose
      last activity is not before the threshold stay. */
  function RemoveInactive(m: map<string, Date>, threshold: Date): (r: map<string, Date>)
    ensures forall a :: a in r <==> a in m && !IsBefore(m[a], threshold)
    ensures forall a :: a in r ==> r[a] == m[a]
  {
    map a | a in m && !IsBefore(m[a], threshold) :: m[a]
  }

  /** The authors still active on `day`. */
  function ActiveOn(m: map<string, Date>, day: Date, months: int): map<string, Date>
    requires Valid(day)
  {
    RemoveInactive(m, MinusMonths(day, months))
  }

  /** Evicting at a threshold and then at a later one is evicting at the
      later one: an evicted author never comes back by itself. */
  lemma RemoveInactiveTwice(m: map<string, Date>, t1: Date, t2: Date)
    requires !IsBefore(t2, t1)
    ensures RemoveInactive(RemoveInactive(m, t1), t2) == RemoveInactive(m, t2)
  {
  }

  /** Evicting for `day` after evicting for an earlier day is evicting for
      `day` alone. */
  lemma ActiveOnLater(m: map<string, Date>, earlier: Date, day: Date, n: int)
    requires Valid(earlier) && Valid(day) && !IsBefore(day, earlier)
    ensures ActiveOn(ActiveOn(m, earlier, n), day, n) == ActiveOn(m, day, n)
  {
    MinusMonthsMonotoneInDate(earlier, day, n);
    RemoveInactiveTwice(m, MinusMonths(earlier, n), MinusMonths(day, n));
  }

  /** One pass of the fill loop for `day`: evict, then set the two author
      counts on the day's row (creating it if need be), then clear the set
      of authors seen. */
  function FillDay(ctx: Context, day: Date): (r: Context)
    requires Valid(day)
    ensures day in r.days && SameCounts(RowFor(ctx, day), r.days[day])
    ensures r.days[day].uniqueAuthors == Some(|ctx.uniqueAuthors|) && r.uniqueAuthors == {}
    ensures forall d :: d != day ==> (d in r.days <==> d in ctx.days)
    ensures forall d :: d in ctx.days && d != day ==> r.days[d] == ctx.days[d]
    ensures r.authorLastActivity.Keys <= ctx.authorLastActivity.Keys
  {
    var active := ActiveOn(ctx.authorLastActivity, day, ctx.authorInactivityThresholdMonths);
    var row := RowFor(ctx, day).(uniqueAuthors := Some(|ctx.uniqueAuthors|), activeAuthors := Some(|active|));
    Put(ctx, day, row).(authorLastActivity := active, uniqueAuthors := {})
  }

  /** The days a fill from `start` to `end` visits, in order: `start`, the
      day after, and so on while the day is before `end`. */
  function DayRange(start: Date, end: Date): (ds: seq<Date>)
    requires Valid(start) && Valid(end)
    ensures AllValid(ds)
    decreases DayNumber(end) - DayNumber(start)
  {
    if !IsBefore(start, end) then []
    else
      BeforeIffSmallerDayNumber(start, end);
      [start] + DayRange(NextDay(start), end)
  }

  /** `day` lies in [start, end). */
  predicate InRange(day: Date, start: Date, end: Date) {
    Valid(day) && !IsBefore(day, start) && IsBefore(day, end)
  }

  predicate AllValid(ds: seq<Date>) {
    forall i :: 0 <= i < |ds| ==> Valid(ds[i])
  }

  /** Strictly increasing days. */
  predicate Ascending(ds: seq<Date>) {
    forall i, j :: 0 <= i < j < |ds| ==> IsBefore(ds[i], ds[j])
  }

  /** A day of [start, end) other than `start` lies in [start + 1, end),
      and conversely. */
  lemma RangeStep(d: Date, start: Date, end: Date)
    requires Valid(d) && Valid(start) && Valid(end)
    ensures InRange(d, start, end) <==> (d == start && IsBefore(start, end)) || InRange(d, NextDay(start), end)
  {
    BeforeIffSmallerDayNumber(d, start);
    BeforeIffSmallerDayNumber(d, NextDay(start));
  }

  /** The visited days are exactly the valid days of [start, end). */
  lemma {:induction false} DayRangeMember(start: Date, end: Date, d: Date)
    requires Valid(start) && Valid(end) && Valid(d)
    ensures d in DayRange(start, end) <==> InRange(d, start, end)
    decreases DayNumber(end) - DayNumber(start)
  {
    RangeStep(d, start, end);
    if IsBefore(start, end) {
      BeforeIffSmallerDayNumber(start, end);
      DayRangeMember(NextDay(start), end, d);
    }
  }

  /** The visited days are in strictly increasing order. */
  lemma {:induction false} DayRangeAscending(start: Date, end: Date)
    requires Valid(start) && Valid(end)
    ensures Ascending(DayRange(start, end))
    decreases DayNumber(end) - DayNumber(start)
  {
    if IsBefore(start, end) {
      BeforeIffSmallerDayNumber(start, end);
      var next := NextDay(start);
      var rest := DayRange(next, end);
      DayRangeAscending(next, end);
      forall j | 0 <= j < |rest|
        ensures IsBefore(start, rest[j])
      {
        DayRangeMember(next, end, rest[j]);
        BeforeIffSmallerDayNumber(rest[j], next);
        BeforeIffSmallerDayNumber(start, rest[j]);
      }
    }
  }

  /** The fill loop over a list of days. */
  function FillDays(ctx: Context, ds: seq<Date>): (r: Context)
    requires AllValid(ds)
    decreases |ds|
    ensures r.(days := ctx.days, dayOrder := ctx.dayOrder, uniqueAuthors := ctx.uniqueAuthors,
               authorLastActivity := ctx.authorLastActivity) == ctx
  {
    if |ds| == 0 then ctx else FillDays(FillDay(ctx, ds[0]), ds[1..])
  }

  /** `aggregateStatsForDaysBetween(start, end)`. */
  function Fill(ctx: Context, start: Date, end: Date): (r: Context)
    requires Valid(start) && Valid(end)
    ensures !IsBefore(start, end) ==> r == ctx
    ensures IsBefore(start, end) ==> r.uniqueAuthors == {}
    ensures |ctx.dayOrder| <= |r.dayOrder| && r.dayOrder[..|ctx.dayOrder|] == ctx.dayOrder
    ensures r.(days := ctx.days, dayOrder := ctx.dayOrder, uniqueAuthors := ctx.uniqueAuthors,
               authorLastActivity := ctx.authorLastActivity) == ctx
  {
    var ds := DayRange(start, end);
    FillDaysKeepsOrder(ctx, ds);
    if |ds| > 0 then FillDaysClears(ctx, ds); FillDays(ctx, ds) else FillDays(ctx, ds)
  }

  /** A fill keeps the rows keyed by date and the insertion order exact. */
  lemma {:induction false} FillDaysKeepsWellFormed(ctx: Context, ds: seq<Date>)
    requires WellFormed(ctx) && AllValid(ds)
    ensures WellFormed(FillDays(ctx, ds))
    decreases |ds|
  {
    if |ds| > 0 {
      var active := ActiveOn(ctx.authorLastActivity, ds[0], ctx.authorInactivityThresholdMonths);
      var row := RowFor(ctx, ds[0]).(uniqueAuthors := Some(|ctx.uniqueAuthors|), activeAuthors := Some(|active|));
      PutKeepsWellFormed(ctx, ds[0], row);
      FillDaysKeepsWellFormed(FillDay(ctx, ds[0]), ds[1..]);
    }
  }

  /** The counts a fill must not touch. */
  predicate SameCounts(before: DailyStats, after: DailyStats) {
    && after.date == before.date && after.commits == before.commits
    && after.linesAdded == before.linesAdded && after.linesDeleted == before.linesDeleted
  }

  predicate AuthorCountsSet(s: DailyStats) {
    s.uniqueAuthors.Some? && s.activeAuthors.Some?
  }

  /** A fill leaves the rows of the days it does not visit as they were and
      adds no row for them. */
  lemma {:induction false} FillDaysUntouched(ctx: Context, ds: seq<Date>, d: Date)
    requires AllValid(ds) && d !in ds
    ensures var r := FillDays(ctx, ds);
            (d in r.days <==> d in ctx.days) && (d in ctx.days ==> r.days[d] == ctx.days[d])
    decreases |ds|
  {
    if |ds| > 0 {
      assert d !in ds[1..];
      FillDaysUntouched(FillDay(ctx, ds[0]), ds[1..], d);
    }
  }

  /** Each visited day has a row afterwards with both author counts set,
      keeping the commit and line counts it had (zero for a day without
      commits). */
  lemma {:induction false} FillDaysVisited(ctx: Context, ds: seq<Date>, i: nat)
    requires AllValid(ds) && i < |ds|
    ensures var r := FillDays(ctx, ds);
            ds[i] in r.days && AuthorCountsSet(r.days[ds[i]]) && SameCounts(RowFor(ctx, ds[i]), r.days[ds[i]])
    decreases |ds|
  {
    var c1 := FillDay(ctx, ds[0]);
    if i > 0 && ds[i] != ds[0] {
      assert ds[1..][i - 1] == ds[i];
      FillDaysVisited(c1, ds[1..], i - 1);
    } else if ds[0] in ds[1..] {
      var j :| 0 <= j < |ds[1..]| && ds[1..][j] == ds[0];
      FillDaysVisited(c1, ds[1..], j);
    } else {
      FillDaysUntouched(c1, ds[1..], ds[0]);
    }
  }

  /** Once the set of seen authors is empty, every visited day counts none. */
  lemma {:induction false} FillAfterClear(ctx: Context, ds: seq<Date>, i: nat)
    requires AllValid(ds) && ctx.uniqueAuthors == {} && i < |ds|
    ensures var r := FillDays(ctx, ds);
            ds[i] in r.days && r.days[ds[i]].uniqueAuthors == Some(0)
    decreases |ds|
  {
    var c1 := FillDay(ctx, ds[0]);
    if i > 0 && ds[i] != ds[0] {
      assert ds[1..][i - 1] == ds[i];
      FillAfterClear(c1, ds[1..], i - 1);
    } else if ds[0] in ds[1..] {
      var j :| 0 <= j < |ds[1..]| && ds[1..][j] == ds[0];
      FillAfterClear(c1, ds[1..], j);
    } else {
      FillDaysUntouched(c1, ds[1..], ds[0]);
    }
  }

  /** A fill ends with the set of seen authors empty. */
  lemma {:induction false} FillDaysClears(ctx: Context, ds: seq<Date>)
    requires AllValid(ds) && |ds| > 0
    ensures FillDays(ctx, ds).uniqueAuthors == {}
    decreases |ds|
  {
    if |ds| > 1 {
      FillDaysClears(FillDay(ctx, ds[0]), ds[1..]);
    }
  }

  /** The first visited day counts the authors seen since the previous
      fill; every later day counts none. */
  lemma FillDaysUniqueAuthors(ctx: Context, ds: seq<Date>, i: nat)
    requires AllValid(ds) && i < |ds| && ds[0] !in ds[1..]
    ensures var r := FillDays(ctx, ds);
            ds[i] in r.days && r.days[ds[i]].uniqueAuthors == Some(if i == 0 then |ctx.uniqueAuthors| else 0)
  {
    var c1 := FillDay(ctx, ds[0]);
    if i == 0 {
      FillDaysUntouched(c1, ds[1..], ds[0]);
    } else {
      assert ds[1..][i - 1] == ds[i];
      FillAfterClear(c1, ds[1..], i - 1);
    }
  }

  /** After a fill over increasing days the authors active on the last
      visited day remain. */
  lemma {:induction false} FillDaysEvicts(ctx: Context, ds: seq<Date>)
    requires AllValid(ds) && Ascending(ds) && |ds| > 0
    ensures FillDays(ctx, ds).authorLastActivity
            == ActiveOn(ctx.authorLastActivity, ds[|ds| - 1], ctx.authorInactivityThresholdMonths)
    decreases |ds|
  {
    if |ds| > 1 {
      var c1 := FillDay(ctx, ds[0]);
      FillDaysEvicts(c1, ds[1..]);
      ActiveOnLater(ctx.authorLastActivity, ds[0], ds[|ds| - 1], ctx.authorInactivityThresholdMonths);
    }
  }

  /** Each day of a fill over increasing days counts exactly the authors
      whose last activity is not before that day minus the threshold, as if
      evicting afresh from the authors the fill started with. */
  lemma {:induction false} FillDaysActiveAuthors(ctx: Context, ds: seq<Date>, i: nat)
    requires AllValid(ds) && Ascending(ds) && i < |ds|
    ensures var r := FillDays(ctx, ds);
            && ds[i] in r.days
            && r.days[ds[i]].activeAuthors
               == Some(|ActiveOn(ctx.authorLastActivity, ds[i], ctx.authorInactivityThresholdMonths)|)
    decreases |ds|
  {
    var c1 := FillDay(ctx, ds[0]);
    var tail := ds[1..];
    if i == 0 {
      assert ds[0] !in tail;
      FillDaysUntouched(c1, tail, ds[0]);
    } else {
      assert tail[i - 1] == ds[i];
      FillDaysActiveAuthors(c1, tail, i - 1);
      ActiveOnLater(ctx.authorLastActivity, ds[0], ds[i], ctx.authorInactivityThresholdMonths);
    }
  }

  /** A fill only appends to the insertion order. */
  lemma {:induction false} FillDaysKeepsOrder(ctx: Context, ds: seq<Date>)
    requires AllValid(ds)
    ensures var r := FillDays(ctx, ds);
            |ctx.dayOrder| <= |r.dayOrder| && r.dayOrder[..|ctx.dayOrder|] == ctx.dayOrder
    decreases |ds|
  {
    if |ds| > 0 {
      var c1 := FillDay(ctx, ds[0]);
      FillDaysKeepsOrder(c1, ds[1..]);
      var r := FillDays(ctx, ds);
      assert r.dayOrder[..|c1.dayOrder|][..|ctx.dayOrder|] == r.dayOrder[..|ctx.dayOrder|];
    }
  }

  /** A fill of [start, end) touches only the days of the range: every
      other row stays as it was and no other row appears. */
  lemma FillOutside(ctx: Context, start: Date, end: Date, d: Date)
    requires Valid(start) && Valid(end) && Valid(d) && !InRange(d, start, end)
    ensures var r := Fill(ctx, start, end);
            (d in r.days <==> d in ctx.days) && (d in ctx.days ==> r.days[d] == ctx.days[d])
  {
    DayRangeMember(start, end, d);
    FillDaysUntouched(ctx, DayRange(start, end), d);
  }

  /** A fill of [start, end) in the source's terms, for one day of the
      range: the day gets a row with both author counts, keeping its commit
      and line counts; `start` counts the authors seen since the last fill
      and every later day none; the active count is the number of authors
      whose last activity is not before the day minus the threshold. */
  lemma FillInside(ctx: Context, start: Date, end: Date, d: Date)
    requires Valid(start) && Valid(end) && InRange(d, start, end)
    ensures var r := Fill(ctx, start, end);
            && d in r.days && AuthorCountsSet(r.days[d]) && SameCounts(RowFor(ctx, d), r.days[d])
            && r.days[d].uniqueAuthors == Some(if d == start then |ctx.uniqueAuthors| else 0)
            && r.days[d].activeAuthors
               == Some(|ActiveOn(ctx.authorLastActivity, d, ctx.authorInactivityThresholdMonths)|)
  {
    var ds := DayRange(start, end);
    DayRangeMember(start, end, d);
    DayRangeAscending(start, end);
    var i :| 0 <= i < |ds| && ds[i] == d;
    assert ds[0] == start;
    assert ds[0] !in ds[1..];
    FillDaysVisited(ctx, ds, i);
    FillDaysUniqueAuthors(ctx, ds, i);
    FillDaysActiveAuthors(ctx, ds, i);
    assert i == 0 <==> d == start;
  }

  /** `recordContribution`: a date after the last one first fills the days
      in between; then the commit is counted on its own day, the author is
      remembered as seen and active on that date, and the date becomes the
      last one. */
  function RecordContribution(ctx: Context, date: Date, author: string, linesAdded: int, linesDeleted: int)
    : (r: Context)
    requires Valid(date) && (ctx.lastDate.Some? ==> Valid(ctx.lastDate.value))
    ensures date in r.days
    ensures r.days[date].commits == RowFor(ctx, date).commits + 1
    ensures r.days[date].linesAdded == RowFor(ctx, date).linesAdded + linesAdded
    ensures r.days[date].linesDeleted == RowFor(ctx, date).linesDeleted + linesDeleted
    ensures author in r.uniqueAuthors && author in r.authorLastActivity && r.authorLastActivity[author] == date
    ensures r.lastDate == Some(date)
    ensures r.analysisId == ctx.analysisId && r.referenceDate == ctx.referenceDate
    ensures r.authorInactivityThresholdMonths == ctx.authorInactivityThresholdMonths
  {
    var filled :=
      if ctx.lastDate.Some? && IsAfter(date, ctx.lastDate.value) then Fill(ctx, ctx.lastDate.value, date) else ctx;
    assert RowFor(filled, date) == RowFor(ctx, date) by {
      if ctx.lastDate.Some? && IsAfter(date, ctx.lastDate.value) {
        FillOutside(ctx, ctx.lastDate.value, date, date);
      }
    }
    var row := IncreaseLinesDeleted(IncreaseLinesAdded(IncrementCommits(RowFor(filled, date)), linesAdded), linesDeleted);
    var put := Put(filled, date, row);
    put.(uniqueAuthors := put.uniqueAuthors + {author},
         authorLastActivity := put.authorLastActivity[author := date],
         lastDate := Some(date))
  }

  /** Recording keeps the rows keyed by date and the insertion order exact. */
  lemma RecordKeepsWellFormed(ctx: Context, date: Date, author: string, added: int, deleted: int)
    requires WellFormed(ctx) && Valid(date)
    ensures WellFormed(RecordContribution(ctx, date, author, added, deleted))
  {
    var filled := ctx;
    if ctx.lastDate.Some? && IsAfter(date, ctx.lastDate.value) {
      filled := Fill(ctx, ctx.lastDate.value, date);
      FillDaysKeepsWellFormed(ctx, DayRange(ctx.lastDate.value, date));
    }
    RowForDate(filled, date);
    var row := IncreaseLinesDeleted(IncreaseLinesAdded(IncrementCommits(RowFor(filled, date)), added), deleted);
    PutKeepsWellFormed(filled, date, row);
  }

  /** A date that is not after the last one fills nothing: only the
      commit's own day changes. */
  lemma NoFillForEarlierDate(ctx: Context, date: Date, author: string, added: int, deleted: int)
    requires Valid(date) && ctx.lastDate.Some? && Valid(ctx.lastDate.value) && !IsAfter(date, ctx.lastDate.value)
    ensures var r := RecordContribution(ctx, date, author, added, deleted);
            forall d :: d in ctx.days && d != date ==> d in r.days && r.days[d] == ctx.days[d]
  {
  }

  /** A date after the last one leaves every day from the last date up to
      the day before `date` with a row whose author counts are set. */
  lemma GapDaysFilled(ctx: Context, date: Date, author: string, added: int, deleted: int, d: Date)
    requires Valid(date) && ctx.lastDate.Some? && Valid(ctx.lastDate.value) && IsAfter(date, ctx.lastDate.value)
    requires InRange(d, ctx.lastDate.value, date)
    ensures var r := RecordContribution(ctx, date, author, added, deleted);
            d in r.days && AuthorCountsSet(r.days[d])
  {
    FillInside(ctx, ctx.lastDate.value, date, d);
  }

  /** `finishAnalysis` of the context: fill from the last date up to the
      reference date. Without any recorded commit the last date is null and
      the fill throws, so one is required. */
  function FinishContext(ctx: Context): (r: Context)
    requires WellFormed(ctx) && ctx.lastDate.Some?
    ensures WellFormed(r)
  {
    FillDaysKeepsWellFormed(ctx, DayRange(ctx.lastDate.value, ctx.referenceDate));
    Fill(ctx, ctx.lastDate.value, ctx.referenceDate)
  }

  // ---------------------------------------------------------------------
  // ActivityTrendsAnalyzer
  // ---------------------------------------------------------------------

  /** `processCommit`: a null commit or context changes nothing; otherwise
      one contribution is recorded with the commit's date and author and the
      sums of its added and deleted lines. */
  function ProcessCommit(ctx: Option<Context>, commit: Option<Commit>): (r: Option<Context>)
    requires ctx.Some? && commit.Some? ==> WellFormed(ctx.value) && HasValidDate(commit.value)
    ensures ctx.None? || commit.None? ==> r == ctx
    ensures ctx.Some? && commit.Some? ==>
              var c := commit.value;
              var date := CommitDate(c);
              && r.Some? && WellFormed(r.value) && date in r.value.days
              && r.value.days[date].commits == RowFor(ctx.value, date).commits + 1
              && r.value.days[date].linesAdded == RowFor(ctx.value, date).linesAdded + SumAdded(c.changedFiles)
              && r.value.days[date].linesDeleted == RowFor(ctx.value, date).linesDeleted + SumDeleted(c.changedFiles)
              && r.value.lastDate == Some(date)
              && c.author in r.value.uniqueAuthors && c.author in r.value.authorLastActivity
              && r.value.authorLastActivity[c.author] == date
  {
    if ctx.None? || commit.None? then ctx
    else
      var c := commit.value;
      RecordKeepsWellFormed(ctx.value, CommitDate(c), c.author, SumAdded(c.changedFiles), SumDeleted(c.changedFiles));
      Some(RecordContribution(ctx.value, CommitDate(c), c.author, SumAdded(c.changedFiles), SumDeleted(c.changedFiles)))
  }

  /** `rows` holds every row of `days` once: as many rows as days, no date
      twice, and each row is the one stored for its date. */
  predicate ListsRows(rows: seq<DailyStats>, days: map<Date, DailyStats>) {
    && |rows| == |days|
    && (forall k :: 0 <= k < |rows| ==> rows[k].date in days && days[rows[k].date] == rows[k])
    && (forall k, l :: 0 <= k < l < |rows| ==> rows[k].date != rows[l].date)
  }

  /** `rows` are the context's rows in the `LinkedHashMap`'s insertion
      order. */
  predicate InInsertionOrder(rows: seq<DailyStats>, ctx: Context)
    requires WellFormed(ctx)
  {
    |rows| == |ctx.dayOrder| && forall k :: 0 <= k < |rows| ==> rows[k] == ctx.days[ctx.dayOrder[k]]
  }

  /** `finishAnalysis`: a null context saves nothing; otherwise the final
      fill runs and its rows are saved in insertion order under the analysis
      id. */
  function FinishAnalysis(ctx: Option<Context>): (r: Option<Trends>)
    requires ctx.Some? ==> WellFormed(ctx.value) && ctx.value.lastDate.Some?
    ensures r.Some? <==> ctx.Some?
    ensures r.Some? ==> r.value.analysisId == ctx.value.analysisId
    ensures r.Some? ==> ListsRows(r.value.dailyStats, FinishContext(ctx.value).days)
    ensures r.Some? ==> InInsertionOrder(r.value.dailyStats, FinishContext(ctx.value))
  {
    if ctx.None? then None
    else
      var f := FinishContext(ctx.value);
      var rows := seq(|f.dayOrder|, k requires 0 <= k < |f.dayOrder| => f.days[f.dayOrder[k]]);
      OrderCardinality(f.dayOrder, f.days);
      Some(Trends(ctx.value.analysisId, rows))
  }

  /** A listing without repeats of a map's keys is as long as the map. */
  lemma OrderCardinality<K, V>(order: seq<K>, m: map<K, V>)
    requires Authors.ListsKeys(order, m)
    ensures |order| == |m|
  {
    DistinctCardinality(order);
    assert m.Keys == Elements(order);
  }

  function Elements<K>(s: seq<K>): set<K> {
    set x | x in s
  }

  /** A sequence without repeats has as many elements as its set. */
  lemma {:induction false} DistinctCardinality<K>(s: seq<K>)
    requires forall k, l :: 0 <= k < l < |s| ==> s[k] != s[l]
    ensures |Elements(s)| == |s|
    decreases |s|
  {
    if |s| > 0 {
      var front := s[..|s| - 1];
      DistinctCardinality(front);
      assert Elements(s) == Elements(front) + {s[|s| - 1]};
      assert s[|s| - 1] !in Elements(front);
    }
  }

  /** The saved series has a row, with both author counts set, for every
      day from the last commit up to the day before the reference date. */
  lemma FinishCoversTimeline(ctx: Context)
    requires WellFormed(ctx) && ctx.lastDate.Some?
    ensures var t := FinishAnalysis(Some(ctx)).value;
            forall d :: InRange(d, ctx.lastDate.value, ctx.referenceDate) ==>
              exists k :: 0 <= k < |t.dailyStats| && t.dailyStats[k].date == d && AuthorCountsSet(t.dailyStats[k])
  {
    var f := FinishContext(ctx);
    var t := FinishAnalysis(Some(ctx)).value;
    forall d | InRange(d, ctx.lastDate.value, ctx.referenceDate)
      ensures exists k :: 0 <= k < |t.dailyStats| && t.dailyStats[k].date == d && AuthorCountsSet(t.dailyStats[k])
    {
      FillInside(ctx, ctx.lastDate.value, ctx.referenceDate, d);
      var k :| 0 <= k < |f.dayOrder| && f.dayOrder[k] == d;
      assert t.dailyStats[k] == f.days[d];
    }
  }

  /** The saved series begins with the days recorded before finishing, in
      the order they were first recorded, which need not be date order;
      the days the final fill adds follow them. */
  lemma FinishKeepsRecordedOrder(ctx: Context, k: nat)
    requires WellFormed(ctx) && ctx.lastDate.Some? && k < |ctx.dayOrder|
    ensures k < |FinishAnalysis(Some(ctx)).value.dailyStats|
    ensures FinishAnalysis(Some(ctx)).value.dailyStats[k].date == ctx.dayOrder[k]
  {
    var f := FinishContext(ctx);
    FillDaysKeepsOrder(ctx, DayRange(ctx.lastDate.value, ctx.referenceDate));
    assert f.dayOrder[..|ctx.dayOrder|][k] == f.dayOrder[k];
  }
}

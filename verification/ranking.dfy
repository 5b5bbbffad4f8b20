/** What the knowledge and ownership analyzers compute from one file's
    author counters: the totals, each author's percentage of the added
    lines, the list sorted by descending percentage (a stable sort, as
    `Stream.sorted` is), and the lead-author rules. Percentages are exact
    reals rather than IEEE doubles. */
module Ranking {

  import opened Nullable
  import opened Contributions

  // ---------------------------------------------------------------------
  // Totals and percentages
  // ---------------------------------------------------------------------

  function SumLines(cs: seq<AuthorContribution>): int
    decreases |cs|
  {
    if |cs| == 0 then 0 else cs[0].linesAdded + SumLines(cs[1..])
  }

  function SumCommits(cs: seq<AuthorContribution>): int
    decreases |cs|
  {
    if |cs| == 0 then 0 else cs[0].commits + SumCommits(cs[1..])
  }

  function SumPercentages(cs: seq<AuthorContribution>): real
    decreases |cs|
  {
    if |cs| == 0 then 0.0 else cs[0].contributionPercentage + SumPercentages(cs[1..])
  }

  /** `lines * 100.0 / total` when the total is positive, else 0. The
      ownership analyzer's `lines / total * 100.0` is the same real number. */
  function Percentage(lines: int, total: int): real {
    if total > 0 then (lines as real) * 100.0 / (total as real) else 0.0
  }

  /** The `peek` step: each counter gets its percentage of `total`. */
  function WithPercentages(cs: seq<AuthorContribution>, total: int): (r: seq<AuthorContribution>)
    ensures |r| == |cs|
    ensures forall i :: 0 <= i < |cs| ==>
              r[i] == cs[i].(contributionPercentage := Percentage(cs[i].linesAdded, total))
  {
    seq(|cs|, i requires 0 <= i < |cs| => cs[i].(contributionPercentage := Percentage(cs[i].linesAdded, total)))
  }

  /** With a positive total equal to the sum of the lines, the percentages
      add up to 100. */
  lemma PercentagesSumTo100(cs: seq<AuthorContribution>)
    requires SumLines(cs) > 0
    ensures SumPercentages(WithPercentages(cs, SumLines(cs))) == 100.0
  {
    PercentagesSum(cs, SumLines(cs));
    var t := SumLines(cs) as real;
    assert t * 100.0 / t == 100.0;
  }

  lemma {:induction false} PercentagesSum(cs: seq<AuthorContribution>, total: int)
    requires total > 0
    ensures SumPercentages(WithPercentages(cs, total)) == (SumLines(cs) as real) * 100.0 / (total as real)
    decreases |cs|
  {
    if |cs| > 0 {
      PercentagesSum(cs[1..], total);
      assert WithPercentages(cs, total)[1..] == WithPercentages(cs[1..], total);
      AddFractions(cs[0].linesAdded as real, SumLines(cs[1..]) as real, total as real);
    }
  }

  lemma AddFractions(a: real, b: real, t: real)
    requires t > 0.0
    ensures a * 100.0 / t + b * 100.0 / t == (a + b) * 100.0 / t
  {
  }

  // ---------------------------------------------------------------------
  // Stable sort by descending percentage
  // ---------------------------------------------------------------------

  predicate SortedDesc(cs: seq<AuthorContribution>) {
    forall i, j :: 0 <= i < j < |cs| ==> cs[i].contributionPercentage >= cs[j].contributionPercentage
  }

  /** Puts x in front of the first element whose percentage is not above
      x's, so x stays ahead of everything with an equal percentage. */
  function Insert(x: AuthorContribution, cs: seq<AuthorContribution>): (r: seq<AuthorContribution>)
    decreases |cs|
    ensures multiset(r) == multiset(cs) + multiset{x}
    ensures |r| == |cs| + 1
  {
    if |cs| == 0 || cs[0].contributionPercentage <= x.contributionPercentage then [x] + cs
    else
      assert cs == [cs[0]] + cs[1..];
      [cs[0]] + Insert(x, cs[1..])
  }

  /** `sorted(comparingDouble(getContributionPercentage).reversed())`. */
  function SortDesc(cs: seq<AuthorContribution>): (r: seq<AuthorContribution>)
    decreases |cs|
    ensures multiset(r) == multiset(cs)
    ensures |r| == |cs|
  {
    if |cs| == 0 then []
    else
      assert cs == [cs[0]] + cs[1..];
      Insert(cs[0], SortDesc(cs[1..]))
  }

  lemma {:induction false} InsertSorted(x: AuthorContribution, cs: seq<AuthorContribution>)
    requires SortedDesc(cs)
    ensures SortedDesc(Insert(x, cs))
    ensures |cs| > 0 ==> Insert(x, cs)[0] == x || Insert(x, cs)[0] == cs[0]
    decreases |cs|
  {
    if |cs| > 0 && cs[0].contributionPercentage > x.contributionPercentage {
      TailSorted(cs);
      InsertSorted(x, cs[1..]);
      var rest := Insert(x, cs[1..]);
      assert Insert(x, cs) == [cs[0]] + rest;
      ConsSorted(cs[0], rest);
    } else {
      ConsSorted(x, cs);
    }
  }

  lemma TailSorted(cs: seq<AuthorContribution>)
    requires SortedDesc(cs) && |cs| > 0
    ensures SortedDesc(cs[1..])
    ensures |cs| > 1 ==> cs[0].contributionPercentage >= cs[1].contributionPercentage
  {
  }

  /** A sorted list stays sorted with a large enough element in front. */
  lemma ConsSorted(h: AuthorContribution, rest: seq<AuthorContribution>)
    requires SortedDesc(rest)
    requires |rest| > 0 ==> h.contributionPercentage >= rest[0].contributionPercentage
    ensures SortedDesc([h] + rest)
  {
    var r := [h] + rest;
    forall i, j | 0 <= i < j < |r|
      ensures r[i].contributionPercentage >= r[j].contributionPercentage
    {
      if i == 0 {
        assert r[j] == rest[j - 1];
        if j > 1 {
          assert rest[0].contributionPercentage >= rest[j - 1].contributionPercentage;
        }
      } else {
        assert r[i] == rest[i - 1] && r[j] == rest[j - 1];
      }
    }
  }

  /** The sorted list is a permutation of its input in descending order. */
  lemma {:induction false} SortSorted(cs: seq<AuthorContribution>)
    ensures SortedDesc(SortDesc(cs))
    decreases |cs|
  {
    if |cs| > 0 {
      SortSorted(cs[1..]);
      InsertSorted(cs[0], SortDesc(cs[1..]));
    }
  }

  lemma {:induction false} InsertSums(x: AuthorContribution, cs: seq<AuthorContribution>)
    ensures SumLines(Insert(x, cs)) == x.linesAdded + SumLines(cs)
    ensures SumCommits(Insert(x, cs)) == x.commits + SumCommits(cs)
    decreases |cs|
  {
    if |cs| > 0 && cs[0].contributionPercentage > x.contributionPercentage {
      InsertSums(x, cs[1..]);
      assert Insert(x, cs)[1..] == Insert(x, cs[1..]);
    } else {
      assert ([x] + cs)[1..] == cs;
    }
  }

  /** Sorting keeps the totals. */
  lemma {:induction false} SortSums(cs: seq<AuthorContribution>)
    ensures SumLines(SortDesc(cs)) == SumLines(cs)
    ensures SumCommits(SortDesc(cs)) == SumCommits(cs)
    decreases |cs|
  {
    if |cs| > 0 {
      SortSums(cs[1..]);
      InsertSums(cs[0], SortDesc(cs[1..]));
    }
  }

  /** Attaching percentages keeps the line and commit counts. */
  lemma {:induction false} PercentagesKeepSums(cs: seq<AuthorContribution>, total: int)
    ensures SumLines(WithPercentages(cs, total)) == SumLines(cs)
    ensures SumCommits(WithPercentages(cs, total)) == SumCommits(cs)
    decreases |cs|
  {
    if |cs| > 0 {
      PercentagesKeepSums(cs[1..], total);
      assert WithPercentages(cs, total)[1..] == WithPercentages(cs[1..], total);
    }
  }

  /** The elements with percentage p, in list order. */
  function WithPercentage(cs: seq<AuthorContribution>, p: real): (r: seq<AuthorContribution>)
    decreases |cs|
    ensures forall k :: 0 <= k < |r| ==> r[k].contributionPercentage == p && r[k] in cs
  {
    if |cs| == 0 then []
    else (if cs[0].contributionPercentage == p then [cs[0]] else []) + WithPercentage(cs[1..], p)
  }

  /** The one-element contribution of `c` to `WithPercentage`. */
  function Picked(c: AuthorContribution, p: real): seq<AuthorContribution> {
    if c.contributionPercentage == p then [c] else []
  }

  lemma WithPercentageCons(h: AuthorContribution, t: seq<AuthorContribution>, p: real)
    ensures WithPercentage([h] + t, p) == Picked(h, p) + WithPercentage(t, p)
  {
    assert ([h] + t)[1..] == t;
  }

  lemma {:induction false} InsertStable(x: AuthorContribution, cs: seq<AuthorContribution>, p: real)
    ensures WithPercentage(Insert(x, cs), p) == Picked(x, p) + WithPercentage(cs, p)
    decreases |cs|
  {
    if |cs| > 0 && cs[0].contributionPercentage > x.contributionPercentage {
      var tail := cs[1..];
      InsertStable(x, tail, p);
      assert Insert(x, cs) == [cs[0]] + Insert(x, tail);
      assert cs == [cs[0]] + tail;
      StableStep(cs[0], x, tail, Insert(x, tail), p);
    } else {
      WithPercentageCons(x, cs, p);
    }
  }

  /** Passing an element with a larger percentage than x keeps x ahead of
      everything with x's percentage. */
  lemma StableStep(h: AuthorContribution, x: AuthorContribution, tail: seq<AuthorContribution>,
                   inserted: seq<AuthorContribution>, p: real)
    requires h.contributionPercentage > x.contributionPercentage
    requires WithPercentage(inserted, p) == Picked(x, p) + WithPercentage(tail, p)
    ensures WithPercentage([h] + inserted, p) == Picked(x, p) + WithPercentage([h] + tail, p)
  {
    WithPercentageCons(h, inserted, p);
    WithPercentageCons(h, tail, p);
    var wi, wt := WithPercentage(inserted, p), WithPercentage(tail, p);
    if x.contributionPercentage == p {
      assert Picked(h, p) == [];
      assert Picked(h, p) + wi == wi;
      assert Picked(h, p) + wt == wt;
    } else {
      assert Picked(x, p) == [];
      assert wi == wt;
      assert Picked(x, p) + (Picked(h, p) + wt) == Picked(h, p) + wt;
    }
  }

  /** Stability: for every percentage, the elements carrying it keep their
      input order. */
  lemma {:induction false} SortStable(cs: seq<AuthorContribution>, p: real)
    ensures WithPercentage(SortDesc(cs), p) == WithPercentage(cs, p)
    decreases |cs|
  {
    if |cs| > 0 {
      SortStable(cs[1..], p);
      InsertStable(cs[0], SortDesc(cs[1..]), p);
    }
  }

  // ---------------------------------------------------------------------
  // Lead author (knowledge analyzers)
  // ---------------------------------------------------------------------

  /** `mapToDouble(getContributionPercentage).max().orElse(0.0)`. */
  function MaxPercentage(cs: seq<AuthorContribution>): (m: real)
    decreases |cs|
    ensures forall k :: 0 <= k < |cs| ==> cs[k].contributionPercentage <= m
    ensures |cs| > 0 ==> exists k :: 0 <= k < |cs| && cs[k].contributionPercentage == m
    ensures |cs| == 0 ==> m == 0.0
  {
    if |cs| == 0 then 0.0
    else if |cs| == 1 then cs[0].contributionPercentage
    else
      var m := MaxPercentage(cs[..|cs| - 1]);
      assert forall k :: 0 <= k < |cs| - 1 ==> cs[k] == cs[..|cs| - 1][k];
      if cs[|cs| - 1].contributionPercentage > m then cs[|cs| - 1].contributionPercentage else m
  }

  /** `max(comparingInt(getCommits))`: a left-to-right reduction that only
      replaces the candidate by a strictly larger one, so ties go to the
      earliest element. */
  function MostCommits(cs: seq<AuthorContribution>): (r: Option<AuthorContribution>)
    decreases |cs|
    ensures r.None? <==> |cs| == 0
    ensures r.Some? ==> forall k :: 0 <= k < |cs| ==> cs[k].commits <= r.value.commits
    ensures r.Some? ==> exists i :: 0 <= i < |cs| && cs[i] == r.value
                          && forall k :: 0 <= k < i ==> cs[k].commits < r.value.commits
  {
    if |cs| == 0 then None
    else
      var init := cs[..|cs| - 1];
      var last := cs[|cs| - 1];
      assert forall k :: 0 <= k < |init| ==> cs[k] == init[k];
      match MostCommits(init)
      case None => Some(last)
      case Some(best) => if best.commits >= last.commits then Some(best) else Some(last)
  }

  /** `determineLeadAuthorContribution`: nobody when the top percentage is
      below 1; otherwise the top-percentage contributor with the most
      commits, ties going to the earliest. */
  function LeadContribution(cs: seq<AuthorContribution>): (r: Option<AuthorContribution>)
    ensures r.None? <==> MaxPercentage(cs) < 1.0
    ensures r.Some? ==> r.value in cs && r.value.contributionPercentage == MaxPercentage(cs)
    ensures r.Some? ==> exists i :: FirstMostCommitsAt(cs, MaxPercentage(cs), i) && cs[i] == r.value
  {
    var top := MaxPercentage(cs);
    if top < 1.0 then None
    else
      var k :| 0 <= k < |cs| && cs[k].contributionPercentage == top;
      WithPercentageHas(cs, top, k);
      MostCommitsWithPercentage(cs, top);
      MostCommits(WithPercentage(cs, top))
  }

  /** `cs[i]` has percentage `p`, at least as many commits as every element
      with `p`, and strictly more than every earlier element with `p`: the
      element `filter(p).max(comparingInt(getCommits))` picks. */
  predicate FirstMostCommitsAt(cs: seq<AuthorContribution>, p: real, i: int) {
    && 0 <= i < |cs| && cs[i].contributionPercentage == p
    && (forall k :: 0 <= k < |cs| && cs[k].contributionPercentage == p ==> cs[k].commits <= cs[i].commits)
    && (forall k :: 0 <= k < i && cs[k].contributionPercentage == p ==> cs[k].commits < cs[i].commits)
  }

  /** The filter seen from the end: the last element contributes itself
      or nothing. */
  lemma {:induction false} WithPercentageSnoc(cs: seq<AuthorContribution>, p: real)
    requires |cs| > 0
    ensures WithPercentage(cs, p) == WithPercentage(cs[..|cs| - 1], p) + Picked(cs[|cs| - 1], p)
    decreases |cs|
  {
    if |cs| > 1 {
      var init := cs[..|cs| - 1];
      WithPercentageSnoc(cs[1..], p);
      assert cs[1..][..|cs[1..]| - 1] == init[1..];
      assert cs[1..][|cs[1..]| - 1] == cs[|cs| - 1];
      calc {
        WithPercentage(cs, p);
        Picked(cs[0], p) + WithPercentage(cs[1..], p);
        Picked(cs[0], p) + (WithPercentage(init[1..], p) + Picked(cs[|cs| - 1], p));
        (Picked(cs[0], p) + WithPercentage(init[1..], p)) + Picked(cs[|cs| - 1], p);
        WithPercentage(init, p) + Picked(cs[|cs| - 1], p);
      }
    }
  }

  /** No element of `cs` has percentage `p`. */
  predicate NoneWith(cs: seq<AuthorContribution>, p: real) {
    forall k :: 0 <= k < |cs| ==> cs[k].contributionPercentage != p
  }

  /** `MostCommits` of a list with one more element at its end. */
  lemma MostCommitsSnoc(w: seq<AuthorContribution>, last: AuthorContribution)
    ensures MostCommits(w + [last])
            == match MostCommits(w)
               case None => Some(last)
               case Some(best) => if best.commits >= last.commits then Some(best) else Some(last)
  {
    assert (w + [last])[..|w|] == w && (w + [last])[|w|] == last;
  }

  /** A last element without `p` leaves the choice where it was. */
  lemma FirstAtOther(cs: seq<AuthorContribution>, p: real, i: int)
    requires |cs| > 0 && cs[|cs| - 1].contributionPercentage != p
    requires FirstMostCommitsAt(cs[..|cs| - 1], p, i)
    ensures FirstMostCommitsAt(cs, p, i)
  {
    assert forall k :: 0 <= k < |cs| - 1 ==> cs[..|cs| - 1][k] == cs[k];
  }

  /** A last element with `p` and no more commits than the choice leaves
      the choice where it was. */
  lemma FirstAtKept(cs: seq<AuthorContribution>, p: real, i: int)
    requires |cs| > 0 && cs[|cs| - 1].contributionPercentage == p
    requires FirstMostCommitsAt(cs[..|cs| - 1], p, i) && cs[i].commits >= cs[|cs| - 1].commits
    ensures FirstMostCommitsAt(cs, p, i)
  {
    assert forall k :: 0 <= k < |cs| - 1 ==> cs[..|cs| - 1][k] == cs[k];
  }

  /** A last element with `p` and more commits than every earlier element
      with `p` is the choice. */
  lemma FirstAtLast(cs: seq<AuthorContribution>, p: real)
    requires |cs| > 0 && cs[|cs| - 1].contributionPercentage == p
    requires forall k :: 0 <= k < |cs| - 1 && cs[k].contributionPercentage == p ==>
               cs[k].commits < cs[|cs| - 1].commits
    ensures FirstMostCommitsAt(cs, p, |cs| - 1)
  {
  }

  /** `filter(p).max(comparingInt(getCommits))` read on the unfiltered
      list, one element at a time from the front: elements without `p` are
      passed over, and a candidate is replaced only by strictly more
      commits. */
  function TopMostCommits(cs: seq<AuthorContribution>, p: real): Option<AuthorContribution>
    decreases |cs|
  {
    if |cs| == 0 then None
    else
      var r := TopMostCommits(cs[..|cs| - 1], p);
      var last := cs[|cs| - 1];
      if last.contributionPercentage != p then r
      else if r.Some? && r.value.commits >= last.commits then r
      else Some(last)
  }

  /** Filtering first and then taking the most commits is the one-pass
      reading. */
  lemma {:induction false} MostCommitsFiltered(cs: seq<AuthorContribution>, p: real)
    ensures MostCommits(WithPercentage(cs, p)) == TopMostCommits(cs, p)
    decreases |cs|
  {
    if |cs| > 0 {
      var init, last := cs[..|cs| - 1], cs[|cs| - 1];
      MostCommitsFiltered(init, p);
      WithPercentageSnoc(cs, p);
      if last.contributionPercentage == p {
        MostCommitsSnoc(WithPercentage(init, p), last);
      } else {
        assert WithPercentage(cs, p) == WithPercentage(init, p) + [];
        assert WithPercentage(init, p) + [] == WithPercentage(init, p);
      }
    }
  }

  /** The one-pass reading finds nobody exactly when no element has `p`,
      and otherwise the element `FirstMostCommitsAt` names. */
  lemma {:induction false} TopMostCommitsChoice(cs: seq<AuthorContribution>, p: real)
    ensures TopMostCommits(cs, p).None? <==> NoneWith(cs, p)
    ensures TopMostCommits(cs, p).Some? ==>
              exists i :: FirstMostCommitsAt(cs, p, i) && cs[i] == TopMostCommits(cs, p).value
    decreases |cs|
  {
    if |cs| > 0 {
      var init, last := cs[..|cs| - 1], cs[|cs| - 1];
      TopMostCommitsChoice(init, p);
      var r0 := TopMostCommits(init, p);
      assert forall k :: 0 <= k < |init| ==> init[k] == cs[k];
      if last.contributionPercentage != p {
        if r0.Some? {
          var i0 :| FirstMostCommitsAt(init, p, i0) && init[i0] == r0.value;
          FirstAtOther(cs, p, i0);
        }
      } else if r0.Some? && r0.value.commits >= last.commits {
        var i0 :| FirstMostCommitsAt(init, p, i0) && init[i0] == r0.value;
        FirstAtKept(cs, p, i0);
      } else {
        if r0.Some? {
          var i0 :| FirstMostCommitsAt(init, p, i0) && init[i0] == r0.value;
        }
        FirstAtLast(cs, p);
      }
    }
  }

  /** `MostCommits` after the filter, read on the unfiltered list. */
  lemma MostCommitsWithPercentage(cs: seq<AuthorContribution>, p: real)
    ensures MostCommits(WithPercentage(cs, p)).Some? ==>
              exists i :: FirstMostCommitsAt(cs, p, i) && cs[i] == MostCommits(WithPercentage(cs, p)).value
  {
    MostCommitsFiltered(cs, p);
    TopMostCommitsChoice(cs, p);
  }

  lemma {:induction false} WithPercentageHas(cs: seq<AuthorContribution>, p: real, k: nat)
    requires k < |cs| && cs[k].contributionPercentage == p
    ensures |WithPercentage(cs, p)| > 0
    decreases |cs|
  {
    if k > 0 && cs[0].contributionPercentage != p {
      WithPercentageHas(cs[1..], p, k - 1);
    }
  }

  /** Two lists with the same elements have the same maximum. */
  lemma SameMax(cs: seq<AuthorContribution>, ds: seq<AuthorContribution>)
    requires multiset(cs) == multiset(ds)
    ensures MaxPercentage(cs) == MaxPercentage(ds)
  {
    if |cs| > 0 {
      assert |ds| == |multiset(ds)| == |multiset(cs)| == |cs|;
      var i :| 0 <= i < |cs| && cs[i].contributionPercentage == MaxPercentage(cs);
      var j :| 0 <= j < |ds| && ds[j].contributionPercentage == MaxPercentage(ds);
      assert cs[i] in multiset(ds);
      assert ds[j] in multiset(cs);
    } else {
      assert |ds| == |multiset(ds)| == 0;
    }
  }

  /** The lead chosen from the sorted list is the one chosen from the list
      in its original order: sorting cannot change who leads, and among
      equal claims the earliest in the original order wins. */
  lemma LeadIgnoresSort(cs: seq<AuthorContribution>)
    ensures LeadContribution(SortDesc(cs)) == LeadContribution(cs)
  {
    SameMax(SortDesc(cs), cs);
    SortStable(cs, MaxPercentage(cs));
  }

  // ---------------------------------------------------------------------
  // Lead authors (ownership analyzer)
  // ---------------------------------------------------------------------

  function Abs(x: real): real {
    if x < 0.0 then -x else x
  }

  /** The names of the elements within 0.01 of `top`, in list order. */
  function NamesNear(cs: seq<AuthorContribution>, top: real): (r: seq<string>)
    decreases |cs|
    ensures |r| <= |cs|
    ensures forall k :: 0 <= k < |r| ==>
              exists i :: 0 <= i < |cs| && cs[i].name == r[k] && Abs(cs[i].contributionPercentage - top) < 0.01
  {
    if |cs| == 0 then []
    else
      var rest := NamesNear(cs[1..], top);
      assert forall k :: 0 <= k < |cs| - 1 ==> cs[1..][k] == cs[k + 1];
      if Abs(cs[0].contributionPercentage - top) < 0.01 then [cs[0].name] + rest else rest
  }

  /** `determineLeadAuthors`: nobody for an empty list or when the first
      (largest) percentage is below 1; otherwise everyone within 0.01 of
      it, the first contributor first. */
  function LeadAuthors(cs: seq<AuthorContribution>): (r: seq<string>)
    ensures r == [] <==> |cs| == 0 || cs[0].contributionPercentage < 1.0
    ensures r != [] ==> r[0] == cs[0].name
    ensures forall k :: 0 <= k < |r| ==>
              exists i :: 0 <= i < |cs| && cs[i].name == r[k]
                          && Abs(cs[i].contributionPercentage - cs[0].contributionPercentage) < 0.01
  {
    if |cs| == 0 || cs[0].contributionPercentage < 1.0 then []
    else NamesNear(cs, cs[0].contributionPercentage)
  }
}

// SonarResultDownloader: the paged download of SonarQube API results and
// the helpers that read issue and measure fields. The HTTP exchange
// becomes a function from (page, page size) to what the server answered;
// JSON values arrive as their `String.valueOf` text.

module SonarResults {
  import opened Nullable
  import opened JavaLang

  const FileProblemTypes: seq<string> := ["BUG", "CODE_SMELL"]
  const FileSeverities: seq<string> := ["MAJOR", "CRITICAL"]
  const DefaultPageSize: int := 500
  const MaxApiResults: int := 10000
  /** The last page whose offset is below the API limit. */
  const MaxRequests: int := MaxApiResults / DefaultPageSize

  // ---------------------------------------------------------------------
  // Paging
  // ---------------------------------------------------------------------

  /** One answer of the server: the exchange threw, the body was null, or
      a body with the base object, the item list and `paging.total`. */
  datatype Exchange<B, T> =
    | Failed
    | NoBody
    | Body(base: Option<B>, items: Option<seq<T>>, pagingTotal: Option<string>)

  /** The combined result, plus the (page, page size) of every request. */
  datatype Paged<B, T> = Paged(base: Option<B>, items: seq<T>, total: Option<int>, requests: seq<(int, int)>)

  /** `paging.total` read as an int and capped at the API limit; text that
      does not parse is ignored. */
  function ParseTotal(pagingTotal: Option<string>): (r: Option<int>)
    ensures r.Some? <==> pagingTotal.Some? && ParseInt(pagingTotal.value).Some?
    ensures r.Some? ==> r.value <= MaxApiResults
    ensures r.Some? && ParseInt(pagingTotal.value).value <= MaxApiResults ==> r == ParseInt(pagingTotal.value)
  {
    match pagingTotal
    case None => None
    case Some(text) =>
      match ParseInt(text)
      case None => None
      case Some(total) => if total > MaxApiResults then Some(MaxApiResults) else Some(total)
  }

  /** The page size asked for on a page below the limit: 500, clamped to
      what is left below the limit. The limit is a multiple of 500, so the
      clamp never applies. */
  function PageSizeFor(page: int): (size: int)
    requires 1 <= page && (page - 1) * DefaultPageSize < MaxApiResults
    ensures size == DefaultPageSize
  {
    var alreadyFetched := (page - 1) * DefaultPageSize;
    if page * DefaultPageSize > MaxApiResults then MaxApiResults - alreadyFetched else DefaultPageSize
  }

  /** The loop of `fetchPaged` from `page` on, `acc` holding what the
      earlier pages gave. `withBase` says whether a base key was asked
      for. */
  function FetchFrom<B, T>(fetch: (int, int) -> Exchange<B, T>, withBase: bool, page: int, acc: Paged<B, T>)
    : (r: Option<Paged<B, T>>)
    requires 1 <= page <= MaxRequests + 1
    ensures r.Some? ==> |acc.items| <= |r.value.items| && r.value.items[..|acc.items|] == acc.items
    ensures r.Some? ==> |acc.requests| <= |r.value.requests| <= |acc.requests| + MaxRequests + 1 - page
    ensures r.Some? ==> r.value.requests[..|acc.requests|] == acc.requests
    ensures r.Some? && acc.total.Some? ==> r.value.total == acc.total
    ensures r.Some? && (acc.base.Some? || !withBase) ==> r.value.base == acc.base
    decreases MaxRequests + 1 - page
  {
    var alreadyFetched := (page - 1) * DefaultPageSize;
    if alreadyFetched >= MaxApiResults then Some(acc)
    else
      var size := PageSizeFor(page);
      match fetch(page, size)
      case Failed => None
      case NoBody => Some(acc.(requests := acc.requests + [(page, size)]))
      case Body(b, items, pagingTotal) =>
        var base := if withBase && acc.base.None? && b.Some? then b else acc.base;
        var all := acc.items + (if items.Some? then items.value else []);
        var total := if acc.total.None? then ParseTotal(pagingTotal) else acc.total;
        var next := Paged(base, all, total, acc.requests + [(page, size)]);
        if items.None? || |items.value| < size then Some(next)
        else if total.Some? && |all| >= total.value then Some(next)
        else FetchFrom(fetch, withBase, page + 1, next)
  }

  /** `fetchPaged`: null when an exchange throws. */
  function FetchPaged<B, T>(fetch: (int, int) -> Exchange<B, T>, withBase: bool): (r: Option<Paged<B, T>>)
    ensures r.Some? ==> |r.value.requests| <= MaxRequests
    ensures r.Some? && !withBase ==> r.value.base.None?
  {
    FetchFrom(fetch, withBase, 1, Paged(None, [], None, []))
  }

  // The same download described page by page.

  function Answer<B, T>(fetch: (int, int) -> Exchange<B, T>, page: int): Exchange<B, T> {
    fetch(page, DefaultPageSize)
  }

  function PageItems<B, T>(e: Exchange<B, T>): seq<T> {
    if e.Body? && e.items.Some? then e.items.value else []
  }

  /** The items of pages 1..k, in page order. */
  function ItemsUpTo<B, T>(fetch: (int, int) -> Exchange<B, T>, k: nat): seq<T> {
    if k == 0 then [] else ItemsUpTo(fetch, k - 1) + PageItems(Answer(fetch, k))
  }

  /** The first total that pages 1..k reported and that parsed. */
  function TotalUpTo<B, T>(fetch: (int, int) -> Exchange<B, T>, k: nat): Option<int> {
    if k == 0 then None
    else
      var before := TotalUpTo(fetch, k - 1);
      if before.Some? then before
      else if Answer(fetch, k).Body? then ParseTotal(Answer(fetch, k).pagingTotal)
      else None
  }

  /** The first base object among pages 1..k, when one was asked for. */
  function BaseUpTo<B, T>(fetch: (int, int) -> Exchange<B, T>, withBase: bool, k: nat): Option<B> {
    if k == 0 || !withBase then None
    else
      var before := BaseUpTo(fetch, withBase, k - 1);
      if before.Some? then before
      else if Answer(fetch, k).Body? then Answer(fetch, k).base
      else None
  }

  /** Page k ends the download: no body, no or a short item list, or the
      items so far reach the total. */
  predicate StopsAt<B, T>(fetch: (int, int) -> Exchange<B, T>, k: nat) {
    var e := Answer(fetch, k);
    || e.NoBody?
    || (e.Body? && (|| e.items.None? || |e.items.value| < DefaultPageSize
                   || (TotalUpTo(fetch, k).Some? && |ItemsUpTo(fetch, k)| >= TotalUpTo(fetch, k).value)))
  }

  /** Every page before k answered and asked for more. */
  predicate Reaches<B, T>(fetch: (int, int) -> Exchange<B, T>, k: nat) {
    forall j: nat :: 1 <= j < k ==> Answer(fetch, j).Body? && !StopsAt(fetch, j)
  }

  function Requests(k: nat): (rs: seq<(int, int)>)
    ensures |rs| == k
  {
    seq(k, i => (i + 1, DefaultPageSize))
  }

  function StateAfter<B, T>(fetch: (int, int) -> Exchange<B, T>, withBase: bool, k: nat): Paged<B, T> {
    Paged(BaseUpTo(fetch, withBase, k), ItemsUpTo(fetch, k), TotalUpTo(fetch, k), Requests(k))
  }

  /** A total that was read is at most the API limit. */
  lemma {:induction false} TotalCapped<B, T>(fetch: (int, int) -> Exchange<B, T>, k: nat)
    ensures TotalUpTo(fetch, k).Some? ==> TotalUpTo(fetch, k).value <= MaxApiResults
  {
    if k > 0 {
      TotalCapped(fetch, k - 1);
    }
  }

  /** One answered page moves the state after the earlier pages to the
      state after this one. */
  lemma StepState<B, T>(fetch: (int, int) -> Exchange<B, T>, withBase: bool, page: int)
    requires 1 <= page <= MaxRequests
    ensures var acc := StateAfter(fetch, withBase, page - 1);
            var e := Answer(fetch, page);
            && (e.NoBody? ==> acc.(requests := acc.requests + [(page, DefaultPageSize)]) == StateAfter(fetch, withBase, page))
            && (e.Body? ==>
                  Paged(if withBase && acc.base.None? && e.base.Some? then e.base else acc.base,
                        acc.items + (if e.items.Some? then e.items.value else []),
                        if acc.total.None? then ParseTotal(e.pagingTotal) else acc.total,
                        acc.requests + [(page, DefaultPageSize)])
                  == StateAfter(fetch, withBase, page))
  {
    assert Requests(page - 1) + [(page, DefaultPageSize)] == Requests(page);
    if Answer(fetch, page).NoBody? {
      assert ItemsUpTo(fetch, page) == ItemsUpTo(fetch, page - 1) + [];
    }
  }

  /** One turn of the loop on a page below the limit, in the state the
      earlier pages leave: a throwing exchange ends in null, a page that
      ends the download returns the state after it, and any other page
      goes on to the next one. */
  lemma FetchStep<B, T>(fetch: (int, int) -> Exchange<B, T>, withBase: bool, page: int)
    requires 1 <= page <= MaxRequests
    ensures var r := FetchFrom(fetch, withBase, page, StateAfter(fetch, withBase, page - 1));
            && (Answer(fetch, page).Failed? ==> r.None?)
            && (!Answer(fetch, page).Failed? && StopsAt(fetch, page) ==> r == Some(StateAfter(fetch, withBase, page)))
            && (Answer(fetch, page).Body? && !StopsAt(fetch, page)
                ==> r == FetchFrom(fetch, withBase, page + 1, StateAfter(fetch, withBase, page)))
  {
    StepState(fetch, withBase, page);
  }

  /** The download ended normally after k requests with result `p`: every
      earlier page asked for more, page k answered, and ended the download
      unless it was the last page below the limit; `p` is the state after
      page k. */
  ghost predicate FinishedAt<B, T>(fetch: (int, int) -> Exchange<B, T>, withBase: bool, k: int, p: Paged<B, T>) {
    && 1 <= k <= MaxRequests
    && Reaches(fetch, k)
    && !Answer(fetch, k).Failed?
    && (k < MaxRequests ==> StopsAt(fetch, k))
    && p == StateAfter(fetch, withBase, k)
  }

  /** A loop that ends normally, from `page` on in the state the earlier
      pages leave, finishes at a page at or after the one before `page`. */
  lemma {:induction false} FetchFromSome<B, T>(fetch: (int, int) -> Exchange<B, T>, withBase: bool, page: int)
    requires 1 <= page <= MaxRequests + 1
    requires Reaches(fetch, page)
    requires FetchFrom(fetch, withBase, page, StateAfter(fetch, withBase, page - 1)).Some?
    ensures var r := FetchFrom(fetch, withBase, page, StateAfter(fetch, withBase, page - 1)).value;
            page - 1 <= |r.requests| && FinishedAt(fetch, withBase, |r.requests|, r)
    decreases MaxRequests + 1 - page
  {
    var r := FetchFrom(fetch, withBase, page, StateAfter(fetch, withBase, page - 1));
    if page == MaxRequests + 1 {
      assert r == Some(StateAfter(fetch, withBase, page - 1));
      assert Answer(fetch, MaxRequests).Body?;
      assert FinishedAt(fetch, withBase, MaxRequests, r.value);
    } else {
      FetchStep(fetch, withBase, page);
      if Answer(fetch, page).Body? && !StopsAt(fetch, page) {
        assert Reaches(fetch, page + 1);
        FetchFromSome(fetch, withBase, page + 1);
      } else {
        assert r == Some(StateAfter(fetch, withBase, page));
        assert |r.value.requests| == page;
        assert FinishedAt(fetch, withBase, page, r.value);
      }
    }
  }

  /** A loop that ends in null met a throwing exchange on a page it
      reached. */
  lemma {:induction false} FetchFromNone<B, T>(fetch: (int, int) -> Exchange<B, T>, withBase: bool, page: int)
    returns (k: nat)
    requires 1 <= page <= MaxRequests + 1
    requires Reaches(fetch, page)
    requires FetchFrom(fetch, withBase, page, StateAfter(fetch, withBase, page - 1)).None?
    ensures page <= k <= MaxRequests && Reaches(fetch, k) && Answer(fetch, k).Failed?
    decreases MaxRequests + 1 - page
  {
    FetchStep(fetch, withBase, page);
    if Answer(fetch, page).Failed? {
      k := page;
    } else {
      assert Reaches(fetch, page + 1);
      k := FetchFromNone(fetch, withBase, page + 1);
    }
  }

  /** A throwing exchange on a reached page makes the loop end in null. */
  lemma {:induction false} FetchFromFailsAt<B, T>(fetch: (int, int) -> Exchange<B, T>, withBase: bool, page: int,
                                                  k: nat)
    requires 1 <= page <= k <= MaxRequests
    requires Reaches(fetch, k) && Answer(fetch, k).Failed?
    ensures FetchFrom(fetch, withBase, page, StateAfter(fetch, withBase, page - 1)).None?
    decreases k - page
  {
    FetchStep(fetch, withBase, page);
    if page < k {
      assert Answer(fetch, page).Body? && !StopsAt(fetch, page);
      FetchFromFailsAt(fetch, withBase, page + 1, k);
    }
  }

  /** What `fetchPaged` does, page by page: it asks for pages 1, 2, ... of
      500 items each, at most 20 of them, and stops at the first page that
      ends the download or at the API limit; the result is null exactly
      when an exchange up to there throws, and otherwise holds the first
      base object, every item in page order and the first total. */
  lemma FetchPagedOutcome<B, T>(fetch: (int, int) -> Exchange<B, T>, withBase: bool)
    ensures var r := FetchPaged(fetch, withBase);
            && (r.None? <==> exists k: nat :: 1 <= k <= MaxRequests && Reaches(fetch, k) && Answer(fetch, k).Failed?)
            && (r.Some? ==> && FinishedAt(fetch, withBase, |r.value.requests|, r.value)
                            && (r.value.total.Some? ==> r.value.total.value <= MaxApiResults))
  {
    var r := FetchPaged(fetch, withBase);
    assert StateAfter(fetch, withBase, 0) == Paged(None, [], None, []);
    if r.Some? {
      FetchFromSome(fetch, withBase, 1);
      TotalCapped(fetch, |r.value.requests|);
      if exists k: nat :: 1 <= k <= MaxRequests && Reaches(fetch, k) && Answer(fetch, k).Failed? {
        var k: nat :| 1 <= k <= MaxRequests && Reaches(fetch, k) && Answer(fetch, k).Failed?;
        FetchFromFailsAt(fetch, withBase, 1, k);
      }
    } else {
      var k := FetchFromNone(fetch, withBase, 1);
    }
  }

  // ---------------------------------------------------------------------
  // Issue queries
  // ---------------------------------------------------------------------

  /** The (type, severity) pairs of a nested loop over `types` then
      `severities`. */
  function Pairs(types: seq<string>, severities: seq<string>): (ps: seq<(string, string)>)
    decreases |types|
  {
    if |types| == 0 then []
    else Pairs(types[..|types| - 1], severities) + Row(types[|types| - 1], severities)
  }

  function Row(t: string, severities: seq<string>): (ps: seq<(string, string)>)
    ensures |ps| == |severities|
  {
    seq(|severities|, k requires 0 <= k < |severities| => (t, severities[k]))
  }

  /** Every pair of a type and a severity is queried, and nothing else. */
  lemma {:induction false} PairsCover(types: seq<string>, severities: seq<string>, t: string, s: string)
    ensures (t, s) in Pairs(types, severities) <==> t in types && s in severities
    decreases |types|
  {
    if |types| > 0 {
      var init := types[..|types| - 1];
      PairsCover(init, severities, t, s);
      assert types == init + [types[|types| - 1]];
      if (t, s) in Row(types[|types| - 1], severities) {
        var k :| 0 <= k < |severities| && Row(types[|types| - 1], severities)[k] == (t, s);
      }
      if t == types[|types| - 1] && s in severities {
        var k :| 0 <= k < |severities| && severities[k] == s;
        assert Row(t, severities)[k] == (t, s);
      }
    }
  }

  /** The issue download runs these four queries, in this order. */
  lemma IssueQueryOrder()
    ensures Pairs(FileProblemTypes, FileSeverities)
            == [("BUG", "MAJOR"), ("BUG", "CRITICAL"), ("CODE_SMELL", "MAJOR"), ("CODE_SMELL", "CRITICAL")]
  {
    assert FileProblemTypes[..1] == ["BUG"];
    assert ["BUG"][..0] == [];
  }

  /** The items a query contributes: its download's items, or none when
      the download gave null. */
  function QueryItems<T>(query: (string, string) -> ((int, int) -> Exchange<(), T>), p: (string, string)): seq<T> {
    var partial := FetchPaged(query(p.0, p.1), false);
    if partial.Some? then partial.value.items else []
  }

  /** The items of a list of queries, in order. */
  function IssuesOf<T>(query: (string, string) -> ((int, int) -> Exchange<(), T>), ps: seq<(string, string)>)
    : seq<T>
    decreases |ps|
  {
    if |ps| == 0 then [] else IssuesOf(query, ps[..|ps| - 1]) + QueryItems(query, ps[|ps| - 1])
  }

  lemma IssuesOfSnoc<T>(query: (string, string) -> ((int, int) -> Exchange<(), T>), ps: seq<(string, string)>,
                        p: (string, string))
    ensures IssuesOf(query, ps + [p]) == IssuesOf(query, ps) + QueryItems(query, p)
  {
    assert (ps + [p])[..|ps|] == ps;
  }

  lemma RowSnoc(t: string, severities: seq<string>, j: nat)
    requires j < |severities|
    ensures Row(t, severities[..j + 1]) == Row(t, severities[..j]) + [(t, severities[j])]
  {
  }

  lemma PairsSnoc(types: seq<string>, severities: seq<string>, i: nat)
    requires i < |types|
    ensures Pairs(types[..i + 1], severities) == Pairs(types[..i], severities) + Row(types[i], severities)
  {
    assert types[..i + 1][..i] == types[..i];
  }

  /** The nested loop of `fetchIssues` over any type and severity lists. */
  method RunQueries<T>(query: (string, string) -> ((int, int) -> Exchange<(), T>), types: seq<string>,
                       severities: seq<string>) returns (result: seq<T>)
    ensures result == IssuesOf(query, Pairs(types, severities))
  {
    result := [];
    var i := 0;
    while i < |types|
      invariant 0 <= i <= |types|
      invariant result == IssuesOf(query, Pairs(types[..i], severities))
    {
      var t := types[i];
      var done := Pairs(types[..i], severities);
      var j := 0;
      assert done + Row(t, severities[..j]) == done;
      while j < |severities|
        invariant 0 <= j <= |severities|
        invariant result == IssuesOf(query, done + Row(t, severities[..j]))
      {
        var partial := FetchPaged(query(t, severities[j]), false);
        RowSnoc(t, severities, j);
        assert done + Row(t, severities[..j + 1]) == (done + Row(t, severities[..j])) + [(t, severities[j])];
        IssuesOfSnoc(query, done + Row(t, severities[..j]), (t, severities[j]));
        if partial.Some? {
          result := result + partial.value.items;
        }
        j := j + 1;
      }
      assert severities[..j] == severities;
      PairsSnoc(types, severities, i);
      i := i + 1;
    }
    assert types[..i] == types;
  }

  /** `fetchIssues`: one paged download per (type, severity) pair, the
      issues of all of them concatenated in query order. */
  method FetchIssues<T>(query: (string, string) -> ((int, int) -> Exchange<(), T>)) returns (result: seq<T>)
    ensures result == IssuesOf(query, Pairs(FileProblemTypes, FileSeverities))
  {
    result := RunQueries(query, FileProblemTypes, FileSeverities);
  }

  // ---------------------------------------------------------------------
  // Field readers
  // ---------------------------------------------------------------------

  /** `String.valueOf` of a possibly null value. */
  function ValueText(o: Option<string>): (s: string)
    ensures o.Some? ==> s == o.value
  {
    if o.Some? then o.value else "null"
  }

  /** `parseIntOrZero`: the int the text reads as, else 0. */
  function ParseIntOrZero(o: Option<string>): (r: int)
    ensures IsInt32(r)
    ensures o.None? ==> r == 0
    ensures o.Some? && ParseInt(o.value).Some? ==> r == ParseInt(o.value).value
    ensures o.Some? && ParseInt(o.value).None? ==> r == 0
  {
    match o
    case None => 0
    case Some(s) => if ParseInt(s).Some? then ParseInt(s).value else 0
  }

  /** `parseIntegerOrNull`: null for null or empty text or text that does
      not parse. */
  function ParseIntegerOrNull(o: Option<string>): (r: Option<int>)
    ensures r.Some? <==> o.Some? && ParseInt(o.value).Some?
    ensures r.Some? ==> r == ParseInt(o.value)
  {
    match o
    case None => None
    case Some(s) => if |s| == 0 then None else ParseInt(s)
  }

  /** `parseDoubleOrNull`, with `Double.parseDouble` as a parameter. */
  function ParseDoubleOrNull(o: Option<string>, parseDouble: string -> Option<real>): (r: Option<real>)
    ensures o.None? ==> r.None?
    ensures o.Some? && |o.value| == 0 ==> r.None?
    ensures o.Some? && |o.value| > 0 ==> r == parseDouble(o.value)
  {
    match o
    case None => None
    case Some(s) => if |s| == 0 then None else parseDouble(s)
  }

  /** `extractFilePath`: the component key with a leading "projectKey:"
      removed when there is one; null stays null. */
  function ExtractFilePath(projectKey: string, component: Option<string>): (r: Option<string>)
    ensures r.Some? <==> component.Some?
    ensures component.Some? && StartsWith(component.value, projectKey + ":")
            ==> projectKey + ":" + r.value == component.value
    ensures component.Some? && !StartsWith(component.value, projectKey + ":") ==> r == component
  {
    match component
    case None => None
    case Some(c) =>
      if StartsWith(c, projectKey + ":") then
        assert c == c[..|projectKey| + 1] + c[|projectKey| + 1..];
        Some(c[|projectKey| + 1..])
      else Some(c)
  }

  /** A file path under the project's key reads back as the path. */
  lemma FilePathRoundTrip(projectKey: string, path: string)
    ensures ExtractFilePath(projectKey, Some(projectKey + ":" + path)) == Some(path)
  {
    var c := projectKey + ":" + path;
    assert c[..|projectKey| + 1] == projectKey + ":";
    assert c[|projectKey| + 1..] == path;
  }

  /** The `textRange` of an issue: not a map, or a map whose fields may be
      missing. */
  datatype RawRange =
    | NoRangeMap
    | RangeMap(startLine: Option<string>, endLine: Option<string>, startOffset: Option<string>, endOffset: Option<string>)

  datatype TextRange = TextRange(startLine: int, endLine: int, startOffset: int, endOffset: int)

  /** `extractTextRange`: a range map gives its four fields, each 0 when
      missing or not a number; without one the range is the issue's line
      (0 when missing or not a number) with offsets 0. */
  function ExtractTextRange(textRange: RawRange, line: Option<string>): (r: TextRange)
    ensures textRange.RangeMap? ==> r == TextRange(ParseIntOrZero(textRange.startLine), ParseIntOrZero(textRange.endLine),
                                                   ParseIntOrZero(textRange.startOffset), ParseIntOrZero(textRange.endOffset))
    ensures textRange.NoRangeMap? ==> r.startLine == r.endLine && r.startOffset == 0 && r.endOffset == 0
    ensures textRange.NoRangeMap? && line.None? ==> r == TextRange(0, 0, 0, 0)
    ensures textRange.NoRangeMap? && line.Some? ==> r.startLine == ParseIntOrZero(line)
  {
    match textRange
    case RangeMap(sl, el, so, eo) =>
      TextRange(ParseIntOrZero(sl), ParseIntOrZero(el), ParseIntOrZero(so), ParseIntOrZero(eo))
    case NoRangeMap =>
      assert ParseInt("null").None? by { assert "null"[0] == 'n'; }
      var parsed := ParseIntegerOrNull(Some(ValueText(line)));
      if parsed.Some? then TextRange(parsed.value, parsed.value, 0, 0) else TextRange(0, 0, 0, 0)
  }

  /** An issue on line n, without a range map, covers exactly that line. */
  lemma LineRangeRoundTrip(n: nat)
    requires n <= INT_MAX
    ensures ExtractTextRange(NoRangeMap, Some(NatToDigits(n))) == TextRange(n, n, 0, 0)
  {
    ParseIntRoundTrip(n);
  }

  // ---------------------------------------------------------------------
  // Measures
  // ---------------------------------------------------------------------

  datatype Measure = Measure(metric: Option<string>, value: Option<string>)

  datatype Metrics = Metrics(
    bugs: Option<int>,
    vulnerabilities: Option<int>,
    codeSmells: Option<int>,
    coverage: Option<real>,
    duplicatedLinesDensity: Option<real>,
    complexity: Option<int>)

  predicate AllValued(measures: seq<Measure>) {
    forall i :: 0 <= i < |measures| ==> measures[i].value.Some?
  }

  /** `Collectors.toMap` with the merge `(v1, v2) -> v1`, in stream order:
      a key already present keeps its value. */
  function MetricsMap(measures: seq<Measure>): (m: map<Option<string>, string>)
    requires AllValued(measures)
    ensures m.Keys == set i | 0 <= i < |measures| :: measures[i].metric
    decreases |measures|
  {
    if |measures| == 0 then map[]
    else
      var init := measures[..|measures| - 1];
      var last := measures[|measures| - 1];
      var m := MetricsMap(init);
      if last.metric in m then m else m[last.metric := last.value.value]
  }

  /** The value of the first measure with the key, read from the front. */
  function FirstMeasure(measures: seq<Measure>, key: Option<string>): (r: Option<string>)
    decreases |measures|
  {
    if |measures| == 0 then None
    else if measures[0].metric == key then measures[0].value
    else FirstMeasure(measures[1..], key)
  }

  function Lookup(m: map<Option<string>, string>, key: Option<string>): Option<string> {
    if key in m then Some(m[key]) else None
  }

  lemma {:induction false} FirstMeasureSnoc(measures: seq<Measure>, x: Measure, key: Option<string>)
    requires AllValued(measures)
    ensures FirstMeasure(measures + [x], key)
            == (if FirstMeasure(measures, key).Some? then FirstMeasure(measures, key)
                else if x.metric == key then x.value else None)
    decreases |measures|
  {
    if |measures| == 0 {
      assert measures + [x] == [x];
    } else {
      assert (measures + [x])[0] == measures[0];
      assert (measures + [x])[1..] == measures[1..] + [x];
      FirstMeasureSnoc(measures[1..], x, key);
    }
  }

  /** For every key, the map holds the value of the first measure with
      that key, and no key without a measure. */
  lemma {:induction false} MetricsMapFirst(measures: seq<Measure>, key: Option<string>)
    requires AllValued(measures)
    ensures Lookup(MetricsMap(measures), key) == FirstMeasure(measures, key)
    decreases |measures|
  {
    if |measures| > 0 {
      var init := measures[..|measures| - 1];
      var last := measures[|measures| - 1];
      MetricsMapFirst(init, key);
      MetricsMapFirst(init, last.metric);
      assert measures == init + [last];
      FirstMeasureSnoc(init, last, key);
      FirstMeasureSnoc(init, last, last.metric);
      assert AllValued(init);
      var m := MetricsMap(init);
      assert FirstMeasure(measures, key) == FirstMeasure(init + [last], key);
      if last.metric in m {
        assert MetricsMap(measures) == m;
        assert FirstMeasure(init, last.metric).Some?;
        if key == last.metric {
          assert FirstMeasure(init + [last], key) == FirstMeasure(init, key);
        } else {
          assert FirstMeasure(init + [last], key) == FirstMeasure(init, key);
        }
      } else {
        assert MetricsMap(measures) == m[last.metric := last.value.value];
        assert FirstMeasure(init, last.metric).None?;
        if key == last.metric {
          assert Lookup(MetricsMap(measures), key) == last.value;
        } else {
          assert Lookup(MetricsMap(measures), key) == Lookup(m, key);
        }
      }
    }
  }

  /** `extractMetrics`: no measures give no metrics; a measure without a
      value makes `toMap` throw; otherwise each metric is read from the
      first measure with its key. */
  function ExtractMetrics(measures: Option<seq<Measure>>, parseDouble: string -> Option<real>): (r: Option<Metrics>)
    ensures measures.None? ==> r == Some(Metrics(None, None, None, None, None, None))
    ensures measures.Some? ==> (r.None? <==> !AllValued(measures.value))
    ensures r.Some? && measures.Some? ==>
              var ms := measures.value;
              && r.value.bugs == ParseIntegerOrNull(FirstMeasure(ms, Some("bugs")))
              && r.value.vulnerabilities == ParseIntegerOrNull(FirstMeasure(ms, Some("vulnerabilities")))
              && r.value.codeSmells == ParseIntegerOrNull(FirstMeasure(ms, Some("code_smells")))
              && r.value.coverage == ParseDoubleOrNull(FirstMeasure(ms, Some("coverage")), parseDouble)
              && r.value.duplicatedLinesDensity
                 == ParseDoubleOrNull(FirstMeasure(ms, Some("duplicated_lines_density")), parseDouble)
              && r.value.complexity == ParseIntegerOrNull(FirstMeasure(ms, Some("complexity")))
  {
    match measures
    case None => Some(Metrics(None, None, None, None, None, None))
    case Some(ms) =>
      if !AllValued(ms) then None
      else
        var m := MetricsMap(ms);
        MetricsMapFirst(ms, Some("bugs"));
        MetricsMapFirst(ms, Some("vulnerabilities"));
        MetricsMapFirst(ms, Some("code_smells"));
        MetricsMapFirst(ms, Some("coverage"));
        MetricsMapFirst(ms, Some("duplicated_lines_density"));
        MetricsMapFirst(ms, Some("complexity"));
        Some(Metrics(
          ParseIntegerOrNull(Lookup(m, Some("bugs"))),
          ParseIntegerOrNull(Lookup(m, Some("vulnerabilities"))),
          ParseIntegerOrNull(Lookup(m, Some("code_smells"))),
          ParseDoubleOrNull(Lookup(m, Some("coverage")), parseDouble),
          ParseDoubleOrNull(Lookup(m, Some("duplicated_lines_density")), parseDouble),
          ParseIntegerOrNull(Lookup(m, Some("complexity")))))
  }

  /** Of two measures with the same key, the earlier one wins. */
  lemma FirstMeasureWins(before: seq<Measure>, key: string, first: string, between: seq<Measure>, second: string,
                         after: seq<Measure>)
    requires forall i :: 0 <= i < |before| ==> before[i].metric != Some(key)
    ensures FirstMeasure(before + [Measure(Some(key), Some(first))] + between + [Measure(Some(key), Some(second))] + after,
                         Some(key)) == Some(first)
  {
    FirstMeasureAt(before + [Measure(Some(key), Some(first))] + between + [Measure(Some(key), Some(second))] + after,
                   Some(key), |before|);
  }

  lemma {:induction false} FirstMeasureAt(measures: seq<Measure>, key: Option<string>, i: nat)
    requires i < |measures| && measures[i].metric == key
    requires forall j :: 0 <= j < i ==> measures[j].metric != key
    ensures FirstMeasure(measures, key) == measures[i].value
    decreases i
  {
    if i > 0 {
      FirstMeasureAt(measures[1..], key, i - 1);
    }
  }
}

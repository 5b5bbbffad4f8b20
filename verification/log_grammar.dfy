/** Hand-written matchers for the two regular expressions that read a
    `git log --numstat` block:

      header:  \[(?<hash>[^]]+)]\s(?<date>\d{4}-\d{2}-\d{2})\n(?<author>[^<]+)\s<(?<email>[^>]+)>
      numstat: (?<added>\d+|-)\s+(?<removed>\d+|-)\s+(?<file>[^\n]+)

    Each is given twice: as a declarative predicate saying which substrings
    form a match at a position, and as a scanner that computes the match
    `Matcher.find` reports (leftmost start, then greedy quantifiers with
    backtracking). The scanners are proved to agree with the predicates. */
module LogGrammar {

  import opened Nullable
  import opened JavaLang

  // ---------------------------------------------------------------------
  // Scanning helpers
  // ---------------------------------------------------------------------

  /** First index at or after i holding c, or |s| when there is none: where
      a greedy `[^c]*` starting at i stops. */
  function Until(s: string, i: nat, c: char): (j: nat)
    requires i <= |s|
    ensures i <= j <= |s|
    ensures forall k :: i <= k < j ==> s[k] != c
    ensures j < |s| ==> s[j] == c
  {
    match IndexOfFrom(s, c, i)
    case None => |s|
    case Some(k) => k
  }

  /** Where a greedy `\d*` starting at i stops. */
  function DigitsEnd(s: string, i: nat): (j: nat)
    requires i <= |s|
    decreases |s| - i
    ensures i <= j <= |s|
    ensures forall k :: i <= k < j ==> IsDigit(s[k])
    ensures j < |s| ==> !IsDigit(s[j])
  {
    if i < |s| && IsDigit(s[i]) then DigitsEnd(s, i + 1) else i
  }

  /** Where a greedy `\s*` starting at i stops. */
  function SpacesEnd(s: string, i: nat): (j: nat)
    requires i <= |s|
    decreases |s| - i
    ensures i <= j <= |s|
    ensures forall k :: i <= k < j ==> IsRegexSpace(s[k])
    ensures j < |s| ==> !IsRegexSpace(s[j])
  {
    if i < |s| && IsRegexSpace(s[i]) then SpacesEnd(s, i + 1) else i
  }

  // ---------------------------------------------------------------------
  // Header
  // ---------------------------------------------------------------------

  /** `\d{4}-\d{2}-\d{2}`. */
  predicate IsDateShape(t: string) {
    |t| == 10 && t[4] == '-' && t[7] == '-'
    && IsDigit(t[0]) && IsDigit(t[1]) && IsDigit(t[2]) && IsDigit(t[3])
    && IsDigit(t[5]) && IsDigit(t[6]) && IsDigit(t[8]) && IsDigit(t[9])
  }

  /** A header match, by the positions of its delimiters: `[` at start, `]`
      at hashEnd, the whitespace before `<` at authorEnd, `>` at emailEnd. */
  datatype Header = Header(start: nat, hashEnd: nat, authorEnd: nat, emailEnd: nat)
  {
    function AuthorStart(): nat { hashEnd + 13 }

    /** One past the closing `>`. */
    function End(): nat { emailEnd + 1 }
  }

  /** `s` holds, at h.start, the text
      `[` hash `]` ws date LF author ws `<` email `>`
      with a non-empty hash free of `]`, a non-empty author free of `<`
      and a non-empty email free of `>`. */
  predicate IsHeaderAt(s: string, h: Header) {
    h.start + 1 < h.hashEnd && h.hashEnd + 13 < h.authorEnd && h.authorEnd + 2 < h.emailEnd < |s|
    && s[h.start] == '[' && s[h.hashEnd] == ']'
    && (forall k :: h.start < k < h.hashEnd ==> s[k] != ']')
    && IsRegexSpace(s[h.hashEnd + 1]) && IsDateShape(s[h.hashEnd + 2..h.hashEnd + 12]) && s[h.hashEnd + 12] == '\n'
    && (forall k :: h.AuthorStart() <= k < h.authorEnd ==> s[k] != '<')
    && IsRegexSpace(s[h.authorEnd]) && s[h.authorEnd + 1] == '<'
    && (forall k :: h.authorEnd + 2 <= k < h.emailEnd ==> s[k] != '>')
    && s[h.emailEnd] == '>'
  }

  /** The four captured groups. */
  function Hash(s: string, h: Header): (t: string)
    requires IsHeaderAt(s, h)
    ensures |t| > 0 && ']' !in t
  {
    NotInSlice(s, h.start + 1, h.hashEnd, ']');
    s[h.start + 1..h.hashEnd]
  }

  function DateText(s: string, h: Header): (t: string)
    requires IsHeaderAt(s, h)
    ensures IsDateShape(t)
  {
    s[h.hashEnd + 2..h.hashEnd + 12]
  }

  function Author(s: string, h: Header): (t: string)
    requires IsHeaderAt(s, h)
    ensures |t| > 0 && '<' !in t
  {
    NotInSlice(s, h.AuthorStart(), h.authorEnd, '<');
    s[h.AuthorStart()..h.authorEnd]
  }

  function Email(s: string, h: Header): (t: string)
    requires IsHeaderAt(s, h)
    ensures |t| > 0 && '>' !in t
  {
    NotInSlice(s, h.authorEnd + 2, h.emailEnd, '>');
    s[h.authorEnd + 2..h.emailEnd]
  }

  /** No occurrence of c between lo and hi. */
  lemma NotInSlice(s: string, lo: nat, hi: nat, c: char)
    requires lo <= hi <= |s|
    requires forall k :: lo <= k < hi ==> s[k] != c
    ensures c !in s[lo..hi]
  {
    forall j | 0 <= j < hi - lo ensures s[lo..hi][j] != c {
      assert s[lo..hi][j] == s[lo + j];
    }
  }

  /** The header match starting at i, if any: the hash runs to the first
      `]`, the author to the first `<` less the whitespace before it, the
      email to the first `>`. The match, when it exists, is unique: every
      quantifier in the pattern is forced by the character that must follow
      it. */
  function MatchHeaderAt(s: string, i: nat): (r: Option<Header>)
    requires i <= |s|
    ensures r.Some? ==> r.value.start == i && IsHeaderAt(s, r.value)
  {
    if i < |s| && s[i] == '[' then
      var hashEnd := Until(s, i + 1, ']');
      if hashEnd == i + 1 || hashEnd + 13 > |s| then None
      else
        var k := Until(s, hashEnd + 13, '<');
        if IsRegexSpace(s[hashEnd + 1]) && IsDateShape(s[hashEnd + 2..hashEnd + 12]) && s[hashEnd + 12] == '\n'
           && k < |s| && k >= hashEnd + 15 && IsRegexSpace(s[k - 1])
        then
          var e := Until(s, k + 1, '>');
          if e > k + 1 && e < |s| then
            HeaderFound(s, i, hashEnd, k, e);
            Some(Header(i, hashEnd, k - 1, e))
          else None
        else None
    else None
  }

  /** The boundaries the scanner finds delimit a declarative match. */
  lemma HeaderFound(s: string, i: nat, hashEnd: nat, k: nat, e: nat)
    requires i < |s| && s[i] == '['
    requires hashEnd == Until(s, i + 1, ']') && hashEnd > i + 1 && hashEnd + 13 <= |s|
    requires IsRegexSpace(s[hashEnd + 1]) && IsDateShape(s[hashEnd + 2..hashEnd + 12]) && s[hashEnd + 12] == '\n'
    requires k == Until(s, hashEnd + 13, '<') && k < |s| && k >= hashEnd + 15 && IsRegexSpace(s[k - 1])
    requires e == Until(s, k + 1, '>') && k + 1 < e < |s|
    ensures IsHeaderAt(s, Header(i, hashEnd, k - 1, e))
  {
  }

  /** A greedy `[^c]*` from i that must be followed by c stops at j. */
  lemma UntilIs(s: string, i: nat, c: char, j: nat)
    requires i <= j < |s| && s[j] == c
    requires forall k :: i <= k < j ==> s[k] != c
    ensures Until(s, i, c) == j
  {
  }

  /** Every declarative match at a position is the one found there. */
  lemma MatchHeaderAtComplete(s: string, h: Header)
    requires IsHeaderAt(s, h)
    ensures MatchHeaderAt(s, h.start) == Some(h)
  {
    UntilIs(s, h.start + 1, ']', h.hashEnd);
    UntilIs(s, h.AuthorStart(), '<', h.authorEnd + 1);
    UntilIs(s, h.authorEnd + 2, '>', h.emailEnd);
  }

  /** `Matcher.find` for the header from position `from`: the leftmost
      start at which the pattern matches. */
  function FindHeader(s: string, from: nat): (r: Option<Header>)
    requires from <= |s|
    ensures r.Some? ==> from <= r.value.start && IsHeaderAt(s, r.value)
  {
    match FindFirst(HeaderMatcher(s), from, |s|)
    case None => None
    case Some(j) => MatchHeaderAt(s, j)
  }

  /** MatchHeaderAt as a total function of the position. */
  function HeaderMatcher(s: string): nat -> Option<Header> {
    (j: nat) => if j <= |s| then MatchHeaderAt(s, j) else None
  }

  /** `find` returns the leftmost match, and none when there is none. */
  lemma FindHeaderLeftmost(s: string, from: nat)
    requires from <= |s|
    ensures FindHeader(s, from).Some? ==> forall j :: from <= j < FindHeader(s, from).value.start ==> MatchHeaderAt(s, j).None?
    ensures FindHeader(s, from).None? ==> forall j :: from <= j <= |s| ==> MatchHeaderAt(s, j).None?
  {
    var f := HeaderMatcher(s);
    FindFirstLeftmost(f, from, |s|);
    forall j | from <= j <= |s| ensures f(j) == MatchHeaderAt(s, j) {
    }
  }

  // ---------------------------------------------------------------------
  // Numstat line
  // ---------------------------------------------------------------------

  /** `\d+|-`. */
  predicate IsCount(t: string) {
    t == "-" || (|t| > 0 && AllDigits(t))
  }

  predicate AllSpace(t: string) {
    forall k :: 0 <= k < |t| ==> IsRegexSpace(t[k])
  }

  /** A numstat match: the boundaries of its three groups. */
  datatype Numstat = Numstat(start: nat, addedEnd: nat, removedStart: nat, removedEnd: nat, fileStart: nat, end: nat)

  /** `s` holds, from m.start to m.end: a count, one or more `\s`, a count,
      one or more `\s`, and a non-empty file text without LF that runs to a
      LF or the end of `s` (the greedy `[^\n]+`). */
  predicate IsNumstatAt(s: string, m: Numstat) {
    m.start < m.addedEnd < m.removedStart < m.removedEnd < m.fileStart < m.end <= |s|
    && IsCount(s[m.start..m.addedEnd])
    && AllSpace(s[m.addedEnd..m.removedStart])
    && IsCount(s[m.removedStart..m.removedEnd])
    && AllSpace(s[m.removedEnd..m.fileStart])
    && '\n' !in s[m.fileStart..m.end]
    && (m.end == |s| || s[m.end] == '\n')
  }

  /** Where a count starting at i ends. */
  function CountEnd(s: string, i: nat): (r: Option<nat>)
    requires i <= |s|
    ensures r.Some? ==> i < r.value <= |s| && IsCount(s[i..r.value])
    ensures r.Some? && r.value < |s| ==> !IsDigit(s[r.value]) || s[i] == '-'
    ensures r.Some? ==> s[i] == '-' ==> r.value == i + 1
  {
    if i < |s| && IsDigit(s[i]) then
      var j := DigitsEnd(s, i);
      assert AllDigits(s[i..j]) by {
        forall k | 0 <= k < j - i ensures IsDigit(s[i..j][k]) {
          assert s[i..j][k] == s[i + k];
        }
      }
      Some(j)
    else if i < |s| && s[i] == '-' then
      assert s[i..i + 1] == "-";
      Some(i + 1)
    else None
  }

  /** The last index k in [lo, hi) with s[k] != LF: where `[^\n]+` starts
      after `\s+` gives characters back. */
  function LastNotNewline(s: string, lo: nat, hi: nat): (r: Option<nat>)
    requires lo <= hi <= |s|
    decreases hi - lo
    ensures r.Some? ==> lo <= r.value < hi && s[r.value] != '\n'
    ensures r.Some? ==> forall k :: r.value < k < hi ==> s[k] == '\n'
    ensures r.None? ==> forall k :: lo <= k < hi ==> s[k] == '\n'
  {
    if lo == hi then None
    else if s[hi - 1] != '\n' then Some(hi - 1)
    else LastNotNewline(s, lo, hi - 1)
  }

  /** The numstat match starting at i, if any: greedy counts, greedy
      whitespace, and a file text that starts after the second whitespace
      run, or, when that run reaches the end of `s`, at the last non-LF
      character the run can give back. */
  function MatchNumstatAt(s: string, i: nat): (r: Option<Numstat>)
    requires i <= |s|
    ensures r.Some? ==> r.value.start == i && IsNumstatAt(s, r.value)
  {
    match CountEnd(s, i)
    case None => None
    case Some(a) =>
      var w1 := SpacesEnd(s, a);
      if w1 == a then None
      else match CountEnd(s, w1)
        case None => None
        case Some(b) =>
          var w2 := SpacesEnd(s, b);
          if w2 == b then None
          else MatchFileAt(s, i, a, w1, b, w2)
  }

  /** The file group, once both counts and both whitespace runs are known. */
  function MatchFileAt(s: string, i: nat, a: nat, w1: nat, b: nat, w2: nat): (r: Option<Numstat>)
    requires i < a < w1 < b < w2 <= |s|
    requires IsCount(s[i..a]) && IsCount(s[w1..b])
    requires forall k :: a <= k < w1 ==> IsRegexSpace(s[k])
    requires forall k :: b <= k < w2 ==> IsRegexSpace(s[k])
    requires w2 < |s| ==> !IsRegexSpace(s[w2])
    ensures r.Some? ==> r.value.start == i && IsNumstatAt(s, r.value)
    ensures r.Some? ==> r.value.fileStart < |s| && (!IsRegexSpace(s[r.value.fileStart]) || w2 == |s|)
  {
    var f := if w2 < |s| then Some(w2) else LastNotNewline(s, b + 1, w2);
    match f
    case None => None
    case Some(fs) =>
      var fe := Until(s, fs, '\n');
      SpaceSlice(s, a, w1);
      SpaceSlice(s, b, fs);
      NotInSlice(s, fs, fe, '\n');
      Some(Numstat(i, a, w1, b, fs, fe))
  }

  /** Whitespace throughout [lo, hi). */
  lemma SpaceSlice(s: string, lo: nat, hi: nat)
    requires lo <= hi <= |s|
    requires forall k :: lo <= k < hi ==> IsRegexSpace(s[k])
    ensures AllSpace(s[lo..hi])
  {
    forall j | 0 <= j < hi - lo ensures IsRegexSpace(s[lo..hi][j]) {
      assert s[lo..hi][j] == s[lo + j];
    }
  }

  /** `Matcher.find` for a numstat line from position `from`. */
  function FindNumstat(s: string, from: nat): (r: Option<Numstat>)
    requires from <= |s|
    ensures r.Some? ==> from <= r.value.start && IsNumstatAt(s, r.value)
  {
    match FindFirst(NumstatMatcher(s), from, |s|)
    case None => None
    case Some(j) => MatchNumstatAt(s, j)
  }

  /** MatchNumstatAt as a total function of the position. */
  function NumstatMatcher(s: string): nat -> Option<Numstat> {
    (j: nat) => if j <= |s| then MatchNumstatAt(s, j) else None
  }

  /** `find` returns the leftmost match, and none when there is none. */
  lemma FindNumstatLeftmost(s: string, from: nat)
    requires from <= |s|
    ensures FindNumstat(s, from).Some? ==> forall j :: from <= j < FindNumstat(s, from).value.start ==> MatchNumstatAt(s, j).None?
    ensures FindNumstat(s, from).None? ==> forall j :: from <= j <= |s| ==> MatchNumstatAt(s, j).None?
  {
    var f := NumstatMatcher(s);
    FindFirstLeftmost(f, from, |s|);
    forall j | from <= j <= |s| ensures f(j) == MatchNumstatAt(s, j) {
    }
  }

  /** `parseNumberOfLines`: `Integer.parseInt`, with 0 for `-` and for a
      digit run beyond the 32-bit range. */
  function ParseNumberOfLines(t: string): (n: int)
    ensures IsCount(t) ==> 0 <= n <= INT_MAX
    ensures IsCount(t) && t != "-" && DigitsValue(t) <= INT_MAX ==> n == DigitsValue(t)
    ensures IsCount(t) && t != "-" && DigitsValue(t) > INT_MAX ==> n == 0
    ensures t == "-" ==> n == 0
  {
    match ParseInt(t)
    case Some(v) => v
    case None => 0
  }
}

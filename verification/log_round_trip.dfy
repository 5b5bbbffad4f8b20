/** The text `git log --pretty=format:"[%h] %cd%n%an <%ae>" --date=short
    --numstat` writes for a list of commits, and the proof that the reader
    gives those commits back. Each commit is a header line, an author line
    and one numstat line per changed file (`added<TAB>deleted<TAB>path`). */
module LogRoundTrip {

  import opened Nullable
  import opened JavaLang
  import opened LogGrammar
  import opened Renames
  import opened Commits
  import opened LogParser

  // ---------------------------------------------------------------------
  // What git writes
  // ---------------------------------------------------------------------

  /** A line as the reader delivers it holds neither LF nor CR. */
  predicate NoLineBreak(t: string) {
    '\n' !in t && '\r' !in t
  }

  /** A change that one numstat line carries whole: counts in the int
      range and a one-line path with nothing `trim` removes at its ends. */
  predicate WellFormedChange(f: FileChange) {
    0 <= f.linesAdded <= INT_MAX && 0 <= f.linesDeleted <= INT_MAX
    && |f.filePath| > 0 && NoLineBreak(f.filePath)
    && !IsTrimmed(f.filePath[0]) && !IsTrimmed(f.filePath[|f.filePath| - 1])
  }

  predicate WellFormedChanges(fs: seq<FileChange>) {
    forall i :: 0 <= i < |fs| ==> WellFormedChange(fs[i])
  }

  /** The rename paths of a change are exactly those its path's notation
      names: what the reader makes of the path. */
  predicate Resolved(f: FileChange) {
    f == CheckForFilePathChange(Unrenamed(f.filePath, f.linesAdded, f.linesDeleted))
  }

  predicate ResolvedChanges(fs: seq<FileChange>) {
    forall i :: 0 <= i < |fs| ==> Resolved(fs[i])
  }

  predicate ResolvedLog(cs: seq<Commit>) {
    forall i :: 0 <= i < |cs| ==> ResolvedChanges(cs[i].changedFiles)
  }

  /** A commit the log format can carry: a hash without `]`, a short date,
      an author without `<` that does not start with `[`, an email without
      `>`, all non-empty and on one line. */
  predicate WellFormedCommit(c: Commit) {
    |c.hash| > 0 && ']' !in c.hash && NoLineBreak(c.hash)
    && IsDateShape(c.date)
    && |c.author| > 0 && '<' !in c.author && NoLineBreak(c.author) && c.author[0] != '['
    && |c.email| > 0 && '>' !in c.email && NoLineBreak(c.email)
    && WellFormedChanges(c.changedFiles)
  }

  predicate WellFormedLog(cs: seq<Commit>) {
    forall i :: 0 <= i < |cs| ==> WellFormedCommit(cs[i])
  }

  /** `[%h] %cd` */
  function HeaderLine(c: Commit): string {
    "[" + c.hash + "] " + c.date
  }

  /** `%an <%ae>` */
  function AuthorLine(c: Commit): string {
    c.author + " <" + c.email + ">"
  }

  function NumstatLine(f: FileChange): string
    requires f.linesAdded >= 0 && f.linesDeleted >= 0
  {
    NatToDigits(f.linesAdded) + "\t" + NatToDigits(f.linesDeleted) + "\t" + f.filePath
  }

  function NumstatLines(fs: seq<FileChange>): (ls: seq<string>)
    requires WellFormedChanges(fs)
    ensures |ls| == |fs|
    decreases |fs|
  {
    if |fs| == 0 then [] else [NumstatLine(fs[0])] + NumstatLines(fs[1..])
  }

  function CommitLines(c: Commit): seq<string>
    requires WellFormedCommit(c)
  {
    [HeaderLine(c), AuthorLine(c)] + NumstatLines(c.changedFiles)
  }

  /** The lines of the whole log, commit after commit. */
  function RenderLog(cs: seq<Commit>): seq<string>
    requires WellFormedLog(cs)
    decreases |cs|
  {
    if |cs| == 0 then [] else CommitLines(cs[0]) + RenderLog(cs[1..])
  }

  // ---------------------------------------------------------------------
  // Grouping the rendered lines
  // ---------------------------------------------------------------------

  /** Each line followed by LF. */
  function Text(ls: seq<string>): string
    decreases |ls|
  {
    if |ls| == 0 then "" else ls[0] + "\n" + Text(ls[1..])
  }

  /** A line that neither is skipped nor opens a block. */
  predicate BodyLine(l: string) {
    !IsBlank(l) && !OpensBlock(l)
  }

  /** The block one commit's lines form. */
  function BlockText(c: Commit): string
    requires WellFormedCommit(c)
  {
    HeaderLine(c) + "\n" + Text([AuthorLine(c)] + NumstatLines(c.changedFiles))
  }

  function Blocks(cs: seq<Commit>): (bs: seq<string>)
    requires WellFormedLog(cs)
    ensures |bs| == |cs|
  {
    seq(|cs|, i requires 0 <= i < |cs| => BlockText(cs[i]))
  }

  function Pending(cur: string): seq<string> {
    if cur == "" then [] else [cur]
  }

  lemma Assoc(a: string, b: string, c: string)
    ensures (a + b) + c == a + (b + c)
  {
  }

  /** Body lines are added to the current block one after another. */
  lemma {:induction false} Absorb(ls: seq<string>, rest: seq<string>, cur: string)
    requires cur != ""
    requires forall i :: 0 <= i < |ls| ==> BodyLine(ls[i])
    ensures Group(ls + rest, cur) == Group(rest, cur + Text(ls))
    decreases |ls|
  {
    if |ls| == 0 {
      assert ls + rest == rest;
      assert cur + Text(ls) == cur;
    } else {
      var l, tail := ls[0], ls[1..];
      assert (ls + rest)[0] == l && (ls + rest)[1..] == tail + rest;
      var next := cur + l + "\n";
      assert Group(ls + rest, cur) == Group(tail + rest, next);
      Absorb(tail, rest, next);
      Assoc(cur + l, "\n", Text(tail));
      Assoc(cur, l, "\n" + Text(tail));
      Assoc(l, "\n", Text(tail));
    }
  }

  lemma BodyLines(c: Commit, ls: seq<string>)
    requires WellFormedCommit(c) && ls == [AuthorLine(c)] + NumstatLines(c.changedFiles)
    ensures forall i :: 0 <= i < |ls| ==> BodyLine(ls[i])
  {
    forall i | 0 <= i < |ls| ensures BodyLine(ls[i]) {
      if i == 0 {
        AuthorLineIsBody(c);
      } else {
        NumstatLinesAreBody(c.changedFiles, i - 1);
      }
    }
  }

  lemma AuthorLineIsBody(c: Commit)
    requires WellFormedCommit(c)
    ensures BodyLine(AuthorLine(c))
  {
    var a := AuthorLine(c);
    assert a[|c.author| + 1] == '<';
    assert a[0] == c.author[0];
    assert a[..1] == [a[0]];
  }

  lemma {:induction false} NumstatLinesAreBody(fs: seq<FileChange>, i: nat)
    requires WellFormedChanges(fs) && i < |fs|
    ensures NumstatLines(fs)[i] == NumstatLine(fs[i]) && BodyLine(NumstatLine(fs[i]))
    decreases i
  {
    if i > 0 {
      NumstatLinesAreBody(fs[1..], i - 1);
    } else {
      var l := NumstatLine(fs[0]);
      var d := NatToDigits(fs[0].linesAdded);
      assert l[0] == d[0] && IsDigit(d[0]);
      assert l[..1] == [l[0]];
    }
  }

  /** One commit's lines close the current block, if any, and form a
      block of their own. */
  lemma GroupCommit(c: Commit, rest: seq<string>, cur: string)
    requires WellFormedCommit(c)
    ensures Group(CommitLines(c) + rest, cur) == Pending(cur) + Group(rest, BlockText(c))
  {
    var h := HeaderLine(c);
    var body := [AuthorLine(c)] + NumstatLines(c.changedFiles);
    var x := CommitLines(c) + rest;
    assert x[0] == h && x[1..] == body + rest;
    assert h[0] == '[' && h[..1] == "[";
    assert !IsBlank(h);
    BodyLines(c, body);
    Absorb(body, rest, h + "\n");
    if cur == "" {
      assert cur + h + "\n" == h + "\n";
    }
  }

  /** The rendered log groups into one block per commit. */
  lemma {:induction false} GroupAll(cs: seq<Commit>, cur: string)
    requires WellFormedLog(cs)
    ensures Group(RenderLog(cs), cur) == Pending(cur) + Blocks(cs)
    decreases |cs|
  {
    if |cs| == 0 {
      assert Pending(cur) + Blocks(cs) == Pending(cur);
    } else {
      var c := cs[0];
      var b := BlockText(c);
      GroupCommit(c, RenderLog(cs[1..]), cur);
      assert b[0] == '[';
      GroupAll(cs[1..], b);
      assert Blocks(cs) == [b] + Blocks(cs[1..]);
    }
  }

  // ---------------------------------------------------------------------
  // Reading a rendered block back
  // ---------------------------------------------------------------------

  /** The header text, up to and including `>`. */
  function HeaderText(c: Commit): string {
    HeaderLine(c) + "\n" + AuthorLine(c)
  }

  function HeaderOf(c: Commit): Header {
    var hashEnd := |c.hash| + 1;
    var authorEnd := hashEnd + 13 + |c.author|;
    Header(0, hashEnd, authorEnd, authorEnd + 2 + |c.email|)
  }

  lemma HeaderTextMatches(c: Commit)
    requires WellFormedCommit(c)
    ensures IsHeaderAt(HeaderText(c), HeaderOf(c)) && HeaderOf(c).End() == |HeaderText(c)|
  {
    var s := HeaderText(c);
    var h := HeaderOf(c);
    var hash, date, author, email := c.hash, c.date, c.author, c.email;
    assert s == "[" + hash + "] " + date + "\n" + author + " <" + email + ">";
    forall k | h.start < k < h.hashEnd ensures s[k] != ']' {
      assert s[k] == hash[k - 1];
    }
    assert s[h.hashEnd + 2..h.hashEnd + 12] == date;
    forall k | h.AuthorStart() <= k < h.authorEnd ensures s[k] != '<' {
      assert s[k] == author[k - h.AuthorStart()];
    }
    forall k | h.authorEnd + 2 <= k < h.emailEnd ensures s[k] != '>' {
      assert s[k] == email[k - h.authorEnd - 2];
    }
  }

  /** Text after a header does not disturb it. */
  lemma HeaderExtends(p: string, x: string, h: Header)
    requires IsHeaderAt(p, h)
    ensures IsHeaderAt(p + x, h)
  {
    var s := p + x;
    assert s[h.hashEnd + 2..h.hashEnd + 12] == p[h.hashEnd + 2..h.hashEnd + 12];
    forall k | 0 <= k < |p| ensures s[k] == p[k] {
    }
  }

  /** The groups of a rendered header are the commit's fields. */
  lemma HeaderGroups(c: Commit, x: string, s: string, h: Header)
    requires WellFormedCommit(c) && s == HeaderText(c) + x && h == HeaderOf(c)
    ensures IsHeaderAt(s, h) && Hash(s, h) == c.hash && DateText(s, h) == c.date
    ensures Author(s, h) == c.author && Email(s, h) == c.email && s[h.End()..] == x
  {
    var t := HeaderText(c);
    HeaderTextMatches(c);
    HeaderFields(c, t, h);
    GroupsKept(t, x, s, h, c.hash, c.date, c.author, c.email);
  }

  /** A header's groups stay as they are when text follows it. */
  lemma GroupsKept(t: string, x: string, s: string, h: Header, hash: string, date: string, author: string, email: string)
    requires s == t + x && IsHeaderAt(t, h) && h.End() == |t|
    requires t[h.start + 1..h.hashEnd] == hash && t[h.hashEnd + 2..h.hashEnd + 12] == date
    requires t[h.AuthorStart()..h.authorEnd] == author && t[h.authorEnd + 2..h.emailEnd] == email
    ensures IsHeaderAt(s, h) && Hash(s, h) == hash && DateText(s, h) == date
    ensures Author(s, h) == author && Email(s, h) == email && s[h.End()..] == x
  {
    HeaderExtends(t, x, h);
    PrefixSlice(t, x, s, h.start + 1, h.hashEnd, hash);
    PrefixSlice(t, x, s, h.hashEnd + 2, h.hashEnd + 12, date);
    PrefixSlice(t, x, s, h.AuthorStart(), h.authorEnd, author);
    PrefixSlice(t, x, s, h.authorEnd + 2, h.emailEnd, email);
    assert s[|t|..] == x;
  }

  /** Where the fields sit in a rendered header. */
  lemma HeaderFields(c: Commit, t: string, h: Header)
    requires WellFormedCommit(c) && t == HeaderText(c) && h == HeaderOf(c)
    ensures h.emailEnd < |t|
    ensures t[h.start + 1..h.hashEnd] == c.hash && t[h.hashEnd + 2..h.hashEnd + 12] == c.date
    ensures t[h.AuthorStart()..h.authorEnd] == c.author && t[h.authorEnd + 2..h.emailEnd] == c.email
  {
    assert t == "[" + c.hash + "] " + c.date + "\n" + c.author + " <" + c.email + ">";
  }

  lemma PrefixSlice(t: string, x: string, s: string, i: nat, j: nat, v: string)
    requires s == t + x && i <= j <= |t| && t[i..j] == v
    ensures s[i..j] == v
  {
  }

  /** A rendered block is its header text followed by LF and the numstat
      lines. */
  lemma BlockTextSplit(c: Commit)
    requires WellFormedCommit(c)
    ensures BlockText(c) == HeaderText(c) + ("\n" + Text(NumstatLines(c.changedFiles)))
  {
    var h, a, t := HeaderLine(c), AuthorLine(c), Text(NumstatLines(c.changedFiles));
    var ls := [a] + NumstatLines(c.changedFiles);
    assert ls[0] == a && ls[1..] == NumstatLines(c.changedFiles);
    assert Text(ls) == a + "\n" + t;
    Assoc(a, "\n", t);
    Assoc(h + "\n", a, "\n" + t);
  }

  /** The header of a rendered block is found at its start. */
  lemma FindHeaderAtStart(s: string, h: Header)
    requires IsHeaderAt(s, h) && h.start == 0
    ensures FindHeader(s, 0) == Some(h)
  {
    MatchHeaderAtComplete(s, h);
    assert HeaderMatcher(s)(0) == Some(h);
  }

  /** A rendered block reads back as its commit. */
  lemma ParseBlockRoundTrip(c: Commit)
    requires WellFormedCommit(c) && ResolvedChanges(c.changedFiles)
    ensures ParseBlock(BlockText(c)) == Some(c)
  {
    var x := "\n" + Text(NumstatLines(c.changedFiles));
    BlockTextSplit(c);
    var s := BlockText(c);
    var h := HeaderOf(c);
    HeaderGroups(c, x, s, h);
    FindHeaderAtStart(s, h);
    FilesRoundTrip(c.changedFiles);
  }

  // ---------------------------------------------------------------------
  // The numstat lines
  // ---------------------------------------------------------------------

  /** The numstat lines separated by LF. */
  function Join(ls: seq<string>): string
    requires |ls| > 0
    decreases |ls|
  {
    if |ls| == 1 then ls[0] else ls[0] + "\n" + Join(ls[1..])
  }

  lemma {:induction false} TextJoin(ls: seq<string>)
    requires |ls| > 0
    ensures Text(ls) == Join(ls) + "\n"
    decreases |ls|
  {
    if |ls| > 1 {
      TextJoin(ls[1..]);
      Assoc(ls[0] + "\n", Join(ls[1..]), "\n");
    }
  }

  /** The ends of the joined numstat lines: a digit, and the last path's
      last character. */
  lemma {:induction false} JoinEnds(fs: seq<FileChange>)
    requires |fs| > 0 && WellFormedChanges(fs)
    ensures var j := Join(NumstatLines(fs));
            |j| > 0 && IsDigit(j[0]) && j[|j| - 1] == fs[|fs| - 1].filePath[|fs[|fs| - 1].filePath| - 1]
    decreases |fs|
  {
    var ls := NumstatLines(fs);
    var l := NumstatLine(fs[0]);
    assert ls[0] == l && ls[1..] == NumstatLines(fs[1..]);
    var d := NatToDigits(fs[0].linesAdded);
    assert l[0] == d[0];
    if |fs| > 1 {
      JoinEnds(fs[1..]);
      assert fs[1..][|fs| - 2] == fs[|fs| - 1];
    } else {
      var p := fs[0].filePath;
      assert l[|l| - 1] == p[|p| - 1];
    }
  }

  /** `trim` drops exactly the surrounding characters at or below U+0020. */
  lemma TrimBetween(x: string, j: string, y: string)
    requires forall k :: 0 <= k < |x| ==> IsTrimmed(x[k])
    requires forall k :: 0 <= k < |y| ==> IsTrimmed(y[k])
    requires |j| > 0 && !IsTrimmed(j[0]) && !IsTrimmed(j[|j| - 1])
    ensures Trim(x + j + y) == j
  {
    var s := x + j + y;
    var a, b := |x|, |x| + |j|;
    forall k | 0 <= k < a ensures IsTrimmed(s[k]) {
      assert s[k] == x[k];
    }
    forall k | b <= k < |s| ensures IsTrimmed(s[k]) {
      assert s[k] == y[k - b];
    }
    assert s[a] == j[0] && s[b - 1] == j[|j| - 1];
    TrimLoIs(s, 0, a);
    TrimHiIs(s, a, |s|, b);
    TrimSlice(s);
    assert s[a..b] == j;
  }

  lemma {:induction false} TrimLoIs(s: string, i: nat, a: nat)
    requires i <= a < |s| && !IsTrimmed(s[a])
    requires forall k :: i <= k < a ==> IsTrimmed(s[k])
    ensures TrimLo(s, i) == a
    decreases a - i
  {
    if i < a {
      TrimLoIs(s, i + 1, a);
    }
  }

  lemma {:induction false} TrimHiIs(s: string, lo: nat, j: nat, b: nat)
    requires lo < b <= j <= |s| && !IsTrimmed(s[b - 1])
    requires forall k :: b <= k < j ==> IsTrimmed(s[k])
    ensures TrimHi(s, lo, j) == b
    decreases j - b
  {
    if b < j {
      TrimHiIs(s, lo, j - 1, b);
    }
  }

  /** The files part of a rendered block reads back as the changes. */
  lemma FilesRoundTrip(fs: seq<FileChange>)
    requires WellFormedChanges(fs) && ResolvedChanges(fs)
    ensures ParseFileChanges(Trim("\n" + Text(NumstatLines(fs)))) == fs
  {
    var ls := NumstatLines(fs);
    if |fs| == 0 {
      assert "\n" + Text(ls) == "\n";
      assert Trim("\n") == [] by {
        assert IsTrimmed("\n"[0]);
      }
    } else {
      var j := Join(ls);
      TrimJoined(fs);
      assert j[0..] == j;
      NumstatRun(j, 0, fs);
      ChangesRead(j, fs);
    }
  }

  /** Each match of a rendered line converts back to its change. */
  lemma ChangesRead(s: string, fs: seq<FileChange>)
    requires WellFormedChanges(fs) && ResolvedChanges(fs)
    requires |s| > 0 && AllRead(s, NumstatMatches(s, 0), fs)
    ensures FileChangesFrom(s, 0) == fs
  {
    var ms := NumstatMatches(s, 0);
    forall i | 0 <= i < |fs| ensures FileChangesFrom(s, 0)[i] == fs[i] {
      ReadBack(s, ms[i], fs[i]);
      assert Resolved(fs[i]);
    }
  }

  /** The trimmed files part is the numstat lines joined by LF. */
  lemma TrimJoined(fs: seq<FileChange>)
    requires |fs| > 0 && WellFormedChanges(fs)
    ensures var j := Join(NumstatLines(fs));
            Trim("\n" + Text(NumstatLines(fs))) == j && !IsBlank(j)
  {
    var ls := NumstatLines(fs);
    var j := Join(ls);
    JoinEnds(fs);
    Wrapped(ls);
    TrimBetween("\n", j, "\n");
    DigitNotBlank(j);
  }

  lemma Wrapped(ls: seq<string>)
    requires |ls| > 0
    ensures "\n" + Text(ls) == "\n" + Join(ls) + "\n"
  {
    TextJoin(ls);
    Assoc("\n", Join(ls), "\n");
  }

  lemma DigitNotBlank(t: string)
    requires |t| > 0 && IsDigit(t[0])
    ensures !IsBlank(t)
  {
    assert !IsJavaWhitespace(t[0]);
  }

  /** A match whose groups hold the rendering of a change. */
  predicate ReadsAs(s: string, m: Numstat, f: FileChange) {
    IsNumstatAt(s, m) && f.linesAdded >= 0 && f.linesDeleted >= 0
    && s[m.start..m.addedEnd] == NatToDigits(f.linesAdded)
    && s[m.removedStart..m.removedEnd] == NatToDigits(f.linesDeleted)
    && s[m.fileStart..m.end] == f.filePath
  }

  /** Matches that read, one by one, as the changes. */
  predicate AllRead(s: string, ms: seq<Numstat>, fs: seq<FileChange>) {
    |ms| == |fs| && forall i :: 0 <= i < |fs| ==> ReadsAs(s, ms[i], fs[i])
  }

  /** The line-by-line matching of the joined numstat lines from p: one
      match per line, in order. */
  lemma {:induction false} NumstatRun(s: string, p: nat, fs: seq<FileChange>)
    requires |fs| > 0 && WellFormedChanges(fs)
    requires p <= |s| && s[p..] == Join(NumstatLines(fs))
    ensures AllRead(s, NumstatMatches(s, p), fs)
    decreases |fs|
  {
    if |fs| == 1 {
      LastLine(s, p, fs);
    } else {
      var e := NextLine(s, p, fs);
      NumstatRun(s, e + 1, fs[1..]);
    }
  }

  /** A single line's match is all there is. */
  lemma LastLine(s: string, p: nat, fs: seq<FileChange>)
    requires |fs| == 1 && WellFormedChanges(fs)
    requires p <= |s| && s[p..] == Join(NumstatLines(fs))
    ensures AllRead(s, NumstatMatches(s, p), fs)
  {
    var e := p + |NumstatLine(fs[0])|;
    LastLineText(s, p, fs, e);
    var m := LineAt(s, p, fs[0], e);
    LastRead(s, p, m, fs);
  }

  /** Where the lines after the first start, and what reading them gives. */
  lemma NextLine(s: string, p: nat, fs: seq<FileChange>) returns (e: nat)
    requires |fs| > 1 && WellFormedChanges(fs)
    requires p <= |s| && s[p..] == Join(NumstatLines(fs))
    ensures e < |s| && s[e + 1..] == Join(NumstatLines(fs[1..])) && WellFormedChanges(fs[1..])
    ensures AllRead(s, NumstatMatches(s, e + 1), fs[1..]) ==> AllRead(s, NumstatMatches(s, p), fs)
  {
    var m;
    e, m := FirstLine(s, p, fs);
    if AllRead(s, NumstatMatches(s, e + 1), fs[1..]) {
      NextRead(s, p, m, e, fs);
    }
  }

  /** The first of several lines: its match, and the LF after it. */
  lemma FirstLine(s: string, p: nat, fs: seq<FileChange>) returns (e: nat, m: Numstat)
    requires |fs| > 1 && WellFormedChanges(fs)
    requires p <= |s| && s[p..] == Join(NumstatLines(fs))
    ensures e < |s| && s[e] == '\n' && s[e + 1..] == Join(NumstatLines(fs[1..]))
    ensures FindNumstat(s, p) == Some(m) && m.end == e && ReadsAs(s, m, fs[0])
  {
    e := p + |NumstatLine(fs[0])|;
    FirstLineText(s, p, fs, e);
    m := LineAt(s, p, fs[0], e);
  }

  /** The search from a numstat line's start finds that line. */
  lemma LineAt(s: string, p: nat, f: FileChange, e: nat) returns (m: Numstat)
    requires WellFormedChange(f)
    requires e == p + |NumstatLine(f)| && e <= |s| && s[p..e] == NumstatLine(f)
    requires e == |s| || s[e] == '\n'
    ensures FindNumstat(s, p) == Some(m) && m.end == e && ReadsAs(s, m, f)
  {
    m := LineMatch(s, p, f);
    FindAt(s, m);
  }

  /** The last line's match is the last one. */
  lemma LastRead(s: string, p: nat, m: Numstat, fs: seq<FileChange>)
    requires |fs| == 1 && p <= |s| && FindNumstat(s, p) == Some(m) && m.end == |s|
    requires ReadsAs(s, m, fs[0])
    ensures AllRead(s, NumstatMatches(s, p), fs)
  {
    MatchesStep(s, p, m);
    MatchesAtEnd(s);
  }

  /** A line's match, then the matches after its LF. */
  lemma NextRead(s: string, p: nat, m: Numstat, e: nat, fs: seq<FileChange>)
    requires |fs| > 1 && p <= |s| && FindNumstat(s, p) == Some(m)
    requires m.end == e && e < |s| && s[e] == '\n'
    requires ReadsAs(s, m, fs[0]) && AllRead(s, NumstatMatches(s, e + 1), fs[1..])
    ensures AllRead(s, NumstatMatches(s, p), fs)
  {
    MatchesStep(s, p, m);
    MatchesSkip(s, e);
    ConsReads(s, m, NumstatMatches(s, e + 1), fs);
  }

  lemma ConsReads(s: string, m: Numstat, ms: seq<Numstat>, fs: seq<FileChange>)
    requires |fs| > 0 && ReadsAs(s, m, fs[0]) && AllRead(s, ms, fs[1..])
    ensures AllRead(s, [m] + ms, fs)
  {
    forall i | 0 < i < |fs| ensures ReadsAs(s, ([m] + ms)[i], fs[i]) {
      assert ([m] + ms)[i] == ms[i - 1] && fs[i] == fs[1..][i - 1];
    }
  }

  /** The only numstat line runs to the end. */
  lemma LastLineText(s: string, p: nat, fs: seq<FileChange>, e: nat)
    requires |fs| == 1 && WellFormedChanges(fs)
    requires p <= |s| && s[p..] == Join(NumstatLines(fs))
    requires e == p + |NumstatLine(fs[0])|
    ensures e == |s| && s[p..e] == NumstatLine(fs[0])
  {
    JoinFirst(fs);
  }

  /** A numstat line followed by LF and the others. */
  lemma FirstLineText(s: string, p: nat, fs: seq<FileChange>, e: nat)
    requires |fs| > 1 && WellFormedChanges(fs)
    requires p <= |s| && s[p..] == Join(NumstatLines(fs))
    requires e == p + |NumstatLine(fs[0])|
    ensures e < |s| && s[p..e] == NumstatLine(fs[0]) && s[e] == '\n'
    ensures s[e + 1..] == Join(NumstatLines(fs[1..]))
  {
    JoinFirst(fs);
    SuffixSplit(s, p, NumstatLine(fs[0]), Join(NumstatLines(fs[1..])));
  }

  /** The first numstat line, and the lines after it. */
  lemma JoinFirst(fs: seq<FileChange>)
    requires |fs| > 0 && WellFormedChanges(fs)
    ensures |fs| == 1 ==> Join(NumstatLines(fs)) == NumstatLine(fs[0])
    ensures |fs| > 1 ==> Join(NumstatLines(fs)) == NumstatLine(fs[0]) + "\n" + Join(NumstatLines(fs[1..]))
  {
    var ls := NumstatLines(fs);
    assert ls[0] == NumstatLine(fs[0]) && ls[1..] == NumstatLines(fs[1..]);
  }

  /** One turn of the matching loop. */
  lemma MatchesStep(s: string, p: nat, m: Numstat)
    requires p <= |s| && FindNumstat(s, p) == Some(m)
    ensures NumstatMatches(s, p) == [m] + NumstatMatches(s, m.end)
  {
  }

  /** A suffix that is a line, LF and more, cut into its parts. */
  lemma SuffixSplit(s: string, p: nat, l: string, more: string)
    requires p <= |s| && s[p..] == l + "\n" + more
    ensures p + |l| < |s| && s[p..p + |l|] == l && s[p + |l|] == '\n' && s[p + |l| + 1..] == more
  {
    assert s[p..p + |l|] == s[p..][..|l|];
    assert s[p + |l|] == s[p..][|l|];
    assert s[p + |l| + 1..] == s[p..][|l| + 1..];
  }

  lemma MatchesAtEnd(s: string)
    ensures NumstatMatches(s, |s|) == []
  {
    assert NumstatMatcher(s)(|s|).None?;
  }

  /** A LF where a search starts is stepped over. */
  lemma MatchesSkip(s: string, q: nat)
    requires q < |s| && s[q] == '\n'
    ensures NumstatMatches(s, q) == NumstatMatches(s, q + 1)
  {
    assert NumstatMatcher(s)(q).None?;
    assert FindNumstat(s, q) == FindNumstat(s, q + 1);
  }

  /** One numstat line at p, followed by LF or the end, is matched whole. */
  lemma LineMatch(s: string, p: nat, f: FileChange) returns (m: Numstat)
    requires WellFormedChange(f)
    requires p + |NumstatLine(f)| <= |s| && s[p..p + |NumstatLine(f)|] == NumstatLine(f)
    requires p + |NumstatLine(f)| == |s| || s[p + |NumstatLine(f)|] == '\n'
    ensures m.start == p && m.end == p + |NumstatLine(f)| && MatchNumstatAt(s, p) == Some(m)
    ensures ReadsAs(s, m, f)
  {
    var added, deleted, path := NatToDigits(f.linesAdded), NatToDigits(f.linesDeleted), f.filePath;
    var e := p + |NumstatLine(f)|;
    var a := p + |added|;
    var b := a + 1 + |deleted|;
    m := Numstat(p, a, a + 1, b, b + 1, e);
    LineCuts(s, p, e, added, deleted, path);
    LineShape(s, m, added, deleted, path);
    MatchLine(s, m);
  }

  /** The characters a numstat line's parts put in place. */
  lemma LineShape(s: string, m: Numstat, added: string, deleted: string, path: string)
    requires m.addedEnd == m.start + |added| && m.removedStart == m.addedEnd + 1
    requires m.removedEnd == m.removedStart + |deleted| && m.fileStart == m.removedEnd + 1
    requires m.end == m.fileStart + |path| && m.end <= |s|
    requires |added| > 0 && AllDigits(added) && |deleted| > 0 && AllDigits(deleted)
    requires |path| > 0 && !IsTrimmed(path[0]) && '\n' !in path
    requires s[m.start..m.addedEnd] == added && s[m.removedStart..m.removedEnd] == deleted
    requires s[m.fileStart..m.end] == path
    ensures forall k :: m.start <= k < m.addedEnd ==> IsDigit(s[k])
    ensures forall k :: m.removedStart <= k < m.removedEnd ==> IsDigit(s[k])
    ensures !IsRegexSpace(s[m.fileStart])
    ensures forall k :: m.fileStart <= k < m.end ==> s[k] != '\n'
  {
    DigitsOf(s, m.start, m.addedEnd);
    DigitsOf(s, m.removedStart, m.removedEnd);
    assert s[m.fileStart] == path[0];
    forall k | m.fileStart <= k < m.end ensures s[k] != '\n' {
      assert s[k] == path[k - m.fileStart];
    }
  }

  /** The four parts of a numstat line's text. */
  lemma LineCuts(s: string, p: nat, e: nat, added: string, deleted: string, path: string)
    requires p <= e <= |s| && s[p..e] == added + "\t" + deleted + "\t" + path
    ensures var a := p + |added|; var b := a + 1 + |deleted|;
            b < e && s[p..a] == added && s[a] == '\t' && s[a + 1..b] == deleted && s[b] == '\t'
            && s[b + 1..e] == path
  {
    var a := p + |added|;
    var b := a + 1 + |deleted|;
    Cut(s, p, e, added + "\t" + deleted + "\t", path);
    Cut(s, p, b + 1, added + "\t" + deleted, "\t");
    Cut(s, p, b, added + "\t", deleted);
    Cut(s, p, a + 1, added, "\t");
    assert s[a] == s[a..a + 1][0];
    assert s[b] == s[b..b + 1][0];
  }

  lemma Cut(s: string, p: nat, e: nat, u: string, v: string)
    requires p <= e <= |s| && s[p..e] == u + v
    ensures s[p..p + |u|] == u && s[p + |u|..e] == v
  {
    assert s[p..p + |u|] == s[p..e][..|u|];
    assert s[p + |u|..e] == s[p..e][|u|..];
  }

  lemma DigitsOf(s: string, i: nat, j: nat)
    requires i <= j <= |s| && AllDigits(s[i..j])
    ensures forall k :: i <= k < j ==> IsDigit(s[k])
  {
    forall k | i <= k < j ensures IsDigit(s[k]) {
      assert s[k] == s[i..j][k - i];
    }
  }

  /** The scanner's match over a count, a tab, a count, a tab and a file
      text. */
  lemma MatchLine(s: string, m: Numstat)
    requires m.start < m.addedEnd && m.removedStart == m.addedEnd + 1 && m.removedStart < m.removedEnd
    requires m.fileStart == m.removedEnd + 1 && m.fileStart < m.end <= |s|
    requires forall k :: m.start <= k < m.addedEnd ==> IsDigit(s[k])
    requires forall k :: m.removedStart <= k < m.removedEnd ==> IsDigit(s[k])
    requires s[m.addedEnd] == '\t' && s[m.removedEnd] == '\t' && !IsRegexSpace(s[m.fileStart])
    requires forall k :: m.fileStart <= k < m.end ==> s[k] != '\n'
    requires m.end == |s| || s[m.end] == '\n'
    ensures MatchNumstatAt(s, m.start) == Some(m)
  {
    DigitsEndIs(s, m.start, m.addedEnd);
    DigitsEndIs(s, m.removedStart, m.removedEnd);
    assert CountEnd(s, m.start) == Some(m.addedEnd);
    assert SpacesEnd(s, m.addedEnd) == m.removedStart;
    assert CountEnd(s, m.removedStart) == Some(m.removedEnd);
    assert SpacesEnd(s, m.removedEnd) == m.fileStart;
    assert Until(s, m.fileStart, '\n') == m.end;
  }

  /** A greedy `\d*` over a digit run stops where the run does. */
  lemma {:induction false} DigitsEndIs(s: string, i: nat, j: nat)
    requires i <= j < |s| && !IsDigit(s[j])
    requires forall k :: i <= k < j ==> IsDigit(s[k])
    ensures DigitsEnd(s, i) == j
    decreases j - i
  {
    if i < j {
      DigitsEndIs(s, i + 1, j);
    }
  }

  /** A match at the search start is the one found. */
  lemma FindAt(s: string, m: Numstat)
    requires m.start <= |s| && MatchNumstatAt(s, m.start) == Some(m)
    ensures FindNumstat(s, m.start) == Some(m)
  {
    assert NumstatMatcher(s)(m.start) == Some(m);
  }

  /** The groups of a rendered numstat line give back its change. */
  lemma ReadBack(s: string, m: Numstat, f: FileChange)
    requires IsNumstatAt(s, m) && WellFormedChange(f)
    requires s[m.start..m.addedEnd] == NatToDigits(f.linesAdded)
    requires s[m.removedStart..m.removedEnd] == NatToDigits(f.linesDeleted)
    requires s[m.fileStart..m.end] == f.filePath
    ensures ToFileChange(s, m) == CheckForFilePathChange(Unrenamed(f.filePath, f.linesAdded, f.linesDeleted))
  {
    TrimKeeps(f.filePath);
    ParseIntRoundTrip(f.linesAdded);
    ParseIntRoundTrip(f.linesDeleted);
  }

  // ---------------------------------------------------------------------
  // The whole log
  // ---------------------------------------------------------------------

  lemma {:induction false} CommitsOfBlocks(cs: seq<Commit>)
    requires WellFormedLog(cs) && ResolvedLog(cs)
    ensures CommitsOf(Blocks(cs)) == cs
    decreases |cs|
  {
    if |cs| > 0 {
      var b, rest := BlockText(cs[0]), Blocks(cs[1..]);
      BlocksCons(cs);
      CommitsOfCons(b, rest);
      ParseBlockRoundTrip(cs[0]);
      CommitsOfBlocks(cs[1..]);
      assert cs == [cs[0]] + cs[1..];
    }
  }

  lemma BlocksCons(cs: seq<Commit>)
    requires WellFormedLog(cs) && |cs| > 0
    ensures Blocks(cs) == [BlockText(cs[0])] + Blocks(cs[1..])
  {
  }

  lemma BlocksPrefix(cs: seq<Commit>, k: nat)
    requires WellFormedLog(cs) && ResolvedLog(cs) && k <= |cs|
    ensures WellFormedLog(cs[..k]) && ResolvedLog(cs[..k]) && Blocks(cs)[..k] == Blocks(cs[..k])
  {
  }

  /** The first k blocks read back as the first k commits. */
  lemma CommitsOfPrefix(cs: seq<Commit>, k: nat)
    requires WellFormedLog(cs) && ResolvedLog(cs) && k <= |cs|
    ensures CommitsOf(Blocks(cs)[..k]) == cs[..k]
  {
    BlocksPrefix(cs, k);
    CommitsOfBlocks(cs[..k]);
  }

  /** The reader gives back every commit of a log git wrote, in order. */
  lemma ParseLogRoundTrip(cs: seq<Commit>)
    requires WellFormedLog(cs) && ResolvedLog(cs)
    ensures ParseLog(LogSource(RenderLog(cs), false)) == cs
  {
    GroupRendered(cs);
    CommitsOfBlocks(cs);
  }

  /** When reading fails after the last line, the last commit is lost and
      every other one is still given back. */
  lemma ParseLogLosesLast(cs: seq<Commit>)
    requires WellFormedLog(cs) && ResolvedLog(cs) && |cs| > 0
    ensures ParseLog(LogSource(RenderLog(cs), true)) == cs[..|cs| - 1]
  {
    GroupRendered(cs);
    LastBlockDropped(cs, Group(RenderLog(cs), ""));
  }

  /** The rendered log groups into one block per commit. */
  lemma GroupRendered(cs: seq<Commit>)
    requires WellFormedLog(cs)
    ensures Group(RenderLog(cs), "") == Blocks(cs)
  {
    GroupAll(cs, "");
  }

  lemma LastBlockDropped(cs: seq<Commit>, bs: seq<string>)
    requires WellFormedLog(cs) && ResolvedLog(cs) && |cs| > 0 && bs == Blocks(cs)
    ensures CommitsOf(CompleteBlocks(bs, true)) == cs[..|cs| - 1]
  {
    assert CompleteBlocks(bs, true) == bs[..|cs| - 1];
    CommitsOfPrefix(cs, |cs| - 1);
  }

  /** The same for the lazy iterator. */
  lemma IteratorRoundTrip(cs: seq<Commit>)
    requires WellFormedLog(cs) && ResolvedLog(cs)
    ensures Drain(Open(LogSource(RenderLog(cs), false))) == cs
  {
    IteratorYieldsParseLog(LogSource(RenderLog(cs), false));
    ParseLogRoundTrip(cs);
  }
}

/** `LogParser`: the text of `git log --numstat` read line by line into
    commits. Non-blank lines are gathered into blocks, a `[`-line opening a
    new block; each block is parsed on its own, and a block without a
    header yields no commit. The lazy iterator is modelled as a state record
    and is proved to produce exactly the commits of the block-by-block
    reading. */
module LogParser {

  import opened Nullable
  import opened JavaLang
  import opened LogGrammar
  import opened Renames
  import opened Commits

  // ---------------------------------------------------------------------
  // parseFileChanges / parseBlock
  // ---------------------------------------------------------------------

  /** One numstat match as a change: the file group trimmed, both counts
      read by `parseNumberOfLines`, and the rename notation resolved. */
  function ToFileChange(s: string, m: Numstat): (f: FileChange)
    requires IsNumstatAt(s, m)
    ensures f.filePath == Trim(s[m.fileStart..m.end])
    ensures f.linesAdded == ParseNumberOfLines(s[m.start..m.addedEnd])
    ensures f.linesDeleted == ParseNumberOfLines(s[m.removedStart..m.removedEnd])
    ensures 0 <= f.linesAdded <= INT_MAX && 0 <= f.linesDeleted <= INT_MAX
  {
    var added := ParseNumberOfLines(s[m.start..m.addedEnd]);
    var deleted := ParseNumberOfLines(s[m.removedStart..m.removedEnd]);
    CheckForFilePathChange(Unrenamed(Trim(s[m.fileStart..m.end]), added, deleted))
  }

  /** The matches the `while (matcher.find())` loop visits from `from`:
      each search starts where the previous match ended. */
  function NumstatMatches(s: string, from: nat): (ms: seq<Numstat>)
    requires from <= |s|
    decreases |s| - from
    ensures forall i :: 0 <= i < |ms| ==> IsNumstatAt(s, ms[i]) && from <= ms[i].start
  {
    match FindNumstat(s, from)
    case None => []
    case Some(m) => [m] + NumstatMatches(s, m.end)
  }

  /** Matches that do not overlap and come in text order. */
  predicate InOrder(ms: seq<Numstat>) {
    forall i, j :: 0 <= i < j < |ms| ==> ms[i].end <= ms[j].start
  }

  /** The loop's matches do not overlap and come in text order. */
  lemma {:induction false} MatchesInOrder(s: string, from: nat)
    requires from <= |s|
    ensures InOrder(NumstatMatches(s, from))
    decreases |s| - from
  {
    match FindNumstat(s, from)
    case None =>
    case Some(m) =>
      MatchesInOrder(s, m.end);
      ConsInOrder(m, NumstatMatches(s, m.end));
  }

  lemma ConsInOrder(m: Numstat, rest: seq<Numstat>)
    requires forall i :: 0 <= i < |rest| ==> m.end <= rest[i].start
    requires InOrder(rest)
    ensures InOrder([m] + rest)
  {
    var ms := [m] + rest;
    forall i, j | 0 <= i < j < |ms| ensures ms[i].end <= ms[j].start {
      assert ms[j] == rest[j - 1];
      if i > 0 {
        assert ms[i] == rest[i - 1];
      }
    }
  }

  /** The loop's body applied to each match in turn. */
  function FileChangesFrom(s: string, from: nat): (r: seq<FileChange>)
    requires from <= |s|
    ensures |r| == |NumstatMatches(s, from)|
    ensures forall i :: 0 <= i < |r| ==> r[i] == ToFileChange(s, NumstatMatches(s, from)[i])
    ensures NonNegativeCounts(r)
  {
    var ms := NumstatMatches(s, from);
    seq(|ms|, i requires 0 <= i < |ms| => ToFileChange(s, ms[i]))
  }

  /** `parseFileChanges`. */
  function ParseFileChanges(filesBlock: string): (r: seq<FileChange>)
    ensures NonNegativeCounts(r)
    ensures IsBlank(filesBlock) ==> r == []
  {
    if IsBlank(filesBlock) then [] else FileChangesFrom(filesBlock, 0)
  }

  /** `parseBlock`: the first header match anywhere in the block, and the
      numstat lines of the trimmed text after it. */
  function ParseBlock(block: string): (r: Option<Commit>)
    ensures r.Some? ==> IsDateShape(r.value.date) && NonNegativeCounts(r.value.changedFiles)
    ensures r.Some? ==> |r.value.hash| > 0 && ']' !in r.value.hash
    ensures r.Some? ==> |r.value.author| > 0 && '<' !in r.value.author
    ensures r.Some? ==> |r.value.email| > 0 && '>' !in r.value.email
  {
    match FindHeader(block, 0)
    case None => None
    case Some(h) =>
      var files := ParseFileChanges(Trim(block[h.End()..]));
      Some(Commit(Hash(block, h), DateText(block, h), Author(block, h), Email(block, h), files))
  }

  /** A block yields no commit exactly when no header matches anywhere in
      it. */
  lemma ParseBlockNone(block: string)
    ensures ParseBlock(block).None? <==> forall j :: 0 <= j <= |block| ==> MatchHeaderAt(block, j).None?
  {
    FindHeaderLeftmost(block, 0);
  }

  // ---------------------------------------------------------------------
  // Blocks
  // ---------------------------------------------------------------------

  /** The log as the reader delivers it: its lines, and whether reading
      past the last one fails with an I/O error instead of reaching the end
      of the file. */
  datatype LogSource = LogSource(lines: seq<string>, failsAtEnd: bool)

  /** A line opening a new block. */
  predicate OpensBlock(line: string) {
    StartsWith(line, "[")
  }

  /** The blocks the reader gathers from `lines` when `cur` has been
      gathered so far: blank lines are skipped, each line is added with a
      trailing LF, and a `[`-line closes a non-empty current block. */
  function Group(lines: seq<string>, cur: string): (bs: seq<string>)
    decreases |lines|
    ensures cur != "" ==> |bs| > 0
    ensures forall k :: 0 <= k < |bs| ==> bs[k] != ""
  {
    if |lines| == 0 then (if cur == "" then [] else [cur])
    else
      var line := lines[0];
      if IsBlank(line) then Group(lines[1..], cur)
      else if OpensBlock(line) && cur != "" then
        var rest := Group(lines[1..], line + "\n");
        assert forall k :: 1 <= k < |[cur] + rest| ==> ([cur] + rest)[k] == rest[k - 1];
        [cur] + rest
      else Group(lines[1..], cur + line + "\n")
  }

  /** The blocks that get parsed: an I/O error loses the block pending at
      the time. */
  function CompleteBlocks(bs: seq<string>, failsAtEnd: bool): (r: seq<string>)
    ensures |r| <= |bs|
  {
    if failsAtEnd && |bs| > 0 then bs[..|bs| - 1] else bs
  }

  /** The commits of a run of blocks, in order, skipping blocks without a
      header. */
  function CommitsOf(bs: seq<string>): (cs: seq<Commit>)
    decreases |bs|
    ensures |cs| <= |bs|
  {
    if |bs| == 0 then []
    else
      match ParseBlock(bs[0])
      case Some(c) => [c] + CommitsOf(bs[1..])
      case None => CommitsOf(bs[1..])
  }

  /** The commits of a whole log, read block by block. */
  function ParseLog(src: LogSource): (r: seq<Commit>)
    ensures |r| <= |Group(src.lines, "")|
  {
    CommitsOf(CompleteBlocks(Group(src.lines, ""), src.failsAtEnd))
  }

  // ---------------------------------------------------------------------
  // CommitIterator
  // ---------------------------------------------------------------------

  /** The iterator's fields: the unread lines (the reader), the block being
      gathered, the cached commit and the two flags. */
  datatype CommitIterator = CommitIterator(
    rest: seq<string>,
    failsAtEnd: bool,
    block: string,
    nextCommit: Option<Commit>,
    hasNextCached: bool,
    closed: bool)

  /** A cached commit is present whenever `hasNext` says so. */
  predicate Consistent(it: CommitIterator) {
    it.hasNextCached ==> it.nextCommit.Some?
  }

  /** `close`: a second call changes nothing. */
  function Close(it: CommitIterator): (r: CommitIterator)
    ensures r.closed
    ensures r.rest == it.rest && r.block == it.block && r.nextCommit == it.nextCommit
            && r.hasNextCached == it.hasNextCached
  {
    if it.closed then it else it.(closed := true)
  }

  lemma CloseIdempotent(it: CommitIterator)
    ensures Close(Close(it)) == Close(it)
    ensures it.closed ==> Close(it) == it
  {
  }

  /** `cacheNextCommit`: on a closed iterator there is nothing more;
      otherwise lines are read until a commit is ready or the input ends. */
  function CacheNextCommit(it: CommitIterator): (r: CommitIterator)
    ensures Consistent(r)
    ensures r.failsAtEnd == it.failsAtEnd
    ensures !r.hasNextCached ==> r.closed
    ensures !it.closed && !r.hasNextCached ==> r.nextCommit.None?
    ensures it.closed ==> r.closed && !r.hasNextCached
    ensures Measure(r) <= 2 * |it.rest| + (if it.block == "" then 0 else 1)
  {
    if it.closed then it.(hasNextCached := false)
    else ReadLines(it.rest, it.failsAtEnd, it.block)
  }

  /** The `while ((line = reader.readLine()) != null)` loop, and what
      follows it once the input is used up. */
  function ReadLines(rest: seq<string>, failsAtEnd: bool, block: string): (r: CommitIterator)
    decreases |rest|
    ensures Consistent(r) && r.failsAtEnd == failsAtEnd
    ensures !r.hasNextCached ==> r.closed && r.nextCommit.None?
    ensures Measure(r) <= 2 * |rest| + (if block == "" then 0 else 1)
  {
    if |rest| == 0 then
      if failsAtEnd then CommitIterator([], failsAtEnd, block, None, false, true)
      else if block != "" then
        match ParseBlock(block)
        case Some(c) => CommitIterator([], failsAtEnd, "", Some(c), true, false)
        case None => CommitIterator([], failsAtEnd, "", None, false, true)
      else CommitIterator([], failsAtEnd, block, None, false, true)
    else
      var line := rest[0];
      if IsBlank(line) then ReadLines(rest[1..], failsAtEnd, block)
      else if OpensBlock(line) && block != "" then
        match ParseBlock(block)
        case Some(c) => CommitIterator(rest[1..], failsAtEnd, line + "\n", Some(c), true, false)
        case None => ReadLines(rest[1..], failsAtEnd, line + "\n")
      else ReadLines(rest[1..], failsAtEnd, block + line + "\n")
  }

  /** Lines left, a pending block, a cached commit: what each `next` call
      uses up. */
  function Measure(it: CommitIterator): nat {
    2 * |it.rest| + (if it.block == "" then 0 else 1) + (if it.hasNextCached then 1 else 0)
  }

  /** The constructor: open the reader and cache the first commit. */
  function Open(src: LogSource): (it: CommitIterator)
    ensures Consistent(it)
  {
    CacheNextCommit(CommitIterator(src.lines, src.failsAtEnd, "", None, false, false))
  }

  function HasNext(it: CommitIterator): bool {
    it.hasNextCached
  }

  /** `next`: the cached commit and the advanced iterator, or
      NoSuchElementException when there is none. */
  function Next(it: CommitIterator): (r: Result<(Commit, CommitIterator), string>)
    requires Consistent(it)
    ensures r.Err? <==> !HasNext(it)
    ensures r.Ok? ==> r.value.0 == it.nextCommit.value && Consistent(r.value.1)
    ensures r.Ok? ==> Measure(r.value.1) < Measure(it)
  {
    if !it.hasNextCached then Err("No more commits available")
    else Ok((it.nextCommit.value, CacheNextCommit(it)))
  }

  /** Every commit the iterator still yields, calling `next` while
      `hasNext` holds. */
  function Drain(it: CommitIterator): (r: seq<Commit>)
    requires Consistent(it)
    ensures |r| <= Measure(it)
    ensures HasNext(it) <==> |r| > 0
    ensures |r| > 0 ==> r[0] == it.nextCommit.value
    decreases Measure(it)
  {
    match Next(it)
    case Err(_) => []
    case Ok((c, it')) => [c] + Drain(it')
  }

  // ---------------------------------------------------------------------
  // The iterator yields the block-by-block reading
  // ---------------------------------------------------------------------

  /** What an open iterator still owes: the commits of the blocks formed by
      the pending block and the unread lines. */
  function Owed(rest: seq<string>, failsAtEnd: bool, block: string): seq<Commit> {
    CommitsOf(CompleteBlocks(Group(rest, block), failsAtEnd))
  }

  /** One call of the reading loop yields the first owed commit and leaves
      the rest owed; when it yields nothing, nothing was owed. */
  lemma {:induction false} ReadLinesOwed(rest: seq<string>, failsAtEnd: bool, block: string)
    ensures var r := ReadLines(rest, failsAtEnd, block);
            if r.hasNextCached
            then !r.closed && Owed(rest, failsAtEnd, block) == [r.nextCommit.value] + Owed(r.rest, failsAtEnd, r.block)
            else Owed(rest, failsAtEnd, block) == []
    decreases |rest|
  {
    if |rest| == 0 {
      if block != "" {
        assert [block][1..] == [];
      }
    } else {
      var line, tail := rest[0], rest[1..];
      if IsBlank(line) {
        ReadLinesOwed(tail, failsAtEnd, block);
      } else if OpensBlock(line) && block != "" {
        var next := line + "\n";
        var g := Group(tail, next);
        assert Group(rest, block) == [block] + g;
        CompleteCons(block, g, failsAtEnd);
        CommitsOfCons(block, CompleteBlocks(g, failsAtEnd));
        if ParseBlock(block).None? {
          ReadLinesOwed(tail, failsAtEnd, next);
        }
      } else {
        ReadLinesOwed(tail, failsAtEnd, block + line + "\n");
      }
    }
  }

  /** Completing a run that has a block after its first keeps the first. */
  lemma CompleteCons(b: string, bs: seq<string>, failsAtEnd: bool)
    requires |bs| > 0
    ensures CompleteBlocks([b] + bs, failsAtEnd) == [b] + CompleteBlocks(bs, failsAtEnd)
  {
    if failsAtEnd {
      assert ([b] + bs)[..|bs|] == [b] + bs[..|bs| - 1];
    }
  }

  lemma CommitsOfCons(b: string, bs: seq<string>)
    ensures CommitsOf([b] + bs) == (match ParseBlock(b) case Some(c) => [c] case None => []) + CommitsOf(bs)
  {
    assert ([b] + bs)[1..] == bs;
  }

  /** The iterator opened on a log yields exactly the commits of its
      block-by-block reading, in order. */
  lemma IteratorYieldsParseLog(src: LogSource)
    ensures Drain(Open(src)) == ParseLog(src)
  {
    var it0 := CommitIterator(src.lines, src.failsAtEnd, "", None, false, false);
    ReadLinesOwed(src.lines, src.failsAtEnd, "");
    var it := Open(src);
    assert it == ReadLines(src.lines, src.failsAtEnd, "");
    if it.hasNextCached {
      DrainFrom(it);
    }
  }

  /** After a commit is cached, the rest of the drain is what is owed. */
  lemma {:induction false} DrainFrom(it: CommitIterator)
    requires Consistent(it) && it.hasNextCached && !it.closed
    ensures Drain(it) == [it.nextCommit.value] + Owed(it.rest, it.failsAtEnd, it.block)
    decreases Measure(it)
  {
    var c := it.nextCommit.value;
    var it' := CacheNextCommit(it);
    assert Drain(it) == [c] + Drain(it');
    ReadLinesOwed(it.rest, it.failsAtEnd, it.block);
    if it'.hasNextCached {
      DrainFrom(it');
    } else {
      assert Drain(it') == [];
    }
  }
}

/** Rename notation in a numstat path (`checkForFilePathChange`) and the
    path clean-up applied to both sides (`normalizePath`). Git writes a
    rename either as a whole `old => new` or as one or more `{old => new}`
    segments inside an otherwise shared path. The two patterns are

      full:    ^(?<old>[^{}]*?)\s=>\s(?<current>[^{}]*?)$     (matches)
      partial: \{(?<old>[^{}]*?)\s=>\s(?<current>[^{}]*?)}     (find, repeated) */
module Renames {

  import opened Nullable
  import opened JavaLang
  import opened Commits

  // ---------------------------------------------------------------------
  // normalizePath: replaceAll("/{2,}", "/") then trim
  // ---------------------------------------------------------------------

  predicate NoDoubleSlash(s: string) {
    forall k :: 0 <= k < |s| - 1 ==> !(s[k] == '/' && s[k + 1] == '/')
  }

  /** The characters of s other than `/`, in order. */
  function WithoutSlashes(s: string): string {
    if |s| == 0 then [] else WithoutSlashes(s[..|s| - 1]) + (if s[|s| - 1] == '/' then [] else [s[|s| - 1]])
  }

  /** Every run of slashes shrinks to one slash; nothing else changes. */
  function CollapseSlashes(s: string): (r: string)
    decreases |s|
    ensures NoDoubleSlash(r)
    ensures WithoutSlashes(r) == WithoutSlashes(s)
    ensures |r| <= |s|
    ensures |s| > 0 ==> |r| > 0 && r[|r| - 1] == s[|s| - 1] && r[0] == s[0]
  {
    if |s| <= 1 then s
    else
      var init := s[..|s| - 1];
      var c := s[|s| - 1];
      var ri := CollapseSlashes(init);
      if c == '/' && init[|init| - 1] == '/' then
        assert WithoutSlashes(s) == WithoutSlashes(init) + [];
        ri
      else
        assert WithoutSlashes(ri + [c]) == WithoutSlashes(ri) + (if c == '/' then [] else [c]) by {
          assert (ri + [c])[..|ri|] == ri;
        }
        ri + [c]
  }

  /** A path without doubled slashes is left alone. */
  lemma {:induction false} CollapseKeeps(s: string)
    requires NoDoubleSlash(s)
    ensures CollapseSlashes(s) == s
    decreases |s|
  {
    if |s| > 1 {
      CollapseKeeps(s[..|s| - 1]);
    }
  }

  /** One step of the collapse: the last character is dropped when it
      doubles a slash, and kept otherwise. */
  lemma CollapseStep(s: string)
    requires |s| > 1
    ensures CollapseSlashes(s)
            == if s[|s| - 1] == '/' && s[|s| - 2] == '/' then CollapseSlashes(s[..|s| - 1])
               else CollapseSlashes(s[..|s| - 1]) + [s[|s| - 1]]
  {
  }

  lemma ConcatSnoc(x: string, y: string, c: char)
    ensures x + (y + [c]) == (x + y) + [c]
  {
  }

  /** Two texts that collapse alike and end alike still do after one more
      character. */
  lemma CollapseSameLast(x1: string, x2: string, c: char)
    requires |x1| > 0 && |x2| > 0 && x1[|x1| - 1] == x2[|x2| - 1]
    requires CollapseSlashes(x1) == CollapseSlashes(x2)
    ensures CollapseSlashes(x1 + [c]) == CollapseSlashes(x2 + [c])
  {
    CollapseStep(x1 + [c]);
    CollapseStep(x2 + [c]);
    assert (x1 + [c])[..|x1|] == x1 && (x2 + [c])[..|x2|] == x2;
  }

  /** Two texts that collapse alike and end alike still do after any
      common continuation. */
  lemma {:induction false} CollapseSameTail(x1: string, x2: string, b: string)
    requires |x1| > 0 && |x2| > 0 && x1[|x1| - 1] == x2[|x2| - 1]
    requires CollapseSlashes(x1) == CollapseSlashes(x2)
    ensures CollapseSlashes(x1 + b) == CollapseSlashes(x2 + b)
    decreases |b|
  {
    if |b| > 0 {
      var b', c := b[..|b| - 1], b[|b| - 1];
      assert b == b' + [c];
      CollapseSameTail(x1, x2, b');
      ConcatSnoc(x1, b', c);
      ConcatSnoc(x2, b', c);
      assert (x1 + b')[|x1 + b'| - 1] == (x2 + b')[|x2 + b'| - 1] by {
        if |b'| > 0 {
          assert (x1 + b')[|x1 + b'| - 1] == b'[|b'| - 1];
          assert (x2 + b')[|x2 + b'| - 1] == b'[|b'| - 1];
        } else {
          assert x1 + b' == x1 && x2 + b' == x2;
        }
      }
      CollapseSameLast(x1 + b', x2 + b', c);
    } else {
      assert x1 + b == x1 && x2 + b == x2;
    }
  }

  /** A run of two slashes collapses like a single slash: with
      `CollapseKeeps`, this pins the result to the input. */
  lemma CollapseShrinksRun(a: string, b: string)
    ensures CollapseSlashes(a + "//" + b) == CollapseSlashes(a + "/" + b)
  {
    var x1, x2 := a + "//", a + "/";
    CollapseStep(x1);
    assert x1[..|x1| - 1] == x2;
    CollapseSameTail(x1, x2, b);
  }

  lemma SliceNoDoubleSlash(s: string, a: nat, b: nat)
    requires a <= b <= |s| && NoDoubleSlash(s)
    ensures NoDoubleSlash(s[a..b])
  {
    forall k | 0 <= k < b - a - 1 ensures !(s[a..b][k] == '/' && s[a..b][k + 1] == '/') {
      assert s[a..b][k] == s[a + k] && s[a..b][k + 1] == s[a + k + 1];
    }
  }

  /** `normalizePath`. */
  function NormalizePath(p: string): (r: string)
    ensures NoDoubleSlash(r)
    ensures |r| > 0 ==> !IsTrimmed(r[0]) && !IsTrimmed(r[|r| - 1])
  {
    var c := CollapseSlashes(p);
    var r := Trim(c);
    TrimSlice(c);
    SliceNoDoubleSlash(c, TrimLo(c, 0), TrimHi(c, TrimLo(c, 0), |c|));
    r
  }

  lemma TrimKeeps(s: string)
    requires |s| > 0 ==> !IsTrimmed(s[0]) && !IsTrimmed(s[|s| - 1])
    ensures Trim(s) == s
  {
  }

  /** A path with no doubled slash and nothing to trim at either end is
      already normal. */
  lemma NormalizeKeeps(p: string)
    requires NoDoubleSlash(p) && (|p| > 0 ==> !IsTrimmed(p[0]) && !IsTrimmed(p[|p| - 1]))
    ensures NormalizePath(p) == p
  {
    CollapseKeeps(p);
    TrimKeeps(p);
  }

  /** A doubled slash normalizes like a single one. */
  lemma NormalizeShrinksRun(a: string, b: string)
    ensures NormalizePath(a + "//" + b) == NormalizePath(a + "/" + b)
  {
    CollapseShrinksRun(a, b);
  }

  /** Normalizing twice is normalizing once. */
  lemma NormalizeIdempotent(p: string)
    ensures NormalizePath(NormalizePath(p)) == NormalizePath(p)
  {
    var r := NormalizePath(p);
    CollapseKeeps(r);
    TrimKeeps(r);
  }

  // ---------------------------------------------------------------------
  // The ` => ` separator
  // ---------------------------------------------------------------------

  /** `\s=>\s` at j. */
  predicate SepAt(s: string, j: nat) {
    j + 4 <= |s| && IsRegexSpace(s[j]) && s[j + 1] == '=' && s[j + 2] == '>' && IsRegexSpace(s[j + 3])
  }

  /** The first separator lying wholly inside [from, to). */
  function FirstSep(s: string, from: nat, to: nat): (r: Option<nat>)
    requires from <= to <= |s|
    decreases (to as int) - (from as int)
    ensures r.Some? ==> from <= r.value && r.value + 4 <= to && SepAt(s, r.value)
    ensures r.Some? ==> forall j :: from <= j < r.value ==> !SepAt(s, j)
    ensures r.None? ==> forall j :: from <= j && j + 4 <= to ==> !SepAt(s, j)
  {
    if from + 4 > to then None
    else if SepAt(s, from) then Some(from)
    else FirstSep(s, from + 1, to)
  }

  predicate BraceFree(s: string) {
    '{' !in s && '}' !in s
  }

  // ---------------------------------------------------------------------
  // Whole-path rename
  // ---------------------------------------------------------------------

  /** The full pattern under `matches`: a brace-free path holding a
      separator, split at the first one (the lazy `old`). */
  function FullRename(path: string): (r: Option<(string, string)>)
    ensures r.Some? <==> BraceFree(path) && exists j :: SepAt(path, j)
    ensures r.Some? ==> var j := |r.value.0|;
              SepAt(path, j) && path[..j] == r.value.0 && path[j + 4..] == r.value.1
              && forall k :: 0 <= k < j ==> !SepAt(path, k)
  {
    if !BraceFree(path) then None
    else match FirstSep(path, 0, |path|)
      case None => None
      case Some(j) => Some((path[..j], path[j + 4..]))
  }

  // ---------------------------------------------------------------------
  // Partial renames
  // ---------------------------------------------------------------------

  /** A `{old => new}` match: the opening brace, the separator and the
      closing brace. */
  datatype Edit = Edit(open: nat, sep: nat, close: nat)

  /** `s` holds `{`, a brace-free text with its first separator at m.sep,
      and `}` at m.close. */
  predicate IsEditAt(s: string, m: Edit) {
    m.open < m.sep && m.sep + 4 <= m.close < |s|
    && s[m.open] == '{' && s[m.close] == '}'
    && BraceFree(s[m.open + 1..m.close])
    && SepAt(s, m.sep)
    && forall j :: m.open < j < m.sep ==> !SepAt(s, j)
  }

  /** First index at or after i holding a brace, or |s|. */
  function FirstBrace(s: string, i: nat): (j: nat)
    requires i <= |s|
    decreases |s| - i
    ensures i <= j <= |s|
    ensures BraceFree(s[i..j])
    ensures j < |s| ==> s[j] == '{' || s[j] == '}'
  {
    if i == |s| || s[i] == '{' || s[i] == '}' then i
    else
      var j := FirstBrace(s, i + 1);
      assert s[i..j] == [s[i]] + s[i + 1..j];
      j
  }

  /** The partial-pattern match starting at i, if any. */
  function MatchEditAt(s: string, i: nat): (r: Option<Edit>)
    requires i <= |s|
    ensures r.Some? ==> r.value.open == i && IsEditAt(s, r.value)
  {
    if i < |s| && s[i] == '{' then
      var q := FirstBrace(s, i + 1);
      if q < |s| && s[q] == '}' then
        match FirstSep(s, i + 1, q)
        case None => None
        case Some(j) => Some(Edit(i, j, q))
      else None
    else None
  }

  /** Every match starting at i is the one found there: the match at a
      position is unique. */
  lemma MatchEditAtComplete(s: string, m: Edit)
    requires IsEditAt(s, m)
    ensures MatchEditAt(s, m.open) == Some(m)
  {
    var q := FirstBrace(s, m.open + 1);
    assert q == m.close;
  }

  /** `find` for the partial pattern from `from`. */
  function FindEdit(s: string, from: nat): (r: Option<Edit>)
    requires from <= |s|
    decreases |s| - from
    ensures r.Some? ==> from <= r.value.open && IsEditAt(s, r.value)
  {
    match MatchEditAt(s, from)
    case Some(m) => Some(m)
    case None => if from == |s| then None else FindEdit(s, from + 1)
  }

  /** `find` returns the leftmost match, and none when there is none. */
  lemma {:induction false} FindEditLeftmost(s: string, from: nat)
    requires from <= |s|
    ensures FindEdit(s, from).Some? ==> forall j :: from <= j < FindEdit(s, from).value.open ==> MatchEditAt(s, j).None?
    ensures FindEdit(s, from).None? ==> forall j :: from <= j <= |s| ==> MatchEditAt(s, j).None?
    decreases |s| - from
  {
    if MatchEditAt(s, from).None? && from < |s| {
      FindEditLeftmost(s, from + 1);
    }
  }

  /** `es` is a left-to-right run of brace-delimited edits in s, the first
      at or after `from`, each after the previous one's closing brace. */
  predicate Chain(s: string, from: nat, es: seq<Edit>)
    decreases |es|
  {
    from <= |s|
    && (|es| > 0 ==>
          var m := es[0];
          from <= m.open < m.sep && m.sep + 4 <= m.close < |s| && s[m.open] == '{' && s[m.close] == '}'
          && Chain(s, m.close + 1, es[1..]))
  }

  /** The successive partial matches from `from` (the `while (find())` loop). */
  function Edits(s: string, from: nat): (es: seq<Edit>)
    requires from <= |s|
    decreases |s| - from
    ensures Chain(s, from, es)
    ensures forall k :: 0 <= k < |es| ==> IsEditAt(s, es[k])
  {
    match FindEdit(s, from)
    case None => []
    case Some(m) =>
      var rest := Edits(s, m.close + 1);
      assert ([m] + rest)[1..] == rest;
      [m] + rest
  }

  /** The text a chain covers, piece by piece. */
  function ChainText(s: string, from: nat, es: seq<Edit>): string
    requires Chain(s, from, es)
    decreases |es|
  {
    if |es| == 0 then s[from..]
    else s[from..es[0].open] + (s[es[0].open..es[0].close + 1] + ChainText(s, es[0].close + 1, es[1..]))
  }

  lemma {:induction false} ChainTextIsSuffix(s: string, from: nat, es: seq<Edit>)
    requires Chain(s, from, es)
    ensures ChainText(s, from, es) == s[from..]
    decreases |es|
  {
    if |es| > 0 {
      var c, tail := es[0].close + 1, es[1..];
      ChainTextIsSuffix(s, c, tail);
      ChainTextStep(s, from, es);
      ConcatSlices(s, from, es[0].open, c);
    }
  }

  /** The old path the loop builds: the text before each match followed by
      the match's `old` group, then everything after the last match. */
  function OldPath(s: string, from: nat, es: seq<Edit>): (r: string)
    requires Chain(s, from, es)
    ensures |r| + 6 * |es| <= |s| - from
    decreases |es|
  {
    if |es| == 0 then s[from..]
    else s[from..es[0].open] + s[es[0].open + 1..es[0].sep] + OldPath(s, es[0].close + 1, es[1..])
  }

  /** The new path the loop builds, with each match's `new` group. */
  function NewPath(s: string, from: nat, es: seq<Edit>): (r: string)
    requires Chain(s, from, es)
    ensures |r| + 6 * |es| <= |s| - from
    decreases |es|
  {
    if |es| == 0 then s[from..]
    else s[from..es[0].open] + s[es[0].sep + 4..es[0].close] + NewPath(s, es[0].close + 1, es[1..])
  }

  /** Every match of the chain renames a text to itself. */
  predicate RenamesToItself(s: string, from: nat, es: seq<Edit>)
    requires Chain(s, from, es)
    decreases |es|
  {
    |es| == 0
    || (s[es[0].open + 1..es[0].sep] == s[es[0].sep + 4..es[0].close]
        && RenamesToItself(s, es[0].close + 1, es[1..]))
  }

  /** The two sides differ only inside the matches: where every match has
      the same text on both sides of its separator, they coincide. */
  lemma {:induction false} SidesAgreeOutsideEdits(s: string, from: nat, es: seq<Edit>)
    requires Chain(s, from, es) && RenamesToItself(s, from, es)
    ensures OldPath(s, from, es) == NewPath(s, from, es)
    decreases |es|
  {
    if |es| > 0 {
      var c, tail := es[0].close + 1, es[1..];
      SidesAgreeOutsideEdits(s, c, tail);
      SidesAgreeStep(s, from, es, c, tail);
    }
  }

  lemma SidesAgreeStep(s: string, from: nat, es: seq<Edit>, c: nat, tail: seq<Edit>)
    requires Chain(s, from, es) && |es| > 0 && RenamesToItself(s, from, es)
    requires c == es[0].close + 1 && tail == es[1..] && Chain(s, c, tail)
    requires OldPath(s, c, tail) == NewPath(s, c, tail)
    ensures OldPath(s, from, es) == NewPath(s, from, es)
  {
    SidesStep(s, from, es);
    Congruent(s[from..es[0].open], s[es[0].open + 1..es[0].sep], s[es[0].sep + 4..es[0].close],
              OldPath(s, c, tail), NewPath(s, c, tail));
  }

  /** One step of both sides. */
  lemma SidesStep(s: string, from: nat, es: seq<Edit>)
    requires Chain(s, from, es) && |es| > 0
    ensures OldPath(s, from, es) == s[from..es[0].open] + s[es[0].open + 1..es[0].sep] + OldPath(s, es[0].close + 1, es[1..])
    ensures NewPath(s, from, es) == s[from..es[0].open] + s[es[0].sep + 4..es[0].close] + NewPath(s, es[0].close + 1, es[1..])
  {
  }

  lemma Congruent(a: string, b1: string, b2: string, r1: string, r2: string)
    requires b1 == b2 && r1 == r2
    ensures a + b1 + r1 == a + b2 + r2
  {
  }

  /** Each match's text is the brace, the `old` group, the separator, the
      `new` group and the closing brace. */
  lemma EditNotation(s: string, m: Edit)
    requires IsEditAt(s, m)
    ensures s[m.open..m.close + 1] == "{" + s[m.open + 1..m.sep] + s[m.sep..m.sep + 4] + s[m.sep + 4..m.close] + "}"
  {
    BraceText(s, m.open, m.sep, m.close);
  }

  lemma ChainTextStep(s: string, from: nat, es: seq<Edit>)
    requires Chain(s, from, es) && |es| > 0
    ensures ChainText(s, from, es) == s[from..es[0].open] + (s[es[0].open..es[0].close + 1] + ChainText(s, es[0].close + 1, es[1..]))
  {
  }

  /** Three adjacent slices. */
  lemma ConcatSlices(s: string, i: nat, j: nat, k: nat)
    requires i <= j <= k <= |s|
    ensures s[i..j] + (s[j..k] + s[k..]) == s[i..]
  {
    SliceSplit(s, j, k, |s|);
    SliceSplit(s, i, j, |s|);
  }

  lemma SliceSplit(s: string, i: nat, j: nat, k: nat)
    requires i <= j <= k <= |s|
    ensures s[i..k] == s[i..j] + s[j..k]
  {
  }

  lemma BraceText(s: string, o: nat, sep: nat, c: nat)
    requires o < sep && sep + 4 <= c < |s| && s[o] == '{' && s[c] == '}'
    ensures s[o..c + 1] == "{" + s[o + 1..sep] + s[sep..sep + 4] + s[sep + 4..c] + "}"
  {
    var m := Edit(o, sep, c);
    SliceSplit(s, m.open, m.open + 1, m.close + 1);
    SliceSplit(s, m.open + 1, m.sep, m.close + 1);
    SliceSplit(s, m.sep, m.sep + 4, m.close + 1);
    SliceSplit(s, m.sep + 4, m.close, m.close + 1);
    assert s[m.open..m.open + 1] == "{" && s[m.close..m.close + 1] == "}";
  }

  // ---------------------------------------------------------------------
  // checkForFilePathChange
  // ---------------------------------------------------------------------

  /** A whole-path rename wins; otherwise, if any `{old => new}` segment
      matches, both sides are rebuilt; otherwise the change is returned
      as it came. Both sides are normalized. */
  function CheckForFilePathChange(f: FileChange): (r: FileChange)
    ensures r.filePath == f.filePath && r.linesAdded == f.linesAdded && r.linesDeleted == f.linesDeleted
    ensures FullRename(f.filePath).Some? ==>
              r.oldPath == Some(NormalizePath(FullRename(f.filePath).value.0))
              && r.newPath == Some(NormalizePath(FullRename(f.filePath).value.1))
    ensures FullRename(f.filePath).None? && FindEdit(f.filePath, 0).Some? ==>
              r.oldPath == Some(NormalizePath(OldPath(f.filePath, 0, Edits(f.filePath, 0))))
              && r.newPath == Some(NormalizePath(NewPath(f.filePath, 0, Edits(f.filePath, 0))))
    ensures FullRename(f.filePath).None? && FindEdit(f.filePath, 0).None? ==> r == f
  {
    match FullRename(f.filePath)
    case Some((o, n)) => WithFilePathChange(f, Some(NormalizePath(o)), Some(NormalizePath(n)))
    case None =>
      if FindEdit(f.filePath, 0).None? then f
      else
        var es := Edits(f.filePath, 0);
        WithFilePathChange(f, Some(NormalizePath(OldPath(f.filePath, 0, es))), Some(NormalizePath(NewPath(f.filePath, 0, es))))
  }

  /** A path is read as a rename exactly when it carries one of the two
      notations; a change built without rename paths stays so otherwise. */
  lemma RenamedIffNotation(f: FileChange)
    requires !IsRenamed(f)
    ensures IsRenamed(CheckForFilePathChange(f)) <==> FullRename(f.filePath).Some? || FindEdit(f.filePath, 0).Some?
  {
  }

  lemma FullRenameOf(a: string, b: string)
    requires BraceFree(a) && BraceFree(b) && '=' !in a
    ensures FullRename(a + " => " + b) == Some((a, b))
  {
    var p := a + " => " + b;
    assert SepAt(p, |a|);
    forall k | 0 <= k < |a| ensures !SepAt(p, k) {
      if k + 1 < |a| {
        assert p[k + 1] == a[k + 1];
      } else {
        assert p[k + 1] == ' ';
      }
    }
    assert BraceFree(p) by {
      assert p == a + (" => " + b);
    }
    var r := FullRename(p);
    assert r.Some?;
    assert |r.value.0| == |a|;
    assert p[..|a|] == a && p[|a| + 4..] == b;
  }

  /** `a => b` with no brace and no `=` in `a` names `a` as the old path and
      `b` as the new one. */
  lemma WholeRename(a: string, b: string, added: int, deleted: int)
    requires BraceFree(a) && BraceFree(b) && '=' !in a
    ensures var r := CheckForFilePathChange(Unrenamed(a + " => " + b, added, deleted));
            r.oldPath == Some(NormalizePath(a)) && r.newPath == Some(NormalizePath(b))
  {
    FullRenameOf(a, b);
  }

  /** `p` holds exactly one partial match, m, and no brace outside it. */
  predicate SingleEdit(p: string, m: Edit) {
    IsEditAt(p, m) && BraceFree(p[..m.open]) && BraceFree(p[m.close + 1..])
  }

  /** `pre{a => b}post` with brace-free parts and no `=` in `a` is a single
      edit, cut at the expected places. */
  lemma ConcatSingleEdit(pre: string, a: string, b: string, post: string, p: string, m: Edit)
    requires BraceFree(pre) && BraceFree(a) && BraceFree(b) && BraceFree(post) && '=' !in a
    requires p == pre + "{" + a + " => " + b + "}" + post
    requires m == Edit(|pre|, |pre| + 1 + |a|, |pre| + 5 + |a| + |b|)
    ensures SingleEdit(p, m)
    ensures p[0..m.open] == pre && p[m.open + 1..m.sep] == a && p[m.sep..m.sep + 4] == " => "
            && p[m.sep + 4..m.close] == b && p[m.close + 1..] == post
  {
    assert p[m.open] == '{' && p[m.close] == '}';
    assert p[..m.open] == pre;
    assert p[m.open + 1..m.close] == a + " => " + b;
    assert BraceFree(a + " => " + b) by {
      assert a + " => " + b == a + (" => " + b);
    }
    assert SepAt(p, m.sep);
    forall j | m.open < j < m.sep ensures !SepAt(p, j) {
      if j + 1 < m.sep {
        assert p[j + 1] == a[j + 1 - m.open - 1];
      } else {
        assert p[j + 1] == ' ';
      }
    }
  }

  /** In a single edit, `find` meets m first and nothing after it. */
  lemma SingleEditFound(p: string, m: Edit)
    requires SingleEdit(p, m)
    ensures FindEdit(p, 0) == Some(m) && FindEdit(p, m.close + 1).None?
  {
    forall j | 0 <= j < m.open ensures MatchEditAt(p, j).None? {
      assert p[j] == p[..m.open][j];
    }
    FindEditFrom(p, 0, m);
    forall j | m.close + 1 <= j <= |p| ensures MatchEditAt(p, j).None? {
      if j < |p| {
        assert p[j] == p[m.close + 1..][j - m.close - 1];
      }
    }
    FindEditNone(p, m.close + 1);
  }

  /** `pre{a => b}post`, with braces only around the edit and no `=` in
      `a`, names pre+a+post as the old path and pre+b+post as the new. */
  lemma SegmentRename(pre: string, a: string, b: string, post: string, added: int, deleted: int)
    requires BraceFree(pre) && BraceFree(a) && BraceFree(b) && BraceFree(post) && '=' !in a
    ensures var r := CheckForFilePathChange(Unrenamed(pre + "{" + a + " => " + b + "}" + post, added, deleted));
            r.oldPath == Some(NormalizePath(pre + a + post)) && r.newPath == Some(NormalizePath(pre + b + post))
  {
    var p := pre + "{" + a + " => " + b + "}" + post;
    var m := Edit(|pre|, |pre| + 1 + |a|, |pre| + 5 + |a| + |b|);
    ConcatSingleEdit(pre, a, b, post, p, m);
    SingleEditFound(p, m);
    assert FullRename(p).None? by {
      assert p[m.open] == '{';
    }
    SingleEditSides(p, m, pre, a, b, post);
  }

  /** Both sides of a single edit, given its pieces. */
  lemma SingleEditSides(p: string, m: Edit, pre: string, a: string, b: string, post: string)
    requires SingleEdit(p, m)
    requires p[0..m.open] == pre && p[m.open + 1..m.sep] == a && p[m.sep + 4..m.close] == b && p[m.close + 1..] == post
    ensures Edits(p, 0) == [m]
    ensures OldPath(p, 0, [m]) == pre + a + post && NewPath(p, 0, [m]) == pre + b + post
  {
    SingleEditFound(p, m);
    var c := m.close + 1;
    assert Edits(p, c) == [];
    assert Edits(p, 0) == [m] + Edits(p, c);
    assert [m][1..] == [];
    assert OldPath(p, c, []) == post;
    assert NewPath(p, c, []) == post;
  }

  /** The leftmost match is the one found. */
  lemma {:induction false} FindEditFrom(s: string, from: nat, m: Edit)
    requires from <= m.open && IsEditAt(s, m)
    requires forall j :: from <= j < m.open ==> MatchEditAt(s, j).None?
    ensures FindEdit(s, from) == Some(m)
    decreases m.open - from
  {
    if from < m.open {
      FindEditFrom(s, from + 1, m);
    } else {
      MatchEditAtComplete(s, m);
    }
  }

  lemma {:induction false} FindEditNone(s: string, from: nat)
    requires from <= |s|
    requires forall j :: from <= j <= |s| ==> MatchEditAt(s, j).None?
    ensures FindEdit(s, from).None?
    decreases |s| - from
  {
    if from < |s| {
      FindEditNone(s, from + 1);
    }
  }
}

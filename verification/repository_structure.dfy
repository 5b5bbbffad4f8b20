/** The `RepositoryStructureService`: the stored FileInfo and FileKnowledge
    rows of one analysis joined into a directory tree whose leaves are the
    files, each file sized by its commits (height) and lines of code
    (width) against the largest values of the analysis, and each directory
    summarising the files below it. */
module RepositoryStructure {

  import opened Nullable
  import opened JavaLang
  import opened Dates
  import opened FileInfos
  import Authors
  import Batches

  // ---------------------------------------------------------------------
  // RepositoryStructureNode
  // ---------------------------------------------------------------------

  /** The node's `type` string: "dir" or "file". */
  datatype NodeType = Dir | File

  /** The columns a file leaf copies from its FileInfo and FileKnowledge
      rows and that nothing later changes; all unset on a directory. */
  datatype FileFields = FileFields(
    fileType: Option<string>,
    commitsInHotSpotAnalysisPeriod: Option<int>,
    commitsLastYear: Option<int>,
    firstCommitDate: Option<Date>,
    lastCommitDate: Option<Date>,
    leadAuthor: Option<string>,
    leadAuthorKnowledgePercentage: Option<real>,
    contributors: Option<int>,
    activeContributors: Option<int>)

  const NoFields := FileFields(None, None, None, None, None, None, None, None, None)

  /** A node's list of children, or null. */
  datatype ChildList = NullList | List(nodes: seq<Node>)

  /** A node; `children` is null until the first `addChild`. */
  datatype Node = Node(
    name: string,
    path: string,
    nodeType: NodeType,
    fields: FileFields,
    numberOfFiles: Option<int>,
    linesOfCode: Option<int>,
    commits: Option<int>,
    averageCommits: Option<int>,
    children: ChildList,
    height: Option<real>,
    width: Option<real>)

  /** The children, with a null list read as none. */
  function Kids(n: Node): seq<Node> {
    if n.children.List? then n.children.nodes else []
  }

  /** `addChild`: a null list becomes `[child]`, otherwise the child is
      appended; the present children keep their order and no other field
      changes. */
  function AddChild(n: Node, child: Node): (r: Node)
    ensures r.children.List? && |Kids(r)| == |Kids(n)| + 1
    ensures Kids(r)[..|Kids(n)|] == Kids(n) && Kids(r)[|Kids(n)|] == child
    ensures n.children.NullList? ==> r.children == List([child])
    ensures r.(children := n.children) == n
  {
    n.(children := List(Kids(n) + [child]))
  }

  /** A directory as `createDirectoryNode` builds it: name, path and type
      set, everything else null. */
  function NewDir(name: string, path: string): (r: Node)
    ensures r.nodeType == Dir && r.name == name && r.path == path && r.children.NullList?
  {
    Node(name, path, Dir, NoFields, None, None, None, None, NullList, None, None)
  }

  /** The stored knowledge of one file; only the columns the tree copies.
      (The repository-analysis FileKnowledge class is not part of this
      model; its columns are read off the builder calls.) */
  datatype FileKnowledge = FileKnowledge(
    filePath: string,
    leadAuthor: Option<string>,
    leadAuthorKnowledgePercentage: Option<real>,
    contributors: Option<int>,
    activeContributors: Option<int>)

  /** `createFileNode`: name and path from the FileInfo, the commit and
      line columns from the FileInfo, the author columns from the
      FileKnowledge. */
  function FileNode(info: FileInfo, k: FileKnowledge): (r: Node)
    ensures r.nodeType == File && r.name == info.fileName && r.path == info.filePath
    ensures r.linesOfCode == info.codeLines && r.commits == Some(info.totalCommits)
    ensures r.fields.leadAuthor == k.leadAuthor && r.children.NullList?
  {
    var fields := FileFields(info.fileType, Some(info.commitsInHotSpotAnalysisPeriod), Some(info.commitsLastYear),
                             info.firstCommitDate, info.lastCommitDate, k.leadAuthor,
                             k.leadAuthorKnowledgePercentage, k.contributors, k.activeContributors);
    Node(info.fileName, info.filePath, File, fields, None, info.codeLines, Some(info.totalCommits), None, NullList, None, None)
  }

  // ---------------------------------------------------------------------
  // The files below a node
  // ---------------------------------------------------------------------

  /** The file leaves below `n`, left to right: the reference the
      directory statistics are measured against. */
  function Leaves(n: Node): seq<Node>
    decreases n
  {
    if n.nodeType == File then [n]
    else
      var cs := Kids(n);
      Batches.Flatten(seq(|cs|, k requires 0 <= k < |cs| => Leaves(cs[k])))
  }

  /** The leaf lists of a list of children. */
  function LeafLists(cs: seq<Node>): (r: seq<seq<Node>>)
    ensures |r| == |cs|
  {
    seq(|cs|, k requires 0 <= k < |cs| => Leaves(cs[k]))
  }

  lemma LeavesOfDir(n: Node)
    requires n.nodeType == Dir
    ensures Leaves(n) == Batches.Flatten(LeafLists(Kids(n)))
  {
  }

  lemma {:induction false} FlattenAppend<T>(a: seq<seq<T>>, b: seq<seq<T>>)
    ensures Batches.Flatten(a + b) == Batches.Flatten(a) + Batches.Flatten(b)
    decreases |a|
  {
    if |a| > 0 {
      assert (a + b)[0] == a[0];
      assert (a + b)[1..] == a[1..] + b;
      FlattenAppend(a[1..], b);
    } else {
      assert a + b == b;
    }
  }

  /** Replacing one list of a list of lists swaps its elements in the
      flattened whole. */
  lemma FlattenUpdate<T>(xs: seq<seq<T>>, k: nat, y: seq<T>)
    requires k < |xs|
    ensures multiset(Batches.Flatten(xs[k := y])) + multiset(xs[k])
            == multiset(Batches.Flatten(xs)) + multiset(y)
  {
    assert xs == xs[..k] + [xs[k]] + xs[k + 1..];
    assert xs[k := y] == xs[..k] + [y] + xs[k + 1..];
    FlattenAppend(xs[..k] + [xs[k]], xs[k + 1..]);
    FlattenAppend(xs[..k], [xs[k]]);
    FlattenAppend(xs[..k] + [y], xs[k + 1..]);
    FlattenAppend(xs[..k], [y]);
    assert Batches.Flatten([y]) == y + Batches.Flatten([]);
    assert Batches.Flatten([xs[k]]) == xs[k] + Batches.Flatten([]);
  }

  /** Appending a child appends the files below it. */
  lemma LeavesAddChild(n: Node, c: Node)
    requires n.nodeType == Dir
    ensures Leaves(AddChild(n, c)) == Leaves(n) + Leaves(c)
  {
    var r := AddChild(n, c);
    assert LeafLists(Kids(r)) == LeafLists(Kids(n)) + [Leaves(c)];
    LeavesOfDir(n);
    LeavesOfDir(r);
    FlattenAppend(LeafLists(Kids(n)), [Leaves(c)]);
    assert Batches.Flatten([Leaves(c)]) == Leaves(c) + Batches.Flatten([]);
  }

  /** Replacing a child swaps the files below it. */
  lemma LeavesReplaceChild(n: Node, k: nat, c: Node)
    requires n.nodeType == Dir && k < |Kids(n)|
    ensures var r := n.(children := List(Kids(n)[k := c]));
            multiset(Leaves(r)) + multiset(Leaves(Kids(n)[k])) == multiset(Leaves(n)) + multiset(Leaves(c))
  {
    var r := n.(children := List(Kids(n)[k := c]));
    assert LeafLists(Kids(r)) == LeafLists(Kids(n))[k := Leaves(c)];
    LeavesOfDir(n);
    LeavesOfDir(r);
    FlattenUpdate(LeafLists(Kids(n)), k, Leaves(c));
  }

  // ---------------------------------------------------------------------
  // buildTree
  // ---------------------------------------------------------------------

  /** `currentPath` after a segment: the segment itself at the root, the
      path so far, a slash and the segment below it. */
  function JoinPath(prefix: string, segment: string): string {
    if prefix == "" then segment else prefix + "/" + segment
  }

  predicate IsDirAt(n: Node, path: string) {
    n.nodeType == Dir && n.path == path
  }

  /** The first child directory with the given path, from index `from`. */
  function FindDir(cs: seq<Node>, path: string, from: nat): (r: Option<nat>)
    decreases |cs| - from
    ensures r.Some? ==> from <= r.value < |cs| && IsDirAt(cs[r.value], path)
    ensures r.None? ==> forall k :: from <= k < |cs| ==> !IsDirAt(cs[k], path)
  {
    if from >= |cs| then None
    else if IsDirAt(cs[from], path) then Some(from)
    else FindDir(cs, path, from + 1)
  }

  /** `ensureDirectoryPath` followed by `addChild` of the file leaf, from
      segment `i` on, at directory `n` (whose path is the `currentPath` so
      far): every segment but the last names a directory, found among the
      children by its path or else created and appended; the root's own
      path "" leads back to the root; the leaf goes to the last directory
      reached. */
  function Place(n: Node, segs: seq<string>, i: nat, leaf: Node): (r: Node)
    requires n.nodeType == Dir
    decreases |segs| - i
    ensures r.(children := n.children) == n
  {
    if i + 1 >= |segs| then AddChild(n, leaf)
    else
      var p := JoinPath(n.path, segs[i]);
      if p == "" then Place(n, segs, i + 1, leaf)
      else match FindDir(Kids(n), p, 0)
        case Some(k) => n.(children := List(Kids(n)[k := Place(Kids(n)[k], segs, i + 1, leaf)]))
        case None => AddChild(n, Place(NewDir(segs[i], p), segs, i + 1, leaf))
  }

  /** Placing a file adds exactly that file below the directory. */
  lemma {:induction false} PlaceLeaves(n: Node, segs: seq<string>, i: nat, leaf: Node)
    requires n.nodeType == Dir && leaf.nodeType == File
    ensures multiset(Leaves(Place(n, segs, i, leaf))) == multiset(Leaves(n)) + multiset{leaf}
    decreases |segs| - i
  {
    if i + 1 >= |segs| {
      LeavesAddChild(n, leaf);
    } else {
      var p := JoinPath(n.path, segs[i]);
      if p == "" {
        PlaceLeaves(n, segs, i + 1, leaf);
      } else {
        match FindDir(Kids(n), p, 0)
        case Some(k) =>
          var c := Place(Kids(n)[k], segs, i + 1, leaf);
          assert Place(n, segs, i, leaf) == n.(children := List(Kids(n)[k := c]));
          PlaceLeaves(Kids(n)[k], segs, i + 1, leaf);
          ReplaceByGrown(n, k, c, leaf);
        case None =>
          var d := NewDir(segs[i], p);
          assert Place(n, segs, i, leaf) == AddChild(n, Place(d, segs, i + 1, leaf));
          PlaceLeaves(d, segs, i + 1, leaf);
          LeavesAddChild(n, Place(d, segs, i + 1, leaf));
          assert Leaves(d) == [];
      }
    }
  }

  /** A child replaced by one with one more file adds that file. */
  lemma ReplaceByGrown(n: Node, k: nat, c: Node, leaf: Node)
    requires n.nodeType == Dir && k < |Kids(n)|
    requires multiset(Leaves(c)) == multiset(Leaves(Kids(n)[k])) + multiset{leaf}
    ensures multiset(Leaves(n.(children := List(Kids(n)[k := c])))) == multiset(Leaves(n)) + multiset{leaf}
  {
    var r := n.(children := List(Kids(n)[k := c]));
    LeavesReplaceChild(n, k, c);
    MultisetCancel(multiset(Leaves(r)), multiset(Leaves(Kids(n)[k])), multiset(Leaves(n)), multiset{leaf});
  }

  lemma MultisetCancel<T>(a: multiset<T>, b: multiset<T>, c: multiset<T>, d: multiset<T>)
    requires a + b == c + (b + d)
    ensures a == c + d
  {
    forall x
      ensures a[x] == (c + d)[x]
    {
      assert (a + b)[x] == (c + (b + d))[x];
    }
  }

  // ---------------------------------------------------------------------
  // Tree invariants kept by placing files
  // ---------------------------------------------------------------------

  /** Every directory with a list of children has a file below it, so the
      average of its commits never divides by zero. */
  predicate Populated(n: Node)
    decreases n
  {
    n.nodeType == File
    || ((n.children.List? ==> |Leaves(n)| > 0)
        && forall k :: 0 <= k < |Kids(n)| ==> Populated(Kids(n)[k]))
  }

  /** Every child directory's path is its parent's path joined with its
      name, never "", and no two child directories share a path: each
      directory prefix exists once. */
  predicate WellPathed(n: Node)
    decreases n
  {
    n.nodeType == File
    || (&& (forall k :: 0 <= k < |Kids(n)| && Kids(n)[k].nodeType == Dir ==>
              Kids(n)[k].path == JoinPath(n.path, Kids(n)[k].name) && Kids(n)[k].path != "")
        && (forall k, l :: 0 <= k < l < |Kids(n)| && Kids(n)[k].nodeType == Dir && Kids(n)[l].nodeType == Dir ==>
              Kids(n)[k].path != Kids(n)[l].path)
        && (forall k :: 0 <= k < |Kids(n)| ==> WellPathed(Kids(n)[k])))
  }

  /** No directory carries a height or a width. */
  predicate DirsUnsized(n: Node)
    decreases n
  {
    n.nodeType == File
    || (n.height.None? && n.width.None? && forall k :: 0 <= k < |Kids(n)| ==> DirsUnsized(Kids(n)[k]))
  }

  lemma {:induction false} PlacePopulated(n: Node, segs: seq<string>, i: nat, leaf: Node)
    requires n.nodeType == Dir && leaf.nodeType == File && Populated(n)
    ensures Populated(Place(n, segs, i, leaf))
    decreases |segs| - i
  {
    var r := Place(n, segs, i, leaf);
    PlaceLeaves(n, segs, i, leaf);
    assert |multiset(Leaves(r))| > 0;
    if i + 1 >= |segs| {
      PopulatedAppend(n, leaf);
    } else {
      var p := JoinPath(n.path, segs[i]);
      if p == "" {
        PlacePopulated(n, segs, i + 1, leaf);
      } else {
        match FindDir(Kids(n), p, 0)
        case Some(k) =>
          PlacePopulated(Kids(n)[k], segs, i + 1, leaf);
          PopulatedReplace(n, k, Place(Kids(n)[k], segs, i + 1, leaf));
        case None =>
          PlacePopulated(NewDir(segs[i], p), segs, i + 1, leaf);
          PopulatedAppend(n, Place(NewDir(segs[i], p), segs, i + 1, leaf));
      }
    }
  }

  lemma PopulatedAppend(n: Node, c: Node)
    requires n.nodeType == Dir && Populated(n) && Populated(c) && |Leaves(AddChild(n, c))| > 0
    ensures Populated(AddChild(n, c))
  {
    var r := AddChild(n, c);
    assert forall k :: 0 <= k < |Kids(n)| ==> Kids(r)[k] == Kids(n)[k];
  }

  lemma PopulatedReplace(n: Node, k: nat, c: Node)
    requires n.nodeType == Dir && k < |Kids(n)| && Populated(n) && Populated(c)
    requires |Leaves(n.(children := List(Kids(n)[k := c])))| > 0
    ensures Populated(n.(children := List(Kids(n)[k := c])))
  {
  }

  lemma {:induction false} PlaceWellPathed(n: Node, segs: seq<string>, i: nat, leaf: Node)
    requires n.nodeType == Dir && leaf.nodeType == File && WellPathed(n)
    ensures WellPathed(Place(n, segs, i, leaf))
    decreases |segs| - i
  {
    if i + 1 >= |segs| {
      WellPathedAppend(n, leaf);
    } else {
      var p := JoinPath(n.path, segs[i]);
      if p == "" {
        PlaceWellPathed(n, segs, i + 1, leaf);
      } else {
        match FindDir(Kids(n), p, 0)
        case Some(k) =>
          PlaceWellPathed(Kids(n)[k], segs, i + 1, leaf);
          WellPathedReplace(n, k, Place(Kids(n)[k], segs, i + 1, leaf));
        case None =>
          PlaceWellPathed(NewDir(segs[i], p), segs, i + 1, leaf);
          WellPathedAppend(n, Place(NewDir(segs[i], p), segs, i + 1, leaf));
      }
    }
  }

  lemma WellPathedAppend(n: Node, c: Node)
    requires n.nodeType == Dir && WellPathed(n) && WellPathed(c)
    requires c.nodeType == Dir ==> c.path == JoinPath(n.path, c.name) && c.path != ""
    requires c.nodeType == Dir ==> forall k :: 0 <= k < |Kids(n)| ==> !IsDirAt(Kids(n)[k], c.path)
    ensures WellPathed(AddChild(n, c))
  {
    var r := AddChild(n, c);
    assert forall k :: 0 <= k < |Kids(n)| ==> Kids(r)[k] == Kids(n)[k];
  }

  lemma WellPathedReplace(n: Node, k: nat, c: Node)
    requires n.nodeType == Dir && k < |Kids(n)| && WellPathed(n) && WellPathed(c)
    requires c.nodeType == Kids(n)[k].nodeType && c.path == Kids(n)[k].path && c.name == Kids(n)[k].name
    ensures WellPathed(n.(children := List(Kids(n)[k := c])))
  {
  }

  lemma {:induction false} PlaceDirsUnsized(n: Node, segs: seq<string>, i: nat, leaf: Node)
    requires n.nodeType == Dir && leaf.nodeType == File && DirsUnsized(n)
    ensures DirsUnsized(Place(n, segs, i, leaf))
    decreases |segs| - i
  {
    if i + 1 < |segs| {
      var p := JoinPath(n.path, segs[i]);
      if p == "" {
        PlaceDirsUnsized(n, segs, i + 1, leaf);
      } else {
        match FindDir(Kids(n), p, 0)
        case Some(k) =>
          PlaceDirsUnsized(Kids(n)[k], segs, i + 1, leaf);
        case None =>
          PlaceDirsUnsized(NewDir(segs[i], p), segs, i + 1, leaf);
      }
    }
  }

  /** `currentPath` once the loop of `ensureDirectoryPath` is over: the
      path of the directory the file is added to. */
  function DirPath(prefix: string, segs: seq<string>, i: nat): string
    decreases |segs| - i
  {
    if i + 1 >= |segs| then prefix else DirPath(JoinPath(prefix, segs[i]), segs, i + 1)
  }

  /** Somewhere below `n` the directory with path `path` has `c` among its
      children. */
  predicate HasChildAt(n: Node, path: string, c: Node)
    decreases n
  {
    (IsDirAt(n, path) && c in Kids(n))
    || exists k :: 0 <= k < |Kids(n)| && HasChildAt(Kids(n)[k], path, c)
  }

  /** The file lands in the directory named by every segment of its path
      but the last. */
  lemma {:induction false} PlacePutsUnder(n: Node, segs: seq<string>, i: nat, leaf: Node)
    requires n.nodeType == Dir
    ensures HasChildAt(Place(n, segs, i, leaf), DirPath(n.path, segs, i), leaf)
    decreases |segs| - i
  {
    var r := Place(n, segs, i, leaf);
    if i + 1 >= |segs| {
      assert Kids(r)[|Kids(n)|] == leaf;
    } else {
      var p := JoinPath(n.path, segs[i]);
      if p == "" {
        PlacePutsUnder(n, segs, i + 1, leaf);
      } else {
        match FindDir(Kids(n), p, 0)
        case Some(k) =>
          PlacePutsUnder(Kids(n)[k], segs, i + 1, leaf);
          assert Kids(r)[k] == Place(Kids(n)[k], segs, i + 1, leaf);
        case None =>
          var d := NewDir(segs[i], p);
          PlacePutsUnder(d, segs, i + 1, leaf);
          assert Kids(r)[|Kids(n)|] == Place(d, segs, i + 1, leaf);
      }
    }
  }

  /** A later file never moves an earlier one. */
  lemma {:induction false} PlaceKeepsChildAt(n: Node, segs: seq<string>, i: nat, leaf: Node, path: string, c: Node)
    requires n.nodeType == Dir && c.nodeType == File && HasChildAt(n, path, c)
    ensures HasChildAt(Place(n, segs, i, leaf), path, c)
    decreases |segs| - i
  {
    var r := Place(n, segs, i, leaf);
    if i + 1 >= |segs| {
      if IsDirAt(n, path) && c in Kids(n) {
        var j :| 0 <= j < |Kids(n)| && Kids(n)[j] == c;
        assert Kids(r)[j] == c;
      } else {
        var j :| 0 <= j < |Kids(n)| && HasChildAt(Kids(n)[j], path, c);
        assert Kids(r)[j] == Kids(n)[j];
      }
    } else {
      var p := JoinPath(n.path, segs[i]);
      if p == "" {
        PlaceKeepsChildAt(n, segs, i + 1, leaf, path, c);
      } else {
        match FindDir(Kids(n), p, 0)
        case Some(k) =>
          if IsDirAt(n, path) && c in Kids(n) {
            var j :| 0 <= j < |Kids(n)| && Kids(n)[j] == c;
            assert Kids(r)[j] == c;
          } else {
            var j :| 0 <= j < |Kids(n)| && HasChildAt(Kids(n)[j], path, c);
            if j == k {
              PlaceKeepsChildAt(Kids(n)[k], segs, i + 1, leaf, path, c);
            }
            assert HasChildAt(Kids(r)[j], path, c);
          }
        case None =>
          if IsDirAt(n, path) && c in Kids(n) {
            var j :| 0 <= j < |Kids(n)| && Kids(n)[j] == c;
            assert Kids(r)[j] == c;
          } else {
            var j :| 0 <= j < |Kids(n)| && HasChildAt(Kids(n)[j], path, c);
            assert Kids(r)[j] == Kids(n)[j];
          }
      }
    }
  }

  // ---------------------------------------------------------------------
  // The whole tree
  // ---------------------------------------------------------------------

  /** The root `buildTree` starts from: a directory named "root" with the
      empty path. */
  function RootNode(): (r: Node)
    ensures r.nodeType == Dir && r.name == "root" && r.path == "" && Leaves(r) == []
  {
    NewDir("root", "")
  }

  /** `addFileToTree`: the path split at "/" picks the directory. */
  function AddFileToTree(tree: Node, info: FileInfo, k: FileKnowledge): (r: Node)
    requires tree.nodeType == Dir
    ensures r.(children := tree.children) == tree
  {
    Place(tree, JavaSplit(info.filePath, '/'), 0, FileNode(info, k))
  }

  /** The paths `buildTree` visits all have a FileInfo and a FileKnowledge
      row; a missing FileKnowledge would be dereferenced. */
  predicate Joinable(order: seq<string>, infos: map<string, FileInfo>, knowledge: map<string, FileKnowledge>) {
    forall k :: 0 <= k < |order| ==> order[k] in infos && order[k] in knowledge
  }

  /** The leaf each visited path becomes. */
  function FileNodes(order: seq<string>, infos: map<string, FileInfo>, knowledge: map<string, FileKnowledge>)
    : (r: seq<Node>)
    requires Joinable(order, infos, knowledge)
    ensures |r| == |order|
  {
    seq(|order|, k requires 0 <= k < |order| => FileNode(infos[order[k]], knowledge[order[k]]))
  }

  /** The `forEach` over the FileInfo map, in the map's iteration order
      `order`. */
  function AddFiles(tree: Node, order: seq<string>, infos: map<string, FileInfo>,
                    knowledge: map<string, FileKnowledge>): (r: Node)
    requires tree.nodeType == Dir && Joinable(order, infos, knowledge)
    decreases |order|
    ensures r.(children := tree.children) == tree
  {
    if |order| == 0 then tree
    else AddFiles(AddFileToTree(tree, infos[order[0]], knowledge[order[0]]), order[1..], infos, knowledge)
  }

  /** Every visited path becomes exactly one more leaf. */
  lemma {:induction false} AddFilesLeaves(tree: Node, order: seq<string>, infos: map<string, FileInfo>,
                                          knowledge: map<string, FileKnowledge>)
    requires tree.nodeType == Dir && Joinable(order, infos, knowledge)
    ensures multiset(Leaves(AddFiles(tree, order, infos, knowledge)))
            == multiset(Leaves(tree)) + multiset(FileNodes(order, infos, knowledge))
    decreases |order|
  {
    if |order| > 0 {
      var leaf := FileNode(infos[order[0]], knowledge[order[0]]);
      var t1 := AddFileToTree(tree, infos[order[0]], knowledge[order[0]]);
      PlaceLeaves(tree, JavaSplit(infos[order[0]].filePath, '/'), 0, leaf);
      AddFilesLeaves(t1, order[1..], infos, knowledge);
      FileNodesCons(order, infos, knowledge);
      MultisetShift(multiset(Leaves(AddFiles(t1, order[1..], infos, knowledge))), multiset(Leaves(t1)),
                    multiset(Leaves(tree)), multiset(FileNodes(order[1..], infos, knowledge)), multiset{leaf});
    }
  }

  lemma FileNodesCons(order: seq<string>, infos: map<string, FileInfo>, knowledge: map<string, FileKnowledge>)
    requires Joinable(order, infos, knowledge) && |order| > 0
    ensures multiset(FileNodes(order, infos, knowledge))
            == multiset{FileNode(infos[order[0]], knowledge[order[0]])} + multiset(FileNodes(order[1..], infos, knowledge))
  {
    assert FileNodes(order, infos, knowledge)
           == [FileNode(infos[order[0]], knowledge[order[0]])] + FileNodes(order[1..], infos, knowledge);
  }

  lemma MultisetShift<T>(a: multiset<T>, b: multiset<T>, c: multiset<T>, d: multiset<T>, x: multiset<T>)
    requires a == b + d && b == c + x
    ensures a == c + (x + d)
  {
    forall y
      ensures a[y] == (c + (x + d))[y]
    {
    }
  }

  /** Placing the visited paths keeps the three tree invariants. */
  lemma {:induction false} AddFilesInvariants(tree: Node, order: seq<string>, infos: map<string, FileInfo>,
                                              knowledge: map<string, FileKnowledge>)
    requires tree.nodeType == Dir && Joinable(order, infos, knowledge)
    requires Populated(tree) && WellPathed(tree) && DirsUnsized(tree)
    ensures var r := AddFiles(tree, order, infos, knowledge);
            Populated(r) && WellPathed(r) && DirsUnsized(r)
    decreases |order|
  {
    if |order| > 0 {
      var segs := JavaSplit(infos[order[0]].filePath, '/');
      var leaf := FileNode(infos[order[0]], knowledge[order[0]]);
      PlacePopulated(tree, segs, 0, leaf);
      PlaceWellPathed(tree, segs, 0, leaf);
      PlaceDirsUnsized(tree, segs, 0, leaf);
      AddFilesInvariants(AddFileToTree(tree, infos[order[0]], knowledge[order[0]]), order[1..], infos, knowledge);
    }
  }

  /** Each visited path ends up as a child of the directory named by the
      segments before its last one, and earlier files stay where they
      were. */
  lemma {:induction false} AddFilesPlaces(tree: Node, order: seq<string>, infos: map<string, FileInfo>,
                                          knowledge: map<string, FileKnowledge>, j: nat)
    requires tree.nodeType == Dir && Joinable(order, infos, knowledge) && j < |order|
    ensures HasChildAt(AddFiles(tree, order, infos, knowledge),
                       DirPath(tree.path, JavaSplit(infos[order[j]].filePath, '/'), 0),
                       FileNode(infos[order[j]], knowledge[order[j]]))
    decreases |order|
  {
    var t1 := AddFileToTree(tree, infos[order[0]], knowledge[order[0]]);
    if j == 0 {
      PlacePutsUnder(tree, JavaSplit(infos[order[0]].filePath, '/'), 0, FileNode(infos[order[0]], knowledge[order[0]]));
      AddFilesKeep(t1, order[1..], infos, knowledge, DirPath(tree.path, JavaSplit(infos[order[0]].filePath, '/'), 0),
                   FileNode(infos[order[0]], knowledge[order[0]]));
    } else {
      assert order[1..][j - 1] == order[j];
      AddFilesPlaces(t1, order[1..], infos, knowledge, j - 1);
    }
  }

  lemma {:induction false} AddFilesKeep(tree: Node, order: seq<string>, infos: map<string, FileInfo>,
                                        knowledge: map<string, FileKnowledge>, path: string, c: Node)
    requires tree.nodeType == Dir && Joinable(order, infos, knowledge)
    requires c.nodeType == File && HasChildAt(tree, path, c)
    ensures HasChildAt(AddFiles(tree, order, infos, knowledge), path, c)
    decreases |order|
  {
    if |order| > 0 {
      var segs := JavaSplit(infos[order[0]].filePath, '/');
      PlaceKeepsChildAt(tree, segs, 0, FileNode(infos[order[0]], knowledge[order[0]]), path, c);
      AddFilesKeep(AddFileToTree(tree, infos[order[0]], knowledge[order[0]]), order[1..], infos, knowledge, path, c);
    }
  }

  /** `buildTree`. */
  function BuildTree(order: seq<string>, infos: map<string, FileInfo>, knowledge: map<string, FileKnowledge>)
    : (r: Node)
    requires Joinable(order, infos, knowledge)
    ensures r.nodeType == Dir && r.name == "root" && r.path == ""
  {
    AddFiles(RootNode(), order, infos, knowledge)
  }

  /** The tree `buildTree` returns: its leaves are exactly one leaf per
      visited path, each a child of the directory its path names; every
      directory with children has a file below it, the directory paths are
      the joined segments, each once among its siblings; no directory is
      sized. */
  lemma BuildTreeShape(order: seq<string>, infos: map<string, FileInfo>, knowledge: map<string, FileKnowledge>)
    requires Joinable(order, infos, knowledge)
    ensures var r := BuildTree(order, infos, knowledge);
            && multiset(Leaves(r)) == multiset(FileNodes(order, infos, knowledge))
            && Populated(r) && WellPathed(r) && DirsUnsized(r)
  {
    AddFilesLeaves(RootNode(), order, infos, knowledge);
    AddFilesInvariants(RootNode(), order, infos, knowledge);
  }

  lemma BuildTreePlaces(order: seq<string>, infos: map<string, FileInfo>, knowledge: map<string, FileKnowledge>, j: nat)
    requires Joinable(order, infos, knowledge) && j < |order|
    ensures HasChildAt(BuildTree(order, infos, knowledge), DirPath("", JavaSplit(order[j], '/'), 0),
                       FileNode(infos[order[j]], knowledge[order[j]]))
    requires infos[order[j]].filePath == order[j]
  {
    AddFilesPlaces(RootNode(), order, infos, knowledge, j);
  }

  // ---------------------------------------------------------------------
  // calculateMaxFileValues
  // ---------------------------------------------------------------------

  datatype MaxFileValues = MaxFileValues(maxCommits: int, maxCommitsInHotSpotAnalysisPeriod: int, maxLinesOfCode: int)

  function OrZero(x: Option<int>): int {
    if x.Some? then x.value else 0
  }

  /** `IntStream.max().orElse(0)`: the largest value, or 0 for none. */
  function MaxOrZero(xs: seq<int>): (m: int)
    ensures |xs| == 0 ==> m == 0
    ensures forall k :: 0 <= k < |xs| ==> xs[k] <= m
    ensures |xs| > 0 ==> m in xs
  {
    if |xs| == 0 then 0
    else if |xs| == 1 then xs[0]
    else
      var rest := MaxOrZero(xs[1..]);
      if xs[0] >= rest then xs[0] else rest
  }

  function CommitCounts(infos: seq<FileInfo>): (r: seq<int>)
    ensures |r| == |infos| && forall k :: 0 <= k < |infos| ==> r[k] == infos[k].totalCommits
  {
    seq(|infos|, k requires 0 <= k < |infos| => infos[k].totalCommits)
  }

  function HotSpotCounts(infos: seq<FileInfo>): (r: seq<int>)
    ensures |r| == |infos| && forall k :: 0 <= k < |infos| ==> r[k] == infos[k].commitsInHotSpotAnalysisPeriod
  {
    seq(|infos|, k requires 0 <= k < |infos| => infos[k].commitsInHotSpotAnalysisPeriod)
  }

  /** The code line counts, a null count read as 0. */
  function LineCounts(infos: seq<FileInfo>): (r: seq<int>)
    ensures |r| == |infos| && forall k :: 0 <= k < |infos| ==> r[k] == OrZero(infos[k].codeLines)
  {
    seq(|infos|, k requires 0 <= k < |infos| => OrZero(infos[k].codeLines))
  }

  /** The three maxima over all FileInfo rows. */
  function CalculateMaxFileValues(infos: seq<FileInfo>): (r: MaxFileValues)
    ensures forall k :: 0 <= k < |infos| ==> infos[k].totalCommits <= r.maxCommits
    ensures forall k :: 0 <= k < |infos| ==> infos[k].commitsInHotSpotAnalysisPeriod <= r.maxCommitsInHotSpotAnalysisPeriod
    ensures forall k :: 0 <= k < |infos| ==> OrZero(infos[k].codeLines) <= r.maxLinesOfCode
    ensures |infos| == 0 ==> r == MaxFileValues(0, 0, 0)
  {
    var commits := CommitCounts(infos);
    var hot := HotSpotCounts(infos);
    var lines := LineCounts(infos);
    assert forall k :: 0 <= k < |infos| ==> commits[k] <= MaxOrZero(commits);
    assert forall k :: 0 <= k < |infos| ==> hot[k] <= MaxOrZero(hot);
    assert forall k :: 0 <= k < |infos| ==> lines[k] <= MaxOrZero(lines);
    MaxFileValues(MaxOrZero(commits), MaxOrZero(hot), MaxOrZero(lines))
  }

  /** Each maximum over a non-empty input is some row's value. */
  lemma MaximaAttained(infos: seq<FileInfo>) returns (c: nat, h: nat, l: nat)
    requires |infos| > 0
    ensures var mx := CalculateMaxFileValues(infos);
            && c < |infos| && infos[c].totalCommits == mx.maxCommits
            && h < |infos| && infos[h].commitsInHotSpotAnalysisPeriod == mx.maxCommitsInHotSpotAnalysisPeriod
            && l < |infos| && OrZero(infos[l].codeLines) == mx.maxLinesOfCode
  {
    var commits := CommitCounts(infos);
    var hot := HotSpotCounts(infos);
    var lines := LineCounts(infos);
    c :| 0 <= c < |commits| && commits[c] == MaxOrZero(commits);
    h :| 0 <= h < |hot| && hot[h] == MaxOrZero(hot);
    l :| 0 <= l < |lines| && lines[l] == MaxOrZero(lines);
  }

  // ---------------------------------------------------------------------
  // setFileDimensions
  // ---------------------------------------------------------------------

  /** `Math.round` of a double: the nearest integer, halves upwards. */
  function JavaRound(x: real): (r: int)
    ensures x - 0.5 < r as real <= x + 0.5
  {
    (x + 0.5).Floor
  }

  /** The width: lines of code over the largest line count, rounded to
      hundredths; 0 without a line count or with a largest count of 0. */
  function Width(n: Node, mx: MaxFileValues): (r: real)
    ensures (r * 100.0).Floor as real == r * 100.0
    ensures n.linesOfCode.None? ==> r == 0.0
  {
    if n.linesOfCode.Some? && mx.maxLinesOfCode > 0 then
      JavaRound(n.linesOfCode.value as real * 100.0 / mx.maxLinesOfCode as real) as real / 100.0
    else 0.0
  }

  /** The height: the emphasis curve, `(e^(2x) - 1) / (e^2 - 1)` in the
      source, applied to commits over the largest commit count, rounded to
      hundredths; 0 without a commit count or with a largest count of 0. */
  function Height(n: Node, mx: MaxFileValues, emphasis: real -> real): (r: real)
    ensures (r * 100.0).Floor as real == r * 100.0
    ensures n.commits.None? ==> r == 0.0
  {
    if n.commits.Some? && mx.maxCommits > 0 then
      JavaRound(emphasis(n.commits.value as real / mx.maxCommits as real) * 100.0) as real / 100.0
    else 0.0
  }

  /** A width lies in [0, 1] when the line count lies between 0 and the
      largest one; the largest file is 1 wide and an empty one 0. */
  lemma WidthBounds(n: Node, mx: MaxFileValues)
    requires n.linesOfCode.Some? && 0 <= n.linesOfCode.value <= mx.maxLinesOfCode
    ensures 0.0 <= Width(n, mx) <= 1.0
    ensures n.linesOfCode.value == mx.maxLinesOfCode > 0 ==> Width(n, mx) == 1.0
    ensures n.linesOfCode.value == 0 ==> Width(n, mx) == 0.0
  {
    if mx.maxLinesOfCode > 0 {
      var q := n.linesOfCode.value as real * 100.0 / mx.maxLinesOfCode as real;
      assert 0.0 <= q <= 100.0 by {
        assert n.linesOfCode.value as real <= mx.maxLinesOfCode as real;
      }
      if n.linesOfCode.value == mx.maxLinesOfCode {
        HundredTimesOver(mx.maxLinesOfCode as real);
      }
    }
  }

  /** A positive count times 100 over itself is 100. */
  lemma HundredTimesOver(m: real)
    requires m > 0.0
    ensures m * 100.0 / m == 100.0
  {
    assert m * 100.0 == 100.0 * m;
  }

  /** A height lies in [0, 1] when the curve maps [0, 1] into [0, 1] and
      the commit count lies between 0 and the largest one. */
  lemma HeightBounds(n: Node, mx: MaxFileValues, emphasis: real -> real)
    requires n.commits.Some? && 0 <= n.commits.value <= mx.maxCommits
    requires forall x: real :: 0.0 <= x <= 1.0 ==> 0.0 <= emphasis(x) <= 1.0
    ensures 0.0 <= Height(n, mx, emphasis) <= 1.0
  {
    if mx.maxCommits > 0 {
      var x := n.commits.value as real / mx.maxCommits as real;
      assert 0.0 <= x <= 1.0 by {
        assert n.commits.value as real <= mx.maxCommits as real;
      }
      assert 0.0 <= emphasis(x) <= 1.0;
    }
  }

  /** `setFileDimensions`: directories pass the call on to their children
      and stay unsized; each file gets its height and width. */
  function SetFileDimensions(n: Node, mx: MaxFileValues, emphasis: real -> real): (r: Node)
    decreases n
    ensures r.nodeType == n.nodeType && |Kids(r)| == |Kids(n)|
    ensures n.nodeType == Dir ==> r.(children := n.children) == n
    ensures n.nodeType == File ==>
              r == n.(height := Some(Height(n, mx, emphasis)), width := Some(Width(n, mx)))
  {
    if n.nodeType == Dir then
      if n.children.List? then
        var cs := n.children.nodes;
        n.(children := List(seq(|cs|, k requires 0 <= k < |cs| => SetFileDimensions(cs[k], mx, emphasis))))
      else n
    else n.(height := Some(Height(n, mx, emphasis)), width := Some(Width(n, mx)))
  }

  /** Sizing every node of a list. */
  function SizeAll(xs: seq<Node>, mx: MaxFileValues, emphasis: real -> real): (r: seq<Node>)
    ensures |r| == |xs|
  {
    seq(|xs|, k requires 0 <= k < |xs| => SetFileDimensions(xs[k], mx, emphasis))
  }

  lemma {:induction false} SizeAllFlatten(xss: seq<seq<Node>>, mx: MaxFileValues, emphasis: real -> real)
    ensures SizeAll(Batches.Flatten(xss), mx, emphasis)
            == Batches.Flatten(seq(|xss|, k requires 0 <= k < |xss| => SizeAll(xss[k], mx, emphasis)))
    decreases |xss|
  {
    if |xss| > 0 {
      SizeAllFlatten(xss[1..], mx, emphasis);
      var ys := seq(|xss|, k requires 0 <= k < |xss| => SizeAll(xss[k], mx, emphasis));
      assert ys[1..] == seq(|xss[1..]|, k requires 0 <= k < |xss[1..]| => SizeAll(xss[1..][k], mx, emphasis));
      assert SizeAll(xss[0] + Batches.Flatten(xss[1..]), mx, emphasis)
             == SizeAll(xss[0], mx, emphasis) + SizeAll(Batches.Flatten(xss[1..]), mx, emphasis);
    }
  }

  /** The files below a sized tree are the files below the tree, each
      sized. */
  lemma {:induction false} SetFileDimensionsLeaves(n: Node, mx: MaxFileValues, emphasis: real -> real)
    ensures Leaves(SetFileDimensions(n, mx, emphasis)) == SizeAll(Leaves(n), mx, emphasis)
    decreases n
  {
    var r := SetFileDimensions(n, mx, emphasis);
    if n.nodeType == Dir && n.children.List? {
      var cs := Kids(n);
      forall k | 0 <= k < |cs|
        ensures Leaves(Kids(r)[k]) == SizeAll(Leaves(cs[k]), mx, emphasis)
      {
        SetFileDimensionsLeaves(cs[k], mx, emphasis);
      }
      LeavesOfDir(n);
      LeavesOfDir(r);
      SizeAllFlatten(LeafLists(cs), mx, emphasis);
      assert LeafLists(Kids(r))
             == seq(|cs|, k requires 0 <= k < |cs| => SizeAll(LeafLists(cs)[k], mx, emphasis));
    }
  }

  /** Sizing keeps directories populated and unsized. */
  lemma {:induction false} SetFileDimensionsInvariants(n: Node, mx: MaxFileValues, emphasis: real -> real)
    requires Populated(n) && DirsUnsized(n)
    ensures var r := SetFileDimensions(n, mx, emphasis);
            Populated(r) && DirsUnsized(r)
    decreases n
  {
    var r := SetFileDimensions(n, mx, emphasis);
    if n.nodeType == Dir && n.children.List? {
      forall k | 0 <= k < |Kids(n)|
        ensures Populated(Kids(r)[k]) && DirsUnsized(Kids(r)[k])
      {
        SetFileDimensionsInvariants(Kids(n)[k], mx, emphasis);
      }
      SetFileDimensionsLeaves(n, mx, emphasis);
    }
  }

  // ---------------------------------------------------------------------
  // calculateDirectoryStatistics
  // ---------------------------------------------------------------------

  datatype NodeStats = NodeStats(numberOfFiles: int, totalLinesOfCode: int, totalCommits: int)

  function Plus(a: NodeStats, b: NodeStats): NodeStats {
    NodeStats(a.numberOfFiles + b.numberOfFiles, a.totalLinesOfCode + b.totalLinesOfCode, a.totalCommits + b.totalCommits)
  }

  lemma PlusAssociative(a: NodeStats, b: NodeStats, c: NodeStats)
    ensures Plus(a, Plus(b, c)) == Plus(Plus(a, b), c)
  {
  }

  /** The per-child statistics added up from (0, 0, 0). */
  function Total(ss: seq<NodeStats>): NodeStats {
    if |ss| == 0 then NodeStats(0, 0, 0) else Plus(ss[0], Total(ss[1..]))
  }

  /** What one file adds: itself, its lines and its commits, a null count
      read as 0. */
  function One(f: Node): NodeStats {
    NodeStats(1, OrZero(f.linesOfCode), OrZero(f.commits))
  }

  /** What a list of files adds up to. */
  function Tally(files: seq<Node>): (r: NodeStats)
    ensures r.numberOfFiles == |files|
  {
    if |files| == 0 then NodeStats(0, 0, 0)
    else
      var rest := Tally(files[1..]);
      assert One(files[0]).numberOfFiles == 1;
      Plus(One(files[0]), rest)
  }

  lemma {:induction false} TallyAppend(a: seq<Node>, b: seq<Node>)
    ensures Tally(a + b) == Plus(Tally(a), Tally(b))
    decreases |a|
  {
    if |a| > 0 {
      assert (a + b)[0] == a[0] && (a + b)[1..] == a[1..] + b;
      TallyAppend(a[1..], b);
      PlusAssociative(One(a[0]), Tally(a[1..]), Tally(b));
    } else {
      assert a + b == b;
      var tb := Tally(b);
      assert Plus(NodeStats(0, 0, 0), tb) == NodeStats(tb.numberOfFiles, tb.totalLinesOfCode, tb.totalCommits);
    }
  }

  /** The tally of each list. */
  function Tallies(xss: seq<seq<Node>>): (r: seq<NodeStats>)
    ensures |r| == |xss| && forall k :: 0 <= k < |xss| ==> r[k] == Tally(xss[k])
  {
    seq(|xss|, k requires 0 <= k < |xss| => Tally(xss[k]))
  }

  /** Adding up per-list tallies is tallying the flattened lists. */
  lemma {:induction false} TotalOfTallies(xss: seq<seq<Node>>)
    ensures Total(Tallies(xss)) == Tally(Batches.Flatten(xss))
    decreases |xss|
  {
    if |xss| > 0 {
      var ts, rest := Tallies(xss), Tallies(xss[1..]);
      assert ts[1..] == rest;
      assert Total(ts) == Plus(Tally(xss[0]), Total(rest));
      TotalOfTallies(xss[1..]);
      assert Batches.Flatten(xss) == xss[0] + Batches.Flatten(xss[1..]);
      TallyAppend(xss[0], Batches.Flatten(xss[1..]));
    }
  }

  /** `calculateDirectoryStatistics`: a file counts as one file with its
      lines and commits; a directory without a list counts nothing and is
      left alone; any other directory adds up its children's statistics,
      records the number of files, the lines and the commits per file
      (Java's integer division) and passes the sums up. */
  function Stats(n: Node): (r: (Node, NodeStats))
    requires Populated(n)
    decreases n
    ensures r.1 == Tally(Leaves(n))
    ensures r.0.(children := n.children, numberOfFiles := n.numberOfFiles, linesOfCode := n.linesOfCode,
                 averageCommits := n.averageCommits) == n
    ensures |Kids(r.0)| == |Kids(n)|
    ensures n.nodeType == File ==> r.0 == n
  {
    if n.nodeType == File then (n, One(n))
    else if n.children.NullList? then (n, NodeStats(0, 0, 0))
    else
      var cs := n.children.nodes;
      var rs := seq(|cs|, k requires 0 <= k < |cs| => Stats(cs[k]));
      var sum := Total(seq(|rs|, k requires 0 <= k < |rs| => rs[k].1));
      assert sum == Tally(Leaves(n)) && sum.numberOfFiles > 0 by {
        assert seq(|rs|, k requires 0 <= k < |rs| => rs[k].1) == Tallies(LeafLists(cs));
        TotalOfTallies(LeafLists(cs));
        LeavesOfDir(n);
      }
      var dir := n.(children := List(seq(|rs|, k requires 0 <= k < |rs| => rs[k].0)),
                    numberOfFiles := Some(sum.numberOfFiles),
                    linesOfCode := Some(sum.totalLinesOfCode),
                    averageCommits := Some(TruncDiv(sum.totalCommits, sum.numberOfFiles)));
      (dir, sum)
  }

  /** Every directory with a list of children records the number of files
      below it (at least one), their code lines and their commits per file
      in Java's integer division. */
  predicate Summarised(n: Node)
    decreases n
  {
    n.nodeType == File
    || (&& (n.children.List? ==>
              var files := Leaves(n);
              && |files| > 0
              && n.numberOfFiles == Some(|files|)
              && n.linesOfCode == Some(Tally(files).totalLinesOfCode)
              && n.averageCommits == Some(TruncDiv(Tally(files).totalCommits, |files|)))
        && forall k :: 0 <= k < |Kids(n)| ==> Summarised(Kids(n)[k]))
  }

  /** The statistics pass leaves the files below a node as they were. */
  lemma {:induction false} StatsKeepsLeaves(n: Node)
    requires Populated(n)
    ensures Leaves(Stats(n).0) == Leaves(n)
    decreases n
  {
    var r := Stats(n).0;
    if n.nodeType == Dir && n.children.List? {
      var cs := Kids(n);
      forall k | 0 <= k < |cs|
        ensures Leaves(Kids(r)[k]) == Leaves(cs[k])
      {
        StatsKeepsLeaves(cs[k]);
      }
      LeavesOfDir(n);
      LeavesOfDir(r);
      assert LeafLists(Kids(r)) == LeafLists(cs);
    }
  }

  /** After the statistics pass every directory is summarised and still
      unsized. */
  lemma {:induction false} StatsSummarises(n: Node)
    requires Populated(n) && DirsUnsized(n)
    ensures Summarised(Stats(n).0) && DirsUnsized(Stats(n).0)
    decreases n
  {
    var r := Stats(n).0;
    if n.nodeType == Dir && n.children.List? {
      forall k | 0 <= k < |Kids(n)|
        ensures Summarised(Kids(r)[k]) && DirsUnsized(Kids(r)[k])
      {
        StatsSummarises(Kids(n)[k]);
      }
      StatsKeepsLeaves(n);
    }
  }

  // ---------------------------------------------------------------------
  // buildRepositoryStructure
  // ---------------------------------------------------------------------

  datatype ReferenceData = ReferenceData(maxCommits: int, maxCommitsInHotSpotAnalysisPeriod: int, maxLinesOfCode: int)

  datatype Response = Response(structure: Node, referenceData: ReferenceData)

  /** `Collectors.toMap` throws on a repeated key, so each input lists a
      path at most once. */
  predicate UniqueInfoPaths(infos: seq<FileInfo>) {
    forall k, l :: 0 <= k < l < |infos| ==> infos[k].filePath != infos[l].filePath
  }

  predicate UniqueKnowledgePaths(knowledge: seq<FileKnowledge>) {
    forall k, l :: 0 <= k < l < |knowledge| ==> knowledge[k].filePath != knowledge[l].filePath
  }

  /** The FileInfo rows keyed by path. */
  function InfoMap(infos: seq<FileInfo>): (m: map<string, FileInfo>)
    requires UniqueInfoPaths(infos)
    ensures forall k :: 0 <= k < |infos| ==> infos[k].filePath in m && m[infos[k].filePath] == infos[k]
    ensures forall p :: p in m ==> exists k :: 0 <= k < |infos| && infos[k].filePath == p
  {
    map k | 0 <= k < |infos| :: infos[k].filePath := infos[k]
  }

  /** The FileKnowledge rows keyed by path. */
  function KnowledgeMap(knowledge: seq<FileKnowledge>): (m: map<string, FileKnowledge>)
    requires UniqueKnowledgePaths(knowledge)
    ensures forall k :: 0 <= k < |knowledge| ==> knowledge[k].filePath in m && m[knowledge[k].filePath] == knowledge[k]
    ensures forall p :: p in m ==> exists k :: 0 <= k < |knowledge| && knowledge[k].filePath == p
  {
    map k | 0 <= k < |knowledge| :: knowledge[k].filePath := knowledge[k]
  }

  /** What `buildRepositoryStructure` needs of its inputs: no path twice in
      either, a FileKnowledge row for every FileInfo path, and `order` the
      iteration order of the FileInfo map. */
  predicate Buildable(infos: seq<FileInfo>, knowledge: seq<FileKnowledge>, order: seq<string>) {
    && UniqueInfoPaths(infos) && UniqueKnowledgePaths(knowledge)
    && (forall k :: 0 <= k < |infos| ==> infos[k].filePath in KnowledgeMap(knowledge))
    && Authors.ListsKeys(order, InfoMap(infos))
  }

  lemma BuildableJoinable(infos: seq<FileInfo>, knowledge: seq<FileKnowledge>, order: seq<string>)
    requires Buildable(infos, knowledge, order)
    ensures Joinable(order, InfoMap(infos), KnowledgeMap(knowledge))
  {
    forall k | 0 <= k < |order|
      ensures order[k] in KnowledgeMap(knowledge)
    {
      var j :| 0 <= j < |infos| && infos[j].filePath == order[k];
    }
  }

  /** `buildRepositoryStructure`: the tree, sized, then summarised, with
      the three maxima as reference data. */
  function BuildRepositoryStructure(infos: seq<FileInfo>, knowledge: seq<FileKnowledge>, order: seq<string>,
                                    emphasis: real -> real): (r: Response)
    requires Buildable(infos, knowledge, order)
    ensures r.structure.nodeType == Dir && r.structure.name == "root" && r.structure.path == ""
    ensures var mx := CalculateMaxFileValues(infos);
            r.referenceData == ReferenceData(mx.maxCommits, mx.maxCommitsInHotSpotAnalysisPeriod, mx.maxLinesOfCode)
  {
    BuildableJoinable(infos, knowledge, order);
    var tree := BuildTree(order, InfoMap(infos), KnowledgeMap(knowledge));
    var mx := CalculateMaxFileValues(infos);
    var sized := SetFileDimensions(tree, mx, emphasis);
    BuildTreeShape(order, InfoMap(infos), KnowledgeMap(knowledge));
    SetFileDimensionsInvariants(tree, mx, emphasis);
    Response(Stats(sized).0, ReferenceData(mx.maxCommits, mx.maxCommitsInHotSpotAnalysisPeriod, mx.maxLinesOfCode))
  }

  /** The files below the returned structure are those below the built
      tree, each sized. */
  lemma StructureLeaves(infos: seq<FileInfo>, knowledge: seq<FileKnowledge>, order: seq<string>, emphasis: real -> real)
    requires Buildable(infos, knowledge, order)
    ensures Joinable(order, InfoMap(infos), KnowledgeMap(knowledge))
    ensures var tree := BuildTree(order, InfoMap(infos), KnowledgeMap(knowledge));
            Leaves(BuildRepositoryStructure(infos, knowledge, order, emphasis).structure)
            == SizeAll(Leaves(tree), CalculateMaxFileValues(infos), emphasis)
  {
    BuildableJoinable(infos, knowledge, order);
    var tree := BuildTree(order, InfoMap(infos), KnowledgeMap(knowledge));
    var mx := CalculateMaxFileValues(infos);
    BuildTreeShape(order, InfoMap(infos), KnowledgeMap(knowledge));
    SetFileDimensionsInvariants(tree, mx, emphasis);
    SetFileDimensionsLeaves(tree, mx, emphasis);
    StatsKeepsLeaves(SetFileDimensions(tree, mx, emphasis));
  }

  /** The returned structure: every directory with children summarises
      the files below it without dividing by zero, no directory is sized,
      and there is one file leaf per FileInfo row. */
  lemma StructureShape(infos: seq<FileInfo>, knowledge: seq<FileKnowledge>, order: seq<string>, emphasis: real -> real)
    requires Buildable(infos, knowledge, order)
    ensures var s := BuildRepositoryStructure(infos, knowledge, order, emphasis).structure;
            Summarised(s) && DirsUnsized(s) && |Leaves(s)| == |order|
  {
    BuildableJoinable(infos, knowledge, order);
    var tree := BuildTree(order, InfoMap(infos), KnowledgeMap(knowledge));
    var mx := CalculateMaxFileValues(infos);
    BuildTreeShape(order, InfoMap(infos), KnowledgeMap(knowledge));
    SetFileDimensionsInvariants(tree, mx, emphasis);
    StatsSummarises(SetFileDimensions(tree, mx, emphasis));
    StructureLeaves(infos, knowledge, order, emphasis);
    assert |Leaves(tree)| == |multiset(Leaves(tree))|;
  }

  /** The position in `ys` of an element of `xs` when both hold the same
      elements. */
  lemma SameElementsIndex(xs: seq<Node>, ys: seq<Node>, i: nat) returns (j: nat)
    requires multiset(xs) == multiset(ys) && i < |xs|
    ensures j < |ys| && ys[j] == xs[i]
  {
    assert xs[i] in multiset(ys);
    j :| 0 <= j < |ys| && ys[j] == xs[i];
  }

  /** The FileInfo row behind a key of the FileInfo map. */
  lemma InfoIndex(infos: seq<FileInfo>, p: string) returns (m: nat)
    requires UniqueInfoPaths(infos) && p in InfoMap(infos)
    ensures m < |infos| && infos[m].filePath == p && InfoMap(infos)[p] == infos[m]
  {
    m :| 0 <= m < |infos| && infos[m].filePath == p;
  }

  /** Each file leaf of the structure is the sized leaf of one FileInfo
      row. */
  lemma LeafOrigin(infos: seq<FileInfo>, knowledge: seq<FileKnowledge>, order: seq<string>, emphasis: real -> real,
                   i: nat) returns (m: nat)
    requires Buildable(infos, knowledge, order)
    requires i < |Leaves(BuildRepositoryStructure(infos, knowledge, order, emphasis).structure)|
    ensures m < |infos| && infos[m].filePath in KnowledgeMap(knowledge)
    ensures Leaves(BuildRepositoryStructure(infos, knowledge, order, emphasis).structure)[i]
            == SetFileDimensions(FileNode(infos[m], KnowledgeMap(knowledge)[infos[m].filePath]),
                                 CalculateMaxFileValues(infos), emphasis)
  {
    var im, km, mx := InfoMap(infos), KnowledgeMap(knowledge), CalculateMaxFileValues(infos);
    BuildableJoinable(infos, knowledge, order);
    var tree := BuildTree(order, im, km);
    BuildTreeShape(order, im, km);
    StructureLeaves(infos, knowledge, order, emphasis);
    var nodes := FileNodes(order, im, km);
    var j := SameElementsIndex(Leaves(tree), nodes, i);
    assert nodes[j] == FileNode(im[order[j]], km[order[j]]);
    m := InfoIndex(infos, order[j]);
    assert SizeAll(Leaves(tree), mx, emphasis)[i] == SetFileDimensions(Leaves(tree)[i], mx, emphasis);
  }

  /** Every FileInfo row has its sized leaf in the structure. */
  lemma LeafOfEveryRow(infos: seq<FileInfo>, knowledge: seq<FileKnowledge>, order: seq<string>, emphasis: real -> real,
                       m: nat) returns (i: nat)
    requires Buildable(infos, knowledge, order) && m < |infos|
    ensures var s := BuildRepositoryStructure(infos, knowledge, order, emphasis).structure;
            && i < |Leaves(s)|
            && Leaves(s)[i] == SetFileDimensions(FileNode(infos[m], KnowledgeMap(knowledge)[infos[m].filePath]),
                                                 CalculateMaxFileValues(infos), emphasis)
  {
    var im, km, mx := InfoMap(infos), KnowledgeMap(knowledge), CalculateMaxFileValues(infos);
    BuildableJoinable(infos, knowledge, order);
    var tree := BuildTree(order, im, km);
    BuildTreeShape(order, im, km);
    StructureLeaves(infos, knowledge, order, emphasis);
    var nodes := FileNodes(order, im, km);
    var p := infos[m].filePath;
    assert p in im;
    var j :| 0 <= j < |order| && order[j] == p;
    assert nodes[j] == FileNode(infos[m], km[p]);
    i := SameElementsIndex(nodes, Leaves(tree), j);
    assert SizeAll(Leaves(tree), mx, emphasis)[i] == SetFileDimensions(Leaves(tree)[i], mx, emphasis);
  }

  /** With no negative line count, every file of the structure is between
      0 and 1 wide. */
  lemma LeafWidths(infos: seq<FileInfo>, knowledge: seq<FileKnowledge>, order: seq<string>, emphasis: real -> real,
                   i: nat)
    requires Buildable(infos, knowledge, order)
    requires forall k :: 0 <= k < |infos| ==> OrZero(infos[k].codeLines) >= 0
    requires i < |Leaves(BuildRepositoryStructure(infos, knowledge, order, emphasis).structure)|
    ensures var leaf := Leaves(BuildRepositoryStructure(infos, knowledge, order, emphasis).structure)[i];
            leaf.width.Some? && 0.0 <= leaf.width.value <= 1.0
  {
    var m := LeafOrigin(infos, knowledge, order, emphasis, i);
    var node := FileNode(infos[m], KnowledgeMap(knowledge)[infos[m].filePath]);
    var mx := CalculateMaxFileValues(infos);
    if node.linesOfCode.Some? {
      WidthBounds(node, mx);
    }
  }
}

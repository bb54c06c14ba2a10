/** `SearchService`: the search query and results, and revealing a result in the
    folder tree by expanding the folders on its path. */
module Search {
  import opened Wrappers
  import opened Text
  import opened Models
  import opened FileTree

  // --------------------------------------------------------- the path walk

  /** The folder names `expandParents` walks: the path after the root and one
      separator, split on '/', without its last (file) part. */
  function WalkParts(rootPath: string, path: string): seq<string> {
    var parts := Split(Drop(path, |rootPath| + 1), '/');
    parts[..|parts| - 1]
  }

  /** A path made of the root, a separator and '/'-joined names walks exactly the
      folder names. */
  lemma WalkPartsOfPath(rootPath: string, dirs: seq<string>, file: string)
    requires forall k :: 0 <= k < |dirs| ==> '/' !in dirs[k]
    requires '/' !in file
    ensures WalkParts(rootPath, rootPath + "/" + Join(dirs + [file], '/')) == dirs
  {
    var names := dirs + [file];
    var path := rootPath + "/" + Join(names, '/');
    assert path[|rootPath| + 1..] == Join(names, '/');
    forall k | 0 <= k < |names| ensures '/' !in names[k] {
      if k < |dirs| {
        assert names[k] == dirs[k];
      }
    }
    SplitJoin(names, '/');
  }

  /** `c.entry.name === part || c.entry.physicalName === part`. */
  predicate Matches(n: Node, part: string) {
    n.entry.name == part || n.entry.physicalName == part
  }

  /** The index of the first child that matches, -1 when none does. */
  function FindChild(ks: seq<Node>, part: string): (k: int)
    ensures -1 <= k < |ks|
    ensures k >= 0 ==> Matches(ks[k], part) && forall j :: 0 <= j < k ==> !Matches(ks[j], part)
    ensures k == -1 ==> forall j :: 0 <= j < |ks| ==> !Matches(ks[j], part)
  {
    FindChildFrom(ks, part, 0)
  }

  function FindChildFrom(ks: seq<Node>, part: string, j: nat): (k: int)
    requires j <= |ks|
    ensures k == -1 || j <= k < |ks|
    ensures k >= 0 ==> Matches(ks[k], part) && forall i :: j <= i < k ==> !Matches(ks[i], part)
    ensures k == -1 ==> forall i :: j <= i < |ks| ==> !Matches(ks[i], part)
    decreases |ks| - j
  {
    if j == |ks| then -1 else if Matches(ks[j], part) then j else FindChildFrom(ks, part, j + 1)
  }

  /** A folder counts as opened once it is expanded; a file has nothing to open. */
  predicate Opened(n: Node) {
    n.entry.isDirectory ==> n.isExpanded
  }

  /** The walk reached `c`: each step went to the first child matching its
      folder name, and every node it passed through is opened. */
  ghost predicate Walked(t: Node, c: Address, parts: seq<string>) {
    |c| <= |parts| &&
    (forall k :: 0 <= k <= |c| ==> NodeAt(t, c[..k]).Some?) &&
    (forall k :: 1 <= k <= |c| ==> Matches(NodeAt(t, c[..k]).value, parts[k - 1])) &&
    (forall k :: 0 <= k < |c| ==> FirstOnWalk(t, c, parts, k)) &&
    (forall k :: 0 <= k < |c| ==> Opened(NodeAt(t, c[..k]).value))
  }

  /** Step `k` of the walk went to the first child matching its folder name. */
  ghost predicate FirstOnWalk(t: Node, c: Address, parts: seq<string>, k: nat)
    requires k < |c| && k < |parts| && NodeAt(t, c[..k]).Some?
  {
    c[k] == FindChild(Kids(NodeAt(t, c[..k]).value), parts[k])
  }

  /** Which child matches first depends only on the children's entries. */
  lemma {:induction false} FindChildByEntries(ks: seq<Node>, ls: seq<Node>, part: string, j: nat)
    requires |ks| == |ls| && j <= |ks|
    requires forall i :: 0 <= i < |ks| ==> ks[i].entry == ls[i].entry
    ensures FindChildFrom(ks, part, j) == FindChildFrom(ls, part, j)
    decreases |ks| - j
  {
    if j < |ks| {
      FindChildByEntries(ks, ls, part, j + 1);
    }
  }

  /** Replacing the node at `c` by one with the same entry keeps the entries of
      the children of every node above it. */
  lemma KidEntriesKept(t: Node, c: Address, m: Node, k: nat)
    requires NodeAt(t, c).Some? && m.entry == NodeAt(t, c).value.entry && k < |c|
    ensures var r := Replace(t, c, m);
      NodeAt(r, c[..k]).Some? && NodeAt(t, c[..k]).Some? &&
      |Kids(NodeAt(r, c[..k]).value)| == |Kids(NodeAt(t, c[..k]).value)| &&
      forall j :: 0 <= j < |Kids(NodeAt(t, c[..k]).value)| ==>
        Kids(NodeAt(r, c[..k]).value)[j].entry == Kids(NodeAt(t, c[..k]).value)[j].entry
  {
    var r := Replace(t, c, m);
    var p := c[..k];
    ReplaceAbove(t, c, p, m);
    var x, y := NodeAt(r, p).value, NodeAt(t, p).value;
    forall j | 0 <= j < |Kids(y)| ensures Kids(x)[j].entry == Kids(y)[j].entry {
      NodeAtChild(r, p, j);
      NodeAtChild(t, p, j);
      var q := p + [j];
      if j == c[k] {
        assert q == c[..k + 1];
        if k + 1 == |c| {
          assert q == c;
          ReplaceHit(t, c, m);
        } else {
          NodeAtChild(t, p, j);
          ReplaceAbove(t, c, q, m);
        }
      } else {
        assert q[k] != c[k];
        ReplaceApart(t, c, q, m);
      }
    }
  }

  /** Changing the node the walk stands on, but not its entry, keeps the walk. */
  lemma WalkedKept(t: Node, c: Address, parts: seq<string>, m: Node)
    requires Walked(t, c, parts) && m.entry == NodeAt(t, c[..|c|]).value.entry
    ensures NodeAt(Replace(t, c, m), c) == Some(m)
    ensures Walked(Replace(t, c, m), c, parts)
    ensures Replace(t, c, m).entry == t.entry
  {
    assert c[..|c|] == c;
    var r := Replace(t, c, m);
    ReplaceHit(t, c, m);
    assert NodeAt(t, c).Some?;
    forall k | 0 <= k < |c|
      ensures NodeAt(r, c[..k]).Some? && SameShape(NodeAt(r, c[..k]).value, NodeAt(t, c[..k]).value)
      ensures FirstOnWalk(r, c, parts, k)
    {
      assert FirstOnWalk(t, c, parts, k);
      ReplaceAbove(t, c, c[..k], m);
      KidEntriesKept(t, c, m, k);
      FindChildByEntries(Kids(NodeAt(r, c[..k]).value), Kids(NodeAt(t, c[..k]).value), parts[k], 0);
    }
    if |c| > 0 {
      assert c[..0] == [];
    }
  }

  /** Stepping from an opened node to the first matching child extends the walk. */
  lemma WalkedStep(t: Node, c: Address, parts: seq<string>, k: nat)
    requires Walked(t, c, parts) && |c| < |parts|
    requires Opened(NodeAt(t, c[..|c|]).value)
    requires k == FindChild(Kids(NodeAt(t, c[..|c|]).value), parts[|c|])
    ensures Walked(t, c + [k], parts)
  {
    assert c[..|c|] == c;
    var d := c + [k];
    NodeAtChild(t, c, k);
    StepPrefixes(c, k);
    var child := Kids(NodeAt(t, c).value)[k];
    assert NodeAt(t, d[..|d|]) == Some(child) && Matches(child, parts[|c|]);
    forall j | 0 <= j < |d| ensures FirstOnWalk(t, d, parts, j) {
      if j < |c| {
        assert FirstOnWalk(t, c, parts, j);
      }
    }
  }

  /** The prefixes of an address one step longer. */
  lemma StepPrefixes(c: Address, k: nat)
    ensures (c + [k])[..|c| + 1] == c + [k]
    ensures forall j :: 0 <= j <= |c| ==> (c + [k])[..j] == c[..j]
    ensures forall j :: 0 <= j < |c| ==> (c + [k])[j] == c[j]
  {
  }

  /** A walk whose strict ancestors are all folders shows every node it passed
      on the way, and the node it reached. */
  lemma {:induction false} WalkShown(t: Node, c: Address, parts: seq<string>)
    requires Walked(t, c, parts) && |c| >= 1
    requires forall k :: 1 <= k < |c| ==> NodeAt(t, c[..k]).value.entry.isDirectory
    ensures OpenIn(Kids(t), c)
    ensures Shown(c, NodeAt(t, c[..|c|]).value) in Visible(Some(t))
    decreases |c|
  {
    assert c[..|c|] == c;
    if |c| == 1 {
      assert NodeAt(t, c) == NodeIn(Kids(t), c);
    } else {
      var p := c[..|c| - 1];
      WalkedParent(t, c, parts);
      WalkShown(t, p, parts);
      NodeAtParent(t, c);
      OpenInExtend(Kids(t), p, c[|c| - 1]);
    }
    VisibleExactly(t, c, NodeAt(t, c).value);
  }

  /** The walk to the parent of a walked node is a walk too, along folders when
      the whole walk is, and ends on an expanded folder. */
  lemma WalkedParent(t: Node, c: Address, parts: seq<string>)
    requires Walked(t, c, parts) && |c| >= 2
    requires forall k :: 1 <= k < |c| ==> NodeAt(t, c[..k]).value.entry.isDirectory
    ensures var p := c[..|c| - 1];
      Walked(t, p, parts) && p + [c[|c| - 1]] == c &&
      (forall k :: 1 <= k < |p| ==> NodeAt(t, p[..k]).value.entry.isDirectory) &&
      NodeAt(t, p).Some? && NodeAt(t, p).value.isExpanded
  {
    var p := c[..|c| - 1];
    forall k | 0 <= k <= |p| ensures p[..k] == c[..k] {}
    assert p[..|p|] == p;
    forall k | 0 <= k < |p| ensures FirstOnWalk(t, p, parts, k) {
      assert FirstOnWalk(t, c, parts, k) && p[k] == c[k];
    }
  }

  /** An open address continues to any child of an expanded node. */
  lemma {:induction false} OpenInExtend(ks: seq<Node>, p: Address, k: nat)
    requires OpenIn(ks, p) && NodeIn(ks, p).Some? && NodeIn(ks, p).value.isExpanded
    requires k < |Kids(NodeIn(ks, p).value)|
    ensures OpenIn(ks, p + [k]) && NodeIn(ks, p + [k]) == Some(Kids(NodeIn(ks, p).value)[k])
    decreases |p|
  {
    var d := p + [k];
    assert d[0] == p[0];
    if |p| == 1 {
      assert d[1..] == [k];
    } else {
      assert d[1..] == p[1..] + [k];
      OpenInExtend(Kids(ks[p[0]]), p[1..], k);
    }
  }

  // ---------------------------------------------- where the walked nodes come from

  /** The children a node has once `expandNode` has loaded them: its own when
      they are loaded, otherwise the nodes built from its listing. */
  function Listed(o: Node, dir: string -> Result<seq<FileEntry>, string>): seq<Node> {
    if o.children.Loaded? then o.children.nodes
    else match dir(o.entry.path)
      case Ok(es) => ToNodes(es, o.level + 1)
      case Err(_) => []
  }

  /** The node at `a` before the walk: the node of `t` there, or the node that
      the listings of the folders on the way build there. */
  function Origin(t: Node, dir: string -> Result<seq<FileEntry>, string>, a: Address): Option<Node>
    decreases |a|
  {
    if |a| == 0 then Some(t)
    else
      var ks := Listed(t, dir);
      if a[0] < |ks| then Origin(ks[a[0]], dir, a[1..]) else None
  }

  lemma {:induction false} OriginStep(t: Node, dir: string -> Result<seq<FileEntry>, string>, c: Address, k: nat)
    requires Origin(t, dir, c).Some? && k < |Listed(Origin(t, dir, c).value, dir)|
    ensures Origin(t, dir, c + [k]) == Some(Listed(Origin(t, dir, c).value, dir)[k])
    decreases |c|
  {
    var d := c + [k];
    if |c| == 0 {
      assert d[1..] == [];
    } else {
      var ks := Listed(t, dir);
      assert d[0] == c[0] && d[1..] == c[1..] + [k];
      OriginStep(ks[c[0]], dir, c[1..], k);
    }
  }

  /** `n` is what the walk made of `o`: the same entry and level; when `wasOpened`,
      a folder that was not expanded is expanded, and children that were not
      loaded are loaded from its listing, whose read did not fail; every child except the one the walk
      went on to (`next`) is that of the origin. */
  ghost predicate Grown(o: Node, n: Node, dir: string -> Result<seq<FileEntry>, string>, wasOpened: bool, next: int) {
    n.entry == o.entry && n.level == o.level &&
    n.isExpanded == (o.isExpanded || (wasOpened && o.entry.isDirectory)) &&
    n.children.Loaded? ==
      (o.children.Loaded? || (wasOpened && o.entry.isDirectory && !o.isExpanded && dir(o.entry.path).Ok?)) &&
    (wasOpened ==> Expansion(o, dir(o.entry.path)).Ok?) &&
    (n.children.Loaded? ==>
       |Kids(n)| == |Listed(o, dir)| &&
       forall j :: 0 <= j < |Kids(n)| && j != next ==> Kids(n)[j] == Listed(o, dir)[j])
  }

  /** The node at `c[..k]` of `after` is what the walk made of its origin. */
  ghost predicate GrewAt(before: Node, after: Node, dir: string -> Result<seq<FileEntry>, string>,
                         c: Address, k: nat, wasOpened: bool, next: int)
    requires k <= |c|
  {
    Origin(before, dir, c[..k]).Some? && NodeAt(after, c[..k]).Some? &&
    Grown(Origin(before, dir, c[..k]).value, NodeAt(after, c[..k]).value, dir, wasOpened, next)
  }

  /** Every node the walk passed through was opened and kept its other children. */
  ghost predicate GrewAbove(before: Node, after: Node, dir: string -> Result<seq<FileEntry>, string>, c: Address) {
    forall k :: 0 <= k < |c| ==> GrewAt(before, after, dir, c, k, true, c[k])
  }

  lemma GrownSame(o: Node, dir: string -> Result<seq<FileEntry>, string>)
    ensures Grown(o, o, dir, false, -1)
  {
  }

  /** Expanding a node the walk stands on opens it. */
  lemma GrownExpanded(o: Node, n: Node, dir: string -> Result<seq<FileEntry>, string>, wasOpened: bool)
    requires Grown(o, n, dir, wasOpened, -1) && Expansion(n, dir(n.entry.path)).Ok?
    ensures Grown(o, Expansion(n, dir(n.entry.path)).value, dir, true, -1)
  {
    var m := Expansion(n, dir(n.entry.path)).value;
    if n.entry.isDirectory && !n.isExpanded && n.children.Unloaded? {
      assert !o.children.Loaded? && !o.isExpanded;
      assert Kids(m) == Listed(o, dir);
    }
  }

  /** A node that is already opened counts as opened by the walk. */
  lemma GrownSettled(o: Node, n: Node, dir: string -> Result<seq<FileEntry>, string>, wasOpened: bool)
    requires Grown(o, n, dir, wasOpened, -1) && Opened(n)
    ensures Grown(o, n, dir, true, -1)
  {
  }

  /** Moving on from the node at `c` to its child `k`: the nodes passed keep
      their growth, and the child is, so far, its origin unchanged. */
  lemma WalkOn(before: Node, after: Node, dir: string -> Result<seq<FileEntry>, string>, c: Address, k: nat)
    requires GrewAbove(before, after, dir, c) && GrewAt(before, after, dir, c, |c|, true, -1)
    requires k < |Kids(NodeAt(after, c[..|c|]).value)|
    ensures GrewAbove(before, after, dir, c + [k])
    ensures Origin(before, dir, c + [k]).Some? && NodeAt(after, c + [k]) == Origin(before, dir, c + [k])
  {
    var d := c + [k];
    assert c[..|c|] == c;
    var o, n := Origin(before, dir, c).value, NodeAt(after, c).value;
    NodeAtChild(after, c, k);
    OriginStep(before, dir, c, k);
    forall j | 0 <= j < |d| ensures GrewAt(before, after, dir, d, j, true, d[j]) {
      assert d[..j] == c[..j];
      if j < |c| {
        assert GrewAt(before, after, dir, c, j, true, c[j]);
      }
    }
  }

  /** Changing only the node at `c`, in a way that keeps the shape of the nodes
      above it, keeps what the walk made of them. */
  lemma AboveKept(before: Node, t: Node, r: Node, dir: string -> Result<seq<FileEntry>, string>, c: Address)
    requires GrewAbove(before, t, dir, c) && KeptAside(t, r, c)
    requires forall k :: 0 <= k < |c| ==>
      (NodeAt(r, c[..k]).Some? && NodeAt(t, c[..k]).Some? &&
       SameShape(NodeAt(r, c[..k]).value, NodeAt(t, c[..k]).value))
    ensures GrewAbove(before, r, dir, c)
  {
    forall k | 0 <= k < |c| ensures GrewAt(before, r, dir, c, k, true, c[k]) {
      assert GrewAt(before, t, dir, c, k, true, c[k]);
      var p := c[..k];
      var o, x, y := Origin(before, dir, p).value, NodeAt(t, p).value, NodeAt(r, p).value;
      forall j | 0 <= j < |Kids(y)| && j != c[k] ensures Kids(y)[j] == Listed(o, dir)[j] {
        NodeAtChild(t, p, j);
        NodeAtChild(r, p, j);
        var b := p + [j];
        assert b[k] != c[k];
        assert !(b <= c);
      }
    }
  }

  /** Every node of `t0` off the way to `c` is still there, as it was, in `t`. */
  ghost predicate KeptAside(t0: Node, t: Node, c: Address) {
    forall b :: !(b <= c) && NodeAt(t0, b).Some? ==> NodeAt(t, b) == NodeAt(t0, b)
  }

  /** What revealing `path` leaves, with the walk having reached `reached`:
      without a root, or for a path outside it, nothing changes. Otherwise the
      walk went through first-matching children; every node of the old tree off
      the walk stays; every node it passed was opened without a failed read,
      with children of its own or from its listing and all but the next one
      unchanged; the node it reached was opened too when it succeeds, and, when
      it was a closed, unread folder whose read failed, is untouched, with that
      read's error as the outcome. A walk that
      succeeds stopped only where no child matches the next name. */
  ghost predicate Revealed(before: Option<Node>, path: string, dir: string -> Result<seq<FileEntry>, string>,
                           after: Option<Node>, outcome: Result<(), string>, reached: Address)
  {
    (before.None? || !StartsWith(path, before.value.entry.path) ==>
       after == before && outcome == Ok(()) && reached == []) &&
    (before.Some? && StartsWith(path, before.value.entry.path) ==>
       var parts := WalkParts(before.value.entry.path, path);
       after.Some? && after.value.entry == before.value.entry &&
       Walked(after.value, reached, parts) &&
       NodeAt(after.value, reached).Some? &&
       KeptAside(before.value, after.value, reached) &&
       GrewAbove(before.value, after.value, dir, reached) &&
       GrewAt(before.value, after.value, dir, reached, |reached|, outcome.Ok?, -1) &&
       (outcome.Err? ==>
          var n := NodeAt(after.value, reached).value;
          var o := Origin(before.value, dir, reached[..|reached|]).value;
          dir(n.entry.path).Err? && outcome.error == dir(n.entry.path).error &&
          Expansion(o, dir(o.entry.path)) == Err(outcome.error)) &&
       (outcome.Ok? ==>
          Opened(NodeAt(after.value, reached).value) &&
          (|reached| < |parts| ==> FindChild(Kids(NodeAt(after.value, reached).value), parts[|reached|]) == -1)))
  }

  /** Where the walk stands between two turns of its loop: it went through
      first-matching children, left the nodes off its way as they were, and
      opened every node it passed; the node it stands on is still its origin,
      or, once the walk stopped, was opened and has no child matching the next
      name. */
  ghost predicate WalkState(t0: Node, t: Node, dir: string -> Result<seq<FileEntry>, string>,
                            parts: seq<string>, c: Address, stopped: bool)
  {
    t.entry == t0.entry && Walked(t, c, parts) &&
    KeptAside(t0, t, c) && GrewAbove(t0, t, dir, c) &&
    (!stopped ==> NodeAt(t, c[..|c|]) == Origin(t0, dir, c[..|c|])) &&
    (stopped ==>
       |c| < |parts| && GrewAt(t0, t, dir, c, |c|, true, -1) &&
       Opened(NodeAt(t, c[..|c|]).value) &&
       FindChild(Kids(NodeAt(t, c[..|c|]).value), parts[|c|]) == -1)
  }

  /** A walk that fails reading the listing of the unread folder it stands on reveals
      what it has opened so far. */
  lemma RevealedFailed(t0: Node, t: Node, dir: string -> Result<seq<FileEntry>, string>,
                       path: string, c: Address, e: string)
    requires StartsWith(path, t0.entry.path)
    requires WalkState(t0, t, dir, WalkParts(t0.entry.path, path), c, false)
    requires NodeAt(t, c[..|c|]).Some? && dir(NodeAt(t, c[..|c|]).value.entry.path) == Err(e)
    requires Expansion(NodeAt(t, c[..|c|]).value, Err(e)).Err?
    ensures Revealed(Some(t0), path, dir, Some(t), Err(e), c)
  {
    assert c[..|c|] == c;
    GrownSame(NodeAt(t, c).value, dir);
  }

  /** A reveal that succeeds met no failed read: every node on the walk, as it
      was before, expands without error. */
  lemma RevealedOkReadsSucceeded(before: Node, path: string, dir: string -> Result<seq<FileEntry>, string>,
                                 after: Option<Node>, reached: Address, k: nat)
    requires StartsWith(path, before.entry.path)
    requires Revealed(Some(before), path, dir, after, Ok(()), reached)
    requires k <= |reached|
    ensures Origin(before, dir, reached[..k]).Some?
    ensures var o := Origin(before, dir, reached[..k]).value; Expansion(o, dir(o.entry.path)).Ok?
  {
    if k < |reached| {
      assert GrewAt(before, after.value, dir, reached, k, true, reached[k]);
    }
  }

  /** A reveal fails only by reading the listing of the folder it reached,
      which was closed and not yet read, and that read failed. */
  lemma RevealedErrIsFailedRead(before: Node, path: string, dir: string -> Result<seq<FileEntry>, string>,
                                after: Option<Node>, reached: Address, e: string)
    requires Revealed(Some(before), path, dir, after, Err(e), reached)
    ensures StartsWith(path, before.entry.path)
    ensures Origin(before, dir, reached).Some?
    ensures var o := Origin(before, dir, reached).value;
      o.entry.isDirectory && !o.isExpanded && o.children.Unloaded? && dir(o.entry.path) == Err(e)
    ensures after.Some? && NodeAt(after.value, reached) == Origin(before, dir, reached)
  {
    assert reached[..|reached|] == reached;
  }

  /** Nothing is invented: a walk never enters a folder whose loaded children
      are none. */
  lemma NoWalkIntoEmptyFolder(before: Node, path: string, dir: string -> Result<seq<FileEntry>, string>,
                              after: Option<Node>, outcome: Result<(), string>, reached: Address)
    requires before.children == Loaded([]) && StartsWith(path, before.entry.path)
    requires Revealed(Some(before), path, dir, after, outcome, reached)
    ensures reached == []
  {
  }

  /** A walk that moves on to a child keeps fewer nodes aside. */
  lemma KeptAsideStep(t0: Node, t: Node, c: Address, k: nat)
    requires KeptAside(t0, t, c)
    ensures KeptAside(t0, t, c + [k])
  {
  }

  // ------------------------------------------------------------- the service

  class SearchService {
    var results: seq<FileEntry>
    var searchActive: bool
    var query: string
    const tree: FileTreeService

    constructor(tree: FileTreeService)
      ensures this.tree == tree && results == [] && !searchActive && query == ""
    {
      this.tree := tree;
      results := [];
      searchActive := false;
      query := "";
    }

    /** `search(rootPath, pattern)`, given what `searchFiles` resolves to; a blank
        pattern clears the results without searching. */
    method Search(rootPath: string, pattern: string, found: Result<seq<FileEntry>, string>)
      returns (outcome: Result<(), string>)
      modifies this
      ensures query == pattern && searchActive == old(searchActive)
      ensures IsBlank(pattern) ==> results == [] && outcome == Ok(())
      ensures !IsBlank(pattern) && found.Err? ==> results == old(results) && outcome == Err(found.error)
      ensures !IsBlank(pattern) && found.Ok? ==> results == found.value && outcome == Ok(())
    {
      query := pattern;
      if IsBlank(pattern) {
        results := [];
        return Ok(());
      }
      if found.Err? {
        return Err(found.error);
      }
      results := found.value;
      outcome := Ok(());
    }

    method Clear()
      modifies this
      ensures !searchActive && results == [] && query == ""
    {
      searchActive := false;
      results := [];
      query := "";
    }

    /** `selectResult`: the folders on the way to the entry are opened, then the
        entry becomes the selection. */
    method SelectResult(entry: FileEntry, dir: string -> Result<seq<FileEntry>, string>)
      returns (outcome: Result<(), string>, reached: Address)
      modifies tree
      ensures Revealed(old(tree.root), entry.path, dir, tree.root, outcome, reached)
      ensures outcome.Ok? ==> tree.selectedPath == Some(entry.path)
      ensures outcome.Err? ==> tree.selectedPath == old(tree.selectedPath)
    {
      outcome, reached := ExpandParents(entry.path, dir);
      if outcome.Ok? {
        tree.selectedPath := Some(entry.path);
      }
    }

    /** `expandParents` with every expansion applied to the tree that is shown:
        the node the walk stands on is looked up again after each step. */
    method ExpandParents(path: string, dir: string -> Result<seq<FileEntry>, string>)
      returns (outcome: Result<(), string>, reached: Address)
      modifies tree
      ensures tree.selectedPath == old(tree.selectedPath)
      ensures Revealed(old(tree.root), path, dir, tree.root, outcome, reached)
    {
      outcome, reached := Ok(()), [];
      if tree.root.None? {
        return;
      }
      var rootPath := tree.root.value.entry.path;
      if !StartsWith(path, rootPath) {
        return;
      }
      var parts := WalkParts(rootPath, path);
      ghost var t0 := tree.root.value;
      var c: Address := [];
      var stopped := false;
      while |c| < |parts| && !stopped
        invariant tree.root.Some? && WalkState(t0, tree.root.value, dir, parts, c, stopped)
        invariant tree.selectedPath == old(tree.selectedPath)
        decreases |parts| - |c|, !stopped
      {
        var next;
        outcome, next, stopped := Advance(c, parts, dir, t0);
        if outcome.Err? {
          RevealedFailed(t0, tree.root.value, dir, path, c, outcome.error);
          reached := c;
          return;
        }
        c := next;
      }
      outcome := OpenLast(path, c, parts, dir, t0, stopped);
      reached := c;
    }

    /** One turn of the `for (const part of parts)` loop: open the node the walk
        stands on, then move on to its first child matching `part`, or stop. */
    method Advance(c: Address, parts: seq<string>, dir: string -> Result<seq<FileEntry>, string>, ghost t0: Node)
      returns (outcome: Result<(), string>, next: Address, stopped: bool)
      requires tree.root.Some? && |c| < |parts| && WalkState(t0, tree.root.value, dir, parts, c, false)
      modifies tree
      ensures tree.root.Some? && tree.selectedPath == old(tree.selectedPath)
      ensures outcome.Err? ==>
        tree.root == old(tree.root) && WalkState(t0, tree.root.value, dir, parts, c, false) &&
        var n := NodeAt(tree.root.value, c[..|c|]).value;
        dir(n.entry.path).Err? && outcome.error == dir(n.entry.path).error &&
        Expansion(n, dir(n.entry.path)) == Err(outcome.error)
      ensures outcome.Ok? ==>
        WalkState(t0, tree.root.value, dir, parts, next, stopped) &&
        (stopped ==> next == c) && (!stopped ==> |next| == |c| + 1)
    {
      next, stopped := c, false;
      outcome := OpenStep(c, parts, dir, t0);
      if outcome.Err? {
        return;
      }
      var node := NodeAt(tree.root.value, c[..|c|]).value;
      var k := FindChild(Kids(node), parts[|c|]);
      if k < 0 {
        stopped := true;
      } else {
        WalkedStep(tree.root.value, c, parts, k);
        KeptAsideStep(t0, tree.root.value, c, k);
        WalkOn(t0, tree.root.value, dir, c, k);
        next := c + [k];
        assert next[..|next|] == next;
      }
    }

    /** The last `expandNode(current)`, after the loop: a folder the walk ended
        on that is not expanded is expanded. */
    method OpenLast(path: string, c: Address, parts: seq<string>, dir: string -> Result<seq<FileEntry>, string>,
                    ghost t0: Node, stopped: bool)
      returns (outcome: Result<(), string>)
      requires tree.root.Some? && StartsWith(path, t0.entry.path) && parts == WalkParts(t0.entry.path, path)
      requires WalkState(t0, tree.root.value, dir, parts, c, stopped) && (!stopped ==> |c| == |parts|)
      modifies tree
      ensures tree.selectedPath == old(tree.selectedPath)
      ensures Revealed(Some(t0), path, dir, tree.root, outcome, c)
    {
      outcome := Ok(());
      assert c[..|c|] == c;
      var node := NodeAt(tree.root.value, c).value;
      ghost var o := Origin(t0, dir, c).value;
      ghost var t := tree.root.value;
      if !stopped {
        GrownSame(o, dir);
      }
      if !node.isExpanded && node.entry.isDirectory {
        outcome := StepExpand(c, parts, dir);
        if outcome.Ok? {
          GrownExpanded(o, node, dir, false);
        }
        AboveKept(t0, t, tree.root.value, dir, c);
      } else {
        GrownSettled(o, node, dir, stopped);
      }
    }

    /** The two `expandNode(current)` calls of one turn of the walk: the node
        the walk stands on, still as it was, is opened, or the reading of its
        listing fails and nothing changes. */
    method OpenStep(c: Address, parts: seq<string>, dir: string -> Result<seq<FileEntry>, string>, ghost t0: Node)
      returns (outcome: Result<(), string>)
      requires tree.root.Some? && Walked(tree.root.value, c, parts)
      requires KeptAside(t0, tree.root.value, c) && GrewAbove(t0, tree.root.value, dir, c)
      requires NodeAt(tree.root.value, c[..|c|]) == Origin(t0, dir, c[..|c|])
      modifies tree
      ensures tree.root.Some? && tree.root.value.entry == old(tree.root).value.entry
      ensures tree.selectedPath == old(tree.selectedPath)
      ensures Walked(tree.root.value, c, parts)
      ensures KeptAside(t0, tree.root.value, c) && GrewAbove(t0, tree.root.value, dir, c)
      ensures outcome.Err? ==>
        tree.root == old(tree.root) &&
        var n := NodeAt(tree.root.value, c[..|c|]).value;
        dir(n.entry.path).Err? && outcome.error == dir(n.entry.path).error &&
        Expansion(n, dir(n.entry.path)) == Err(outcome.error)
      ensures outcome.Ok? ==>
        Opened(NodeAt(tree.root.value, c[..|c|]).value) &&
        GrewAt(t0, tree.root.value, dir, c, |c|, true, -1)
    {
      outcome := Ok(());
      var node := NodeAt(tree.root.value, c[..|c|]).value;
      ghost var o := node;
      ghost var wasOpened := false;
      GrownSame(o, dir);
      if node.children.Unloaded? {
        ghost var t := tree.root.value;
        outcome := StepExpand(c, parts, dir);
        if outcome.Err? {
          return;
        }
        GrownExpanded(o, node, dir, false);
        AboveKept(t0, t, tree.root.value, dir, c);
        wasOpened := true;
      }
      node := NodeAt(tree.root.value, c[..|c|]).value;
      if !node.isExpanded {
        ghost var t := tree.root.value;
        outcome := StepExpand(c, parts, dir);
        if outcome.Err? {
          return;
        }
        GrownExpanded(o, node, dir, wasOpened);
        AboveKept(t0, t, tree.root.value, dir, c);
      }
      node := NodeAt(tree.root.value, c[..|c|]).value;
      assert Opened(node);
      GrownSettled(o, node, dir, true);
    }

    /** One `expandNode(current)` of the walk on the shown tree. */
    method StepExpand(c: Address, parts: seq<string>, dir: string -> Result<seq<FileEntry>, string>)
      returns (outcome: Result<(), string>)
      requires tree.root.Some? && Walked(tree.root.value, c, parts)
      modifies tree
      ensures tree.root.Some? && tree.root.value.entry == old(tree.root).value.entry
      ensures tree.selectedPath == old(tree.selectedPath)
      ensures Walked(tree.root.value, c, parts)
      ensures outcome.Ok? ==> Opened(NodeAt(tree.root.value, c[..|c|]).value)
      ensures KeptAside(old(tree.root).value, tree.root.value, c)
      ensures forall k :: 0 <= k < |c| ==>
        NodeAt(tree.root.value, c[..k]).Some? && NodeAt(old(tree.root).value, c[..k]).Some? &&
        SameShape(NodeAt(tree.root.value, c[..k]).value, NodeAt(old(tree.root).value, c[..k]).value)
      ensures var n := NodeAt(old(tree.root).value, c[..|c|]).value;
        var r := Expansion(n, dir(n.entry.path));
        (r.Err? ==> tree.root == old(tree.root) && outcome == Err(r.error)) &&
        (r.Ok? ==> outcome == Ok(()) && NodeAt(tree.root.value, c[..|c|]) == Some(r.value))
    {
      assert c[..|c|] == c;
      var node := NodeAt(tree.root.value, c).value;
      var t := tree.root.value;
      outcome := tree.ExpandNode(c, dir(node.entry.path));
      var r := Expansion(node, dir(node.entry.path));
      if r.Ok? {
        WalkedKept(t, c, parts, r.value);
        forall k | 0 <= k < |c|
          ensures NodeAt(tree.root.value, c[..k]).Some? && NodeAt(t, c[..k]).Some? &&
            SameShape(NodeAt(tree.root.value, c[..k]).value, NodeAt(t, c[..k]).value)
        {
          ReplaceAbove(t, c, c[..k], r.value);
        }
        forall b | !(b <= c) && NodeAt(t, b).Some?
          ensures NodeAt(tree.root.value, b) == NodeAt(t, b)
        {
          ExpansionFrame(t, c, dir(node.entry.path), b);
        }
      }
    }

    /** `expandParents` as written: `current` keeps pointing into the nodes the
        walk started from. The first expansion that changes something replaces
        the shown tree by a copy (`notifyChange`); every later one changes only
        the detached nodes, and its copy of the shown tree shows nothing new. */
    method ExpandParentsAsWritten(path: string, dir: string -> Result<seq<FileEntry>, string>)
      returns (outcome: Result<(), string>, firstExpanded: Option<Address>)
      modifies tree
      ensures tree.selectedPath == old(tree.selectedPath)
      ensures firstExpanded.None? ==> tree.root == old(tree.root)
      ensures firstExpanded.Some? ==> old(tree.root).Some? && LastingExpansion(old(tree.root).value, firstExpanded.value, dir, tree.root)
    {
      outcome, firstExpanded := Ok(()), None;
      if tree.root.None? {
        return;
      }
      var g := tree.root.value;
      var rootPath := g.entry.path;
      if !StartsWith(path, rootPath) {
        return;
      }
      var parts := WalkParts(rootPath, path);
      var c: Address := [];
      var i := 0;
      while i < |parts|
        invariant NodeAt(g, c).Some?
        invariant tree.selectedPath == old(tree.selectedPath)
        invariant firstExpanded.None? ==> old(tree.root).Some? && tree.root == old(tree.root) && g == old(tree.root).value
        invariant firstExpanded.Some? ==> old(tree.root).Some? && LastingExpansion(old(tree.root).value, firstExpanded.value, dir, tree.root)
        decreases |parts| - i
      {
        var node := NodeAt(g, c).value;
        if node.children.Unloaded? {
          outcome, g, firstExpanded := ExpandDetached(g, c, dir, firstExpanded);
          if outcome.Err? {
            return;
          }
        }
        node := NodeAt(g, c).value;
        if !node.isExpanded {
          outcome, g, firstExpanded := ExpandDetached(g, c, dir, firstExpanded);
          if outcome.Err? {
            return;
          }
        }
        node := NodeAt(g, c).value;
        var k := FindChild(Kids(node), parts[i]);
        if k < 0 {
          break;
        }
        NodeAtChild(g, c, k);
        c := c + [k];
        i := i + 1;
      }
      var node := NodeAt(g, c).value;
      if !node.isExpanded && node.entry.isDirectory {
        outcome, g, firstExpanded := ExpandDetached(g, c, dir, firstExpanded);
      }
    }

    /** `expandNode` on the node at `c` of the nodes `g` the walk holds. While no
        expansion has happened yet, `g` is the shown tree, so the copy
        `notifyChange` makes shows the change; afterwards it does not. */
    method ExpandDetached(g: Node, c: Address, dir: string -> Result<seq<FileEntry>, string>, first: Option<Address>)
      returns (outcome: Result<(), string>, g': Node, first': Option<Address>)
      requires NodeAt(g, c).Some?
      requires first.None? ==> tree.root == Some(g)
      modifies tree
      ensures tree.selectedPath == old(tree.selectedPath)
      ensures NodeAt(g', c).Some?
      ensures var n := NodeAt(g, c).value;
        var r := Expansion(n, dir(n.entry.path));
        (r.Err? ==> outcome == Err(r.error) && g' == g && first' == first && tree.root == old(tree.root)) &&
        (r.Ok? ==> outcome == Ok(())) &&
        (n.entry.isDirectory && !n.isExpanded && r.Ok? ==> g' == Replace(g, c, r.value)) &&
        (!(n.entry.isDirectory && !n.isExpanded) ==> g' == g) &&
        (r.Ok? && first.None? && n.entry.isDirectory && !n.isExpanded ==>
           first' == Some(c) && tree.root == Some(g')) &&
        (!(r.Ok? && first.None? && n.entry.isDirectory && !n.isExpanded) ==>
           first' == first && tree.root == old(tree.root))
    {
      var n := NodeAt(g, c).value;
      if !n.entry.isDirectory || n.isExpanded {
        return Ok(()), g, first;
      }
      var r := Expansion(n, dir(n.entry.path));
      if r.Err? {
        return Err(r.error), g, first;
      }
      g' := Replace(g, c, r.value);
      ReplaceHit(g, c, r.value);
      outcome, first' := Ok(()), first;
      if first.None? {
        tree.root := Some(g');
        tree.NotifyChange();
        first' := Some(c);
      }
    }
  }

  /** The one expansion the as-written walk leaves in the shown tree: the node at
      `a` was a closed folder and the shown tree is the original with that node
      expanded. */
  ghost predicate LastingExpansion(t: Node, a: Address, dir: string -> Result<seq<FileEntry>, string>, root: Option<Node>) {
    NodeAt(t, a).Some? &&
    var n := NodeAt(t, a).value;
    var r := Expansion(n, dir(n.entry.path));
    n.entry.isDirectory && !n.isExpanded && r.Ok? && root == Some(Replace(t, a, r.value))
  }

  /** The folders `/r/A` and `/r/A/B` have not been read yet. Revealing
      `/r/A/B/f.mp4` with the walk as written leaves `B` closed in the shown tree
      (or not there at all), although the walk passed through it. */
  method AsWrittenLeavesFolderClosed() returns (shownB: Option<Node>)
    ensures shownB.None? || !shownB.value.isExpanded
  {
    var tree := new FileTreeService();
    var a := FileEntry("/r/A", "A", "A", true, false, None, true);
    var b := FileEntry("/r/A/B", "B", "B", true, false, None, true);
    var shown := tree.OpenFolder("/r", Ok([a]));
    var t := tree.root.value;
    var search := new SearchService(tree);
    var dir := (p: string) => if p == "/r/A" then Ok([b]) else Ok([]);
    var outcome, first := search.ExpandParentsAsWritten("/r/A/B/f.mp4", dir);
    shownB := NodeAt(tree.root.value, [0, 0]);
    assert Kids(t) == [EntryToNode(a, 1)];
    if first.Some? {
      var fe := first.value;
      assert fe != [];
      assert fe[0] == 0;
      assert Kids(EntryToNode(a, 1)) == [];
      assert |fe| == 1 || NodeIn(Kids(t), fe) == NodeIn([], fe[1..]);
      assert fe == [0];
      var n := EntryToNode(a, 1);
      assert NodeAt(t, fe) == Some(n);
      var r := Expansion(n, dir(a.path)).value;
      assert Kids(r) == [EntryToNode(b, 2)];
      ReplaceHit(t, [0], r);
      NodeAtChild(Replace(t, [0], r), [0], 0);
    }
  }
}

/** The folder tree of the Angular side (`FileTreeService`): nodes read from disk
    one directory at a time, expanded and collapsed in place, and flattened in
    pre-order for display. A node is identified by its address, the child indices
    that lead to it from the root. */
module FileTree {
  import opened Wrappers
  import opened Text
  import opened Models

  /** `children: FileTreeNode[] | null`: not read from disk yet, or read. */
  datatype Children = Unloaded | Loaded(nodes: seq<Node>)

  datatype Node = Node(entry: FileEntry, children: Children, isExpanded: bool, level: nat)

  /** The child indices leading from the root to a node; the root is []. */
  type Address = seq<nat>

  /** One row of the visible list: a node and where it sits in the tree. */
  datatype Shown = Shown(address: Address, node: Node)

  /** `node.children ?? []`. */
  function Kids(n: Node): seq<Node> {
    match n.children
    case Unloaded => []
    case Loaded(ks) => ks
  }

  // ------------------------------------------------------------- building

  /** `entryToNode`: a fresh node is collapsed and has not read its children. */
  function EntryToNode(e: FileEntry, level: nat): Node {
    Node(e, Unloaded, false, level)
  }

  /** `entries.map((e) => this.entryToNode(e, level))`. */
  function ToNodes(es: seq<FileEntry>, level: nat): (ns: seq<Node>)
    ensures |ns| == |es|
    ensures forall k :: 0 <= k < |ns| ==>
      ns[k].entry == es[k] && ns[k].children == Unloaded && !ns[k].isExpanded && ns[k].level == level
  {
    seq(|es|, k requires 0 <= k < |es| => EntryToNode(es[k], level))
  }

  /** A node given the children just read for it, one level below it. */
  function WithChildren(n: Node, es: seq<FileEntry>): (r: Node)
    ensures r.entry == n.entry && r.isExpanded == n.isExpanded && r.level == n.level
    ensures r.children.Loaded? && |Kids(r)| == |es|
    ensures forall k :: 0 <= k < |es| ==> Kids(r)[k] == EntryToNode(es[k], n.level + 1)
  {
    n.(children := Loaded(ToNodes(es, n.level + 1)))
  }

  /** `path.split('/').pop() || path`: the last segment, or the whole path when
      that segment is empty. */
  function RootName(path: string): string {
    var last := LastSegment(path, '/');
    if last == "" then path else last
  }

  /** A path without '/' names itself; otherwise the non-empty text after the last
      '/' is the name, and a path ending in '/' keeps its whole text. */
  lemma RootNameRules(path: string)
    ensures '/' !in path ==> RootName(path) == path
    ensures var last := LastSegment(path, '/');
      '/' !in last && |last| <= |path| && path[|path| - |last|..] == last &&
      (last != "" ==> RootName(path) == last) &&
      (last == "" ==> RootName(path) == path)
    ensures |path| > 0 && path[|path| - 1] == '/' ==> RootName(path) == path
  {
    LastSegmentIsSuffix(path, '/');
    if '/' !in path {
      LastSegmentWhole(path, '/');
    }
  }

  /** The folder the whole tree is opened on, as `openFolder` builds it. */
  function RootNode(path: string, entries: seq<FileEntry>): (r: Node)
    ensures r.level == 0 && r.isExpanded && r.entry.isDirectory && r.entry.path == path
    ensures r.entry.name == RootName(path) && r.entry.physicalName == RootName(path)
    ensures !r.entry.isEncoded && r.entry.decodedName.None?
    ensures r.entry.hasChildren <==> |entries| > 0
    ensures r.children.Loaded? && |Kids(r)| == |entries|
    ensures forall k :: 0 <= k < |entries| ==> Kids(r)[k] == EntryToNode(entries[k], 1)
  {
    var name := RootName(path);
    var entry := FileEntry(path, name, name, true, false, None, |entries| > 0);
    Node(entry, Loaded(ToNodes(entries, 1)), true, 0)
  }

  // ------------------------------------------------------------ the visible list

  /** `collectVisible(nodes, result)` from index `j` on: each node, then, when it
      is expanded, its children in turn. */
  function Flatten(nodes: seq<Node>, parent: Address, j: nat): seq<Shown>
    decreases nodes, |nodes| - j
  {
    if j >= |nodes| then []
    else [Shown(parent + [j], nodes[j])] + Below(nodes[j], parent + [j]) + Flatten(nodes, parent, j + 1)
  }

  /** The rows an expanded node contributes under itself. */
  function Below(n: Node, address: Address): seq<Shown>
    decreases n, 0
  {
    match n.children
    case Unloaded => []
    case Loaded(ks) => if n.isExpanded then Flatten(ks, address, 0) else []
  }

  /** `visibleNodes`: empty without a root; the root itself is never listed,
      whether or not it is expanded. */
  function Visible(root: Option<Node>): seq<Shown> {
    match root
    case None => []
    case Some(t) => Flatten(Kids(t), [], 0)
  }

  /** The loop of `collectVisible`, which pushes onto `result`. */
  method CollectVisible(nodes: seq<Node>, parent: Address, result: seq<Shown>) returns (out: seq<Shown>)
    ensures out == result + Flatten(nodes, parent, 0)
    decreases nodes
  {
    out := result;
    for j := 0 to |nodes|
      invariant out + Flatten(nodes, parent, j) == result + Flatten(nodes, parent, 0)
    {
      var node := nodes[j];
      out := out + [Shown(parent + [j], node)];
      if node.isExpanded && node.children.Loaded? {
        out := CollectVisible(node.children.nodes, parent + [j], out);
      }
    }
  }

  // ------------------------------------------------------------- addresses

  /** The node at an address below a list of siblings. */
  function NodeIn(ks: seq<Node>, a: Address): Option<Node>
    decreases |a|
  {
    if |a| == 0 || a[0] >= |ks| then None
    else if |a| == 1 then Some(ks[a[0]])
    else NodeIn(Kids(ks[a[0]]), a[1..])
  }

  /** The node at an address of the tree rooted at `t`. */
  function NodeAt(t: Node, a: Address): Option<Node> {
    if |a| == 0 then Some(t) else NodeIn(Kids(t), a)
  }

  /** The address leads below `ks` through expanded nodes only. */
  predicate OpenIn(ks: seq<Node>, a: Address)
    decreases |a|
  {
    |a| >= 1 && a[0] < |ks| && (|a| == 1 || (ks[a[0]].isExpanded && OpenIn(Kids(ks[a[0]]), a[1..])))
  }

  /** Every row of `Flatten` is a node at its address, reached through expanded
      nodes only, at index `j` or later. */
  lemma {:induction false} FlattenSound(ks: seq<Node>, parent: Address, j: nat)
    ensures forall s :: s in Flatten(ks, parent, j) ==>
      |parent| < |s.address| && s.address[..|parent|] == parent &&
      s.address[|parent|] >= j && OpenIn(ks, s.address[|parent|..]) &&
      NodeIn(ks, s.address[|parent|..]) == Some(s.node)
    decreases ks, |ks| - j
  {
    if j < |ks| {
      var here := parent + [j];
      FlattenSound(ks, parent, j + 1);
      var below := Below(ks[j], here);
      match ks[j].children
      case Unloaded =>
        assert below == [];
      case Loaded(cs) =>
        if ks[j].isExpanded {
          FlattenSound(cs, here, 0);
          forall s | s in below
            ensures |parent| < |s.address| && s.address[..|parent|] == parent &&
              s.address[|parent|] >= j && OpenIn(ks, s.address[|parent|..]) &&
              NodeIn(ks, s.address[|parent|..]) == Some(s.node)
          {
            var r := s.address[|here|..];
            assert s.address == here + r by {
              assert s.address[..|here|] == here;
            }
            assert s.address[|parent|..] == [j] + r;
            assert ([j] + r)[1..] == r;
          }
        } else {
          assert below == [];
        }
      var head := Shown(here, ks[j]);
      assert here[..|parent|] == parent && here[|parent|..] == [j];
      assert Flatten(ks, parent, j) == [head] + below + Flatten(ks, parent, j + 1);
    }
  }

  /** Every node reached through expanded nodes only is a row of `Flatten`. */
  lemma {:induction false} FlattenComplete(ks: seq<Node>, parent: Address, j: nat, a: Address)
    requires OpenIn(ks, a) && a[0] >= j
    ensures NodeIn(ks, a).Some? && Shown(parent + a, NodeIn(ks, a).value) in Flatten(ks, parent, j)
    decreases ks, |ks| - j
  {
    var here := parent + [j];
    var rows := Flatten(ks, parent, j);
    assert rows == [Shown(here, ks[j])] + Below(ks[j], here) + Flatten(ks, parent, j + 1);
    if a[0] > j {
      FlattenComplete(ks, parent, j + 1, a);
    } else if |a| == 1 {
      assert parent + a == here;
    } else {
      match ks[j].children
      case Loaded(cs) =>
        FlattenComplete(cs, here, 0, a[1..]);
        assert parent + a == here + a[1..] by {
          assert a == [j] + a[1..];
        }
        assert Below(ks[j], here) == Flatten(cs, here, 0);
    }
  }

  /** A row is shown exactly when its node sits at its address and every node
      between the root and it is expanded. */
  lemma VisibleExactly(t: Node, a: Address, n: Node)
    ensures Shown(a, n) in Visible(Some(t)) <==> OpenIn(Kids(t), a) && NodeAt(t, a) == Some(n)
  {
    FlattenSound(Kids(t), [], 0);
    if OpenIn(Kids(t), a) && NodeAt(t, a) == Some(n) {
      FlattenComplete(Kids(t), [], 0, a);
      assert [] + a == a;
    }
    if Shown(a, n) in Visible(Some(t)) {
      assert a[0..] == a;
    }
  }

  /** The tree with the subtree at `a` replaced by `m`; the tree itself when no
      node sits at `a`. */
  function Replace(t: Node, a: Address, m: Node): Node
    decreases |a|
  {
    if |a| == 0 then m
    else match t.children
      case Unloaded => t
      case Loaded(ks) =>
        if a[0] < |ks| then t.(children := Loaded(ks[a[0] := Replace(ks[a[0]], a[1..], m)])) else t
  }

  /** Two nodes that agree on everything but the contents of their subtrees. */
  predicate SameShape(x: Node, y: Node) {
    x.entry == y.entry && x.isExpanded == y.isExpanded && x.level == y.level &&
    x.children.Loaded? == y.children.Loaded? && |Kids(x)| == |Kids(y)|
  }

  lemma {:induction false} ReplaceHit(t: Node, a: Address, m: Node)
    requires NodeAt(t, a).Some?
    ensures NodeAt(Replace(t, a, m), a) == Some(m)
    decreases |a|
  {
    if |a| > 0 {
      var ks := Kids(t);
      if |a| > 1 {
        ReplaceHit(ks[a[0]], a[1..], m);
      }
    }
  }

  lemma {:induction false} ReplaceMiss(t: Node, a: Address, m: Node)
    requires NodeAt(t, a).None?
    ensures Replace(t, a, m) == t
    decreases |a|
  {
    if |a| > 1 && t.children.Loaded? && a[0] < |Kids(t)| {
      var ks := Kids(t);
      ReplaceMiss(ks[a[0]], a[1..], m);
      assert ks[a[0] := ks[a[0]]] == ks;
    }
  }

  /** Putting back the node that is there changes nothing. */
  lemma {:induction false} ReplaceSame(t: Node, a: Address)
    requires NodeAt(t, a).Some?
    ensures Replace(t, a, NodeAt(t, a).value) == t
    decreases |a|
  {
    if |a| > 0 {
      var ks := Kids(t);
      ReplaceSame(ks[a[0]], a[1..]);
      if |a| == 1 {
        assert ks[a[0] := ks[a[0]]] == ks;
      } else {
        assert NodeAt(ks[a[0]], a[1..]) == NodeIn(Kids(ks[a[0]]), a[1..]);
        assert ks[a[0] := ks[a[0]]] == ks;
      }
    }
  }

  /** Replacing at `a` leaves alone every address that neither lies on the way
      to `a` nor below it. */
  lemma {:induction false} ReplaceApart(t: Node, a: Address, b: Address, m: Node)
    requires !(a <= b) && !(b <= a)
    ensures NodeAt(Replace(t, a, m), b) == NodeAt(t, b)
    decreases |a|
  {
    var r := Replace(t, a, m);
    if t.children.Loaded? && a[0] < |Kids(t)| {
      var ks := Kids(t);
      if b[0] == a[0] {
        ReplaceApart(ks[a[0]], a[1..], b[1..], m);
        assert Kids(r)[b[0]] == Replace(ks[a[0]], a[1..], m);
        if |b| > 1 {
          assert NodeAt(ks[a[0]], b[1..]) == NodeIn(Kids(ks[a[0]]), b[1..]);
        }
      }
    }
  }

  /** Nodes on the way to `a` keep their entry, flags, level and number of
      children. */
  lemma {:induction false} ReplaceAbove(t: Node, a: Address, b: Address, m: Node)
    requires b < a && NodeAt(t, a).Some?
    ensures NodeAt(Replace(t, a, m), b).Some? && NodeAt(t, b).Some?
    ensures SameShape(NodeAt(Replace(t, a, m), b).value, NodeAt(t, b).value)
    decreases |a|
  {
    var r := Replace(t, a, m);
    if |b| > 0 {
      var ks := Kids(t);
      assert b[0] == a[0];
      ReplaceAbove(ks[a[0]], a[1..], b[1..], m);
      assert Kids(r)[a[0]] == Replace(ks[a[0]], a[1..], m);
    }
  }

  /** Below `a` the tree is the replacement's. */
  lemma {:induction false} ReplaceBelow(t: Node, a: Address, b: Address, m: Node)
    requires a <= b && NodeAt(t, a).Some?
    ensures NodeAt(Replace(t, a, m), b) == NodeAt(m, b[|a|..])
    decreases |a|
  {
    if |a| > 0 {
      var ks := Kids(t);
      var r := Replace(t, a, m);
      assert t.children.Loaded? && a[0] < |ks|;
      NodeAtStep(t, a);
      assert a[1..] <= b[1..];
      ReplaceBelow(ks[a[0]], a[1..], b[1..], m);
      assert Kids(r) == ks[a[0] := Replace(ks[a[0]], a[1..], m)];
      NodeAtStep(r, b);
      assert b[1..][|a| - 1..] == b[|a|..];
    } else {
      assert b[0..] == b;
    }
  }

  /** One step down: the node at `b` is the node at `b[1..]` below the child
      `b[0]`. */
  lemma NodeAtStep(t: Node, b: Address)
    requires |b| >= 1 && b[0] < |Kids(t)|
    ensures NodeAt(t, b) == NodeAt(Kids(t)[b[0]], b[1..])
  {
  }

  /** The node at `a + [k]` is the k-th child of the node at `a`. */
  lemma {:induction false} NodeAtChild(t: Node, a: Address, k: nat)
    requires NodeAt(t, a).Some? && k < |Kids(NodeAt(t, a).value)|
    ensures NodeAt(t, a + [k]) == Some(Kids(NodeAt(t, a).value)[k])
    decreases |a|
  {
    if |a| > 0 {
      var ks := Kids(t);
      assert (a + [k])[0] == a[0] && (a + [k])[1..] == a[1..] + [k];
      NodeAtChild(ks[a[0]], a[1..], k);
    }
  }

  /** The node at a non-empty address is a child of the node at its parent. */
  lemma {:induction false} NodeAtParent(t: Node, a: Address)
    requires |a| >= 1 && NodeAt(t, a).Some?
    ensures var p := NodeAt(t, a[..|a| - 1]);
      p.Some? && p.value.children.Loaded? && a[|a| - 1] < |Kids(p.value)| &&
      Kids(p.value)[a[|a| - 1]] == NodeAt(t, a).value
    decreases |a|
  {
    if |a| > 1 {
      var ks := Kids(t);
      NodeAtParent(ks[a[0]], a[1..]);
      assert a[1..][..|a| - 2] == a[..|a| - 1][1..];
    }
  }

  // ------------------------------------------------------------- cloning

  /** `cloneTree`: a copy of every node, children list or not. */
  function CloneTree(n: Node): Node {
    match n.children
    case Unloaded => n
    case Loaded(ks) => n.(children := Loaded(seq(|ks|, k requires 0 <= k < |ks| => CloneTree(ks[k]))))
  }

  /** As values, the copy is the tree itself: entries, flags, levels and
      read/unread children all survive. */
  lemma {:induction false} CloneTreeIdentity(n: Node)
    ensures CloneTree(n) == n
  {
    match n.children
    case Unloaded =>
    case Loaded(ks) =>
      forall k | 0 <= k < |ks| ensures CloneTree(ks[k]) == ks[k] {
        CloneTreeIdentity(ks[k]);
      }
      assert seq(|ks|, k requires 0 <= k < |ks| => CloneTree(ks[k])) == ks;
  }

  // ------------------------------------------------------------- the parent

  /** `findParent(target, current)`: depth first, the node one of whose
      children is the target, given as the address of that node. */
  function FindParent(target: Address, current: Node, here: Address): Option<Address>
    decreases current, 0
  {
    match current.children
    case Unloaded => None
    case Loaded(ks) => FindParentAmong(target, ks, here, 0)
  }

  /** The `for (const child of current.children)` loop from child `k` on. */
  function FindParentAmong(target: Address, ks: seq<Node>, here: Address, k: nat): Option<Address>
    decreases ks, |ks| - k
  {
    if k >= |ks| then None
    else if here + [k] == target then Some(here)
    else match FindParent(target, ks[k], here + [k])
      case Some(p) => Some(p)
      case None => FindParentAmong(target, ks, here, k + 1)
  }

  /** The search finds the parent of exactly those targets that lie strictly
      below `here` in the tree. */
  lemma {:induction false} FindParentFinds(target: Address, current: Node, here: Address)
    ensures FindParent(target, current, here) ==
      if here < target && NodeAt(current, target[|here|..]).Some? then Some(target[..|target| - 1]) else None
    decreases current, 0
  {
    match current.children
    case Unloaded =>
      if here < target {
        assert NodeAt(current, target[|here|..]) == NodeIn([], target[|here|..]);
      }
    case Loaded(ks) =>
      FindParentAmongFinds(target, current, ks, here, 0);
  }

  lemma {:induction false} FindParentAmongFinds(target: Address, current: Node, ks: seq<Node>, here: Address, k: nat)
    requires current.children == Loaded(ks)
    ensures FindParentAmong(target, ks, here, k) ==
      if here < target && target[|here|] >= k && NodeAt(current, target[|here|..]).Some?
      then Some(target[..|target| - 1]) else None
    decreases ks, |ks| - k
  {
    if here < target {
      var rest := target[|here|..];
      assert NodeAt(current, rest) == NodeIn(ks, rest);
      assert target == here + rest;
    }
    if k < |ks| {
      var child := here + [k];
      FindParentFinds(target, ks[k], child);
      FindParentAmongFinds(target, current, ks, here, k + 1);
      if child == target {
        assert target[|here|..] == [k];
      } else if child < target {
        var rest := target[|here|..];
        assert rest[0] == k && rest[1..] == target[|child|..];
      } else if here < target {
        assert target[|here|] != k;
      }
    }
  }

  /** In a whole tree: the parent of a node is the address one step up, and only
      the root, or an address with no node, has none. */
  lemma FindParentOfNode(t: Node, a: Address)
    ensures FindParent(a, t, []) ==
      if |a| >= 1 && NodeAt(t, a).Some? then Some(a[..|a| - 1]) else None
  {
    FindParentFinds(a, t, []);
    assert a[0..] == a;
  }

  // ---------------------------------------------------------- node updates

  /** What `expandNode` does to a node: nothing for a file or an expanded
      folder; otherwise it reads the children when they are missing, then marks
      the folder expanded, and fails without a change when the read fails. */
  function Expansion(n: Node, listing: Result<seq<FileEntry>, string>): (r: Result<Node, string>)
    ensures r.Err? <==> n.entry.isDirectory && !n.isExpanded && n.children.Unloaded? && listing.Err?
    ensures r.Err? ==> r.error == listing.error
    ensures !n.entry.isDirectory || n.isExpanded ==> r == Ok(n)
    ensures r.Ok? ==>
      r.value.entry == n.entry && r.value.level == n.level &&
      r.value.isExpanded == (n.isExpanded || n.entry.isDirectory)
    ensures r.Ok? && n.children.Loaded? ==> r.value.children == n.children
    ensures r.Ok? && n.entry.isDirectory && !n.isExpanded && n.children.Unloaded? ==>
      r.value.children == Loaded(ToNodes(listing.value, n.level + 1))
  {
    if !n.entry.isDirectory || n.isExpanded then Ok(n)
    else if n.children.Unloaded? then
      match listing
      case Err(e) => Err(e)
      case Ok(es) => Ok(WithChildren(n, es).(isExpanded := true))
    else Ok(n.(isExpanded := true))
  }

  /** Expanding the node at `a` leaves every node that was in the tree and is not
      on the way to `a` as it was: its siblings' subtrees are not touched, and
      children already read stay. */
  lemma ExpansionFrame(t: Node, a: Address, listing: Result<seq<FileEntry>, string>, b: Address)
    requires NodeAt(t, a).Some? && Expansion(NodeAt(t, a).value, listing).Ok?
    requires !(b <= a) && NodeAt(t, b).Some?
    ensures NodeAt(Replace(t, a, Expansion(NodeAt(t, a).value, listing).value), b) == NodeAt(t, b)
  {
    var n := NodeAt(t, a).value;
    var r := Expansion(n, listing).value;
    if a <= b {
      ReplaceBelow(t, a, b, r);
      ReplaceSame(t, a);
      ReplaceBelow(t, a, b, n);
      var d := b[|a|..];
      assert |d| >= 1;
      if n.children.Loaded? {
        assert Kids(r) == Kids(n);
      }
    } else {
      ReplaceApart(t, a, b, r);
    }
  }

  /** A list without its k-th element (`children.filter((c) => c !== node)`,
      each node object being in the list once). */
  function Without(ks: seq<Node>, k: nat): (r: seq<Node>)
    requires k < |ks|
    ensures |r| == |ks| - 1
    ensures forall i :: 0 <= i < k ==> r[i] == ks[i]
    ensures forall i :: k <= i < |r| ==> r[i] == ks[i + 1]
  {
    ks[..k] + ks[k + 1..]
  }

  /** The tree after `deleteNode` took the node at `a` out of its parent. */
  function Removed(t: Node, a: Address): Node
    requires |a| >= 1 && NodeAt(t, a).Some?
  {
    NodeAtParent(t, a);
    var p := a[..|a| - 1];
    var parent := NodeAt(t, p).value;
    Replace(t, p, parent.(children := Loaded(Without(Kids(parent), a[|a| - 1]))))
  }

  /** Deleting leaves the parent with the other children in their order; the
      siblings' subtrees and everything outside the parent are untouched. */
  lemma DeleteKeepsSiblings(t: Node, a: Address)
    requires |a| >= 1 && NodeAt(t, a).Some?
    ensures var p := a[..|a| - 1];
      var after := NodeAt(Removed(t, a), p);
      NodeAt(t, p).Some? && after.Some? && after.value.children.Loaded? &&
      var before := NodeAt(t, p).value;
      a[|a| - 1] < |Kids(before)| &&
      after.value.entry == before.entry && after.value.isExpanded == before.isExpanded &&
      Kids(after.value) == Without(Kids(before), a[|a| - 1])
    ensures forall b :: !(a[..|a| - 1] <= b) && !(b <= a[..|a| - 1]) ==> NodeAt(Removed(t, a), b) == NodeAt(t, b)
  {
    NodeAtParent(t, a);
    var p := a[..|a| - 1];
    var parent := NodeAt(t, p).value;
    var m := parent.(children := Loaded(Without(Kids(parent), a[|a| - 1])));
    ReplaceHit(t, p, m);
    forall b | !(p <= b) && !(b <= p) ensures NodeAt(Removed(t, a), b) == NodeAt(t, b) {
      ReplaceApart(t, p, b, m);
    }
  }

  // ------------------------------------------------------------- the service

  /** The message of the TypeError `findParent` throws when no folder is open. */
  const NullRootError := "Cannot read properties of null (reading 'children')"

  /** `FileTreeService`: the root of the tree and the selected row. */
  class FileTreeService {
    var root: Option<Node>
    /** The `selectedPath` signal that the tree component, the search service and
        the preview service share. */
    var selectedPath: Option<string>

    constructor()
      ensures root == None && selectedPath == None
    {
      root := None;
      selectedPath := None;
    }

    /** The current `visibleNodes`. */
    method VisibleNodes() returns (rows: seq<Shown>)
      ensures rows == Visible(root)
    {
      if root.None? {
        return [];
      }
      rows := CollectVisible(Kids(root.value), [], []);
    }

    /** `notifyChange`: the root is replaced by a copy of itself. */
    method NotifyChange()
      modifies this
      ensures root == old(root) && selectedPath == old(selectedPath)
    {
      if root.Some? {
        CloneTreeIdentity(root.value);
        root := Some(CloneTree(root.value));
      }
    }

    /** `openFolder(path)`, given what `readDirectory(path)` resolves to. */
    method OpenFolder(path: string, listing: Result<seq<FileEntry>, string>)
      returns (outcome: Result<(), string>)
      modifies this
      ensures selectedPath == old(selectedPath)
      ensures listing.Err? ==> outcome == Err(listing.error) && root == old(root)
      ensures listing.Ok? ==> outcome == Ok(()) && root == Some(RootNode(path, listing.value))
    {
      if listing.Err? {
        return Err(listing.error);
      }
      root := Some(RootNode(path, listing.value));
      outcome := Ok(());
    }

    /** `expandNode` on the node at `a`, given what `readDirectory` resolves to
        should it be asked. A node that is not in the tree changes nothing that
        the tree shows. */
    method ExpandNode(a: Address, listing: Result<seq<FileEntry>, string>)
      returns (outcome: Result<(), string>)
      modifies this
      ensures selectedPath == old(selectedPath)
      ensures old(root).None? || NodeAt(old(root).value, a).None? ==> root == old(root) && outcome == Ok(())
      ensures old(root).Some? && NodeAt(old(root).value, a).Some? ==>
        var r := Expansion(NodeAt(old(root).value, a).value, listing);
        (r.Err? ==> outcome == Err(r.error) && root == old(root)) &&
        (r.Ok? ==> outcome == Ok(()) && root == Some(Replace(old(root).value, a, r.value)))
    {
      if root.None? || NodeAt(root.value, a).None? {
        return Ok(());
      }
      var node := NodeAt(root.value, a).value;
      if !node.entry.isDirectory || node.isExpanded {
        ReplaceSame(root.value, a);
        return Ok(());
      }
      if node.children.Unloaded? {
        if listing.Err? {
          return Err(listing.error);
        }
        node := WithChildren(node, listing.value);
      }
      node := node.(isExpanded := true);
      root := Some(Replace(root.value, a, node));
      NotifyChange();
      outcome := Ok(());
    }

    /** `collapseNode`: the node is marked collapsed and keeps its children. */
    method CollapseNode(a: Address)
      modifies this
      ensures selectedPath == old(selectedPath)
      ensures old(root).None? || NodeAt(old(root).value, a).None? ==> root == old(root)
      ensures old(root).Some? && NodeAt(old(root).value, a).Some? ==>
        root == Some(Replace(old(root).value, a, NodeAt(old(root).value, a).value.(isExpanded := false)))
    {
      if root.Some? && NodeAt(root.value, a).Some? {
        var node := NodeAt(root.value, a).value;
        root := Some(Replace(root.value, a, node.(isExpanded := false)));
      }
      NotifyChange();
    }

    /** `toggleNode`: collapse an expanded node, expand any other. */
    method ToggleNode(a: Address, listing: Result<seq<FileEntry>, string>)
      returns (outcome: Result<(), string>)
      modifies this
      ensures selectedPath == old(selectedPath)
      ensures Toggled(old(root), a, listing, root, outcome)
    {
      if root.Some? && NodeAt(root.value, a).Some? && NodeAt(root.value, a).value.isExpanded {
        CollapseNode(a);
        outcome := Ok(());
      } else {
        outcome := ExpandNode(a, listing);
      }
    }

    /** `deleteNode`, given how `fs.deleteNode` settles: the node at `a` leaves its
        parent's children; the root has no parent and stays. */
    method DeleteNode(a: Address, removal: Result<(), string>)
      returns (outcome: Result<(), string>)
      modifies this
      ensures selectedPath == old(selectedPath)
      ensures removal.Err? ==> outcome == Err(removal.error) && root == old(root)
      ensures removal.Ok? && old(root).None? ==> outcome == Err(NullRootError) && root == None
      ensures removal.Ok? && old(root).Some? ==>
        outcome == Ok(()) &&
        root == if |a| >= 1 && NodeAt(old(root).value, a).Some? then Some(Removed(old(root).value, a)) else old(root)
    {
      if removal.Err? {
        return Err(removal.error);
      }
      if root.None? {
        return Err(NullRootError);
      }
      var parent := FindParent(a, root.value, []);
      FindParentOfNode(root.value, a);
      if parent.Some? {
        NodeAtParent(root.value, a);
        var p := NodeAt(root.value, parent.value).value;
        if p.children.Loaded? {
          var ks := p.children.nodes;
          root := Some(Replace(root.value, parent.value, p.(children := Loaded(Without(ks, a[|a| - 1])))));
        }
      }
      NotifyChange();
      outcome := Ok(());
    }

    /** `refreshNode`: a folder drops its children, reads them again and is
        expanded; when the read fails it is left without children. */
    method RefreshNode(a: Address, listing: Result<seq<FileEntry>, string>)
      returns (outcome: Result<(), string>)
      modifies this
      ensures selectedPath == old(selectedPath)
      ensures old(root).None? || NodeAt(old(root).value, a).None? || !NodeAt(old(root).value, a).value.entry.isDirectory ==>
        root == old(root) && outcome == Ok(())
      ensures old(root).Some? && NodeAt(old(root).value, a).Some? && NodeAt(old(root).value, a).value.entry.isDirectory ==>
        var n := NodeAt(old(root).value, a).value;
        (listing.Err? ==>
           outcome == Err(listing.error) &&
           root == Some(Replace(old(root).value, a, n.(children := Unloaded)))) &&
        (listing.Ok? ==>
           outcome == Ok(()) &&
           root == Some(Replace(old(root).value, a, WithChildren(n, listing.value).(isExpanded := true))))
    {
      if root.None? || NodeAt(root.value, a).None? {
        return Ok(());
      }
      var node := NodeAt(root.value, a).value;
      if !node.entry.isDirectory {
        return Ok(());
      }
      node := node.(children := Unloaded);
      if listing.Err? {
        root := Some(Replace(root.value, a, node));
        return Err(listing.error);
      }
      node := WithChildren(node, listing.value).(isExpanded := true);
      root := Some(Replace(root.value, a, node));
      NotifyChange();
      outcome := Ok(());
    }

    /** The part `encodeNode` and `decodeNode` share, given the entry the command
        returns: the node takes the new entry, and an expanded folder reads its
        children again (when that read fails it is left without children). */
    method TakeEntry(a: Address, updated: Result<FileEntry, string>, listing: Result<seq<FileEntry>, string>)
      returns (outcome: Result<(), string>)
      modifies this
      ensures selectedPath == old(selectedPath)
      ensures updated.Err? ==> outcome == Err(updated.error) && root == old(root)
      ensures updated.Ok? && (old(root).None? || NodeAt(old(root).value, a).None?) ==>
        root == old(root) && outcome == Ok(())
      ensures updated.Ok? && old(root).Some? && NodeAt(old(root).value, a).Some? ==>
        var n := NodeAt(old(root).value, a).value.(entry := updated.value);
        (!(n.entry.isDirectory && n.isExpanded) ==> outcome == Ok(()) && root == Some(Replace(old(root).value, a, n))) &&
        (n.entry.isDirectory && n.isExpanded && listing.Err? ==>
           outcome == Err(listing.error) &&
           root == Some(Replace(old(root).value, a, n.(children := Unloaded)))) &&
        (n.entry.isDirectory && n.isExpanded && listing.Ok? ==>
           outcome == Ok(()) &&
           root == Some(Replace(old(root).value, a, WithChildren(n, listing.value))))
    {
      if updated.Err? {
        return Err(updated.error);
      }
      if root.None? || NodeAt(root.value, a).None? {
        return Ok(());
      }
      var node := NodeAt(root.value, a).value.(entry := updated.value);
      if node.entry.isDirectory && node.isExpanded {
        node := node.(children := Unloaded);
        if listing.Err? {
          root := Some(Replace(root.value, a, node));
          return Err(listing.error);
        }
        node := WithChildren(node, listing.value);
      }
      root := Some(Replace(root.value, a, node));
      NotifyChange();
      outcome := Ok(());
    }

    /** `encodeNode`, given what the `encode_node` command returns. */
    method EncodeNode(a: Address, updated: Result<FileEntry, string>, listing: Result<seq<FileEntry>, string>)
      returns (outcome: Result<(), string>)
      modifies this
    {
      outcome := TakeEntry(a, updated, listing);
    }

    /** `decodeNode`, given what the `decode_node` command returns. */
    method DecodeNode(a: Address, updated: Result<FileEntry, string>, listing: Result<seq<FileEntry>, string>)
      returns (outcome: Result<(), string>)
      modifies this
    {
      outcome := TakeEntry(a, updated, listing);
    }

    /** `renameNode`, given what the `rename_node` command returns: only the
        entry changes. */
    method RenameNode(a: Address, updated: Result<FileEntry, string>)
      returns (outcome: Result<(), string>)
      modifies this
      ensures selectedPath == old(selectedPath)
      ensures updated.Err? ==> outcome == Err(updated.error) && root == old(root)
      ensures updated.Ok? ==>
        outcome == Ok(()) &&
        root == if old(root).Some? && NodeAt(old(root).value, a).Some?
                then Some(Replace(old(root).value, a, NodeAt(old(root).value, a).value.(entry := updated.value)))
                else old(root)
    {
      if updated.Err? {
        return Err(updated.error);
      }
      if root.Some? && NodeAt(root.value, a).Some? {
        var node := NodeAt(root.value, a).value;
        root := Some(Replace(root.value, a, node.(entry := updated.value)));
      }
      NotifyChange();
      outcome := Ok(());
    }
  }

  /** The tree and outcome `toggleNode` leaves: a node not in the tree changes
      nothing; an expanded node is collapsed, keeping its children; any other node
      becomes its expansion, or stays when reading its children fails. */
  ghost predicate Toggled(before: Option<Node>, a: Address, listing: Result<seq<FileEntry>, string>,
                          after: Option<Node>, outcome: Result<(), string>)
  {
    (before.None? || NodeAt(before.value, a).None? ==> after == before && outcome == Ok(())) &&
    (before.Some? && NodeAt(before.value, a).Some? ==>
      var n := NodeAt(before.value, a).value;
      var r := Expansion(n, listing);
      (n.isExpanded ==> outcome == Ok(()) && after == Some(Replace(before.value, a, n.(isExpanded := false)))) &&
      (!n.isExpanded && r.Err? ==> outcome == Err(r.error) && after == before) &&
      (!n.isExpanded && r.Ok? ==> outcome == Ok(()) && after == Some(Replace(before.value, a, r.value))))
  }

  /** After `openFolder` the visible rows are the entries read, in order, each a
      fresh level-1 node at its own index. */
  lemma {:induction false} OpenFolderVisible(path: string, entries: seq<FileEntry>)
    ensures Visible(Some(RootNode(path, entries))) ==
      seq(|entries|, k requires 0 <= k < |entries| => Shown([k], EntryToNode(entries[k], 1)))
  {
    var ks := Kids(RootNode(path, entries));
    FreshRows(ks, entries, |entries|);
    assert ks[|entries|..] == [];
  }

  /** Rows of collapsed level-1 nodes from index j on. */
  lemma {:induction false} FreshRows(ks: seq<Node>, entries: seq<FileEntry>, n: nat)
    requires n == |ks| == |entries|
    requires forall k :: 0 <= k < n ==> ks[k] == EntryToNode(entries[k], 1)
    ensures forall j :: 0 <= j <= n ==>
      Flatten(ks, [], j) == seq(n - j, i requires 0 <= i < n - j => Shown([j + i], EntryToNode(entries[j + i], 1)))
  {
    forall j | 0 <= j <= n ensures Flatten(ks, [], j) ==
      seq(n - j, i requires 0 <= i < n - j => Shown([j + i], EntryToNode(entries[j + i], 1)))
    {
      FreshRowsFrom(ks, entries, n, j);
    }
  }

  lemma {:induction false} FreshRowsFrom(ks: seq<Node>, entries: seq<FileEntry>, n: nat, j: nat)
    requires n == |ks| == |entries| && j <= n
    requires forall k :: 0 <= k < n ==> ks[k] == EntryToNode(entries[k], 1)
    ensures Flatten(ks, [], j) ==
      seq(n - j, i requires 0 <= i < n - j => Shown([j + i], EntryToNode(entries[j + i], 1)))
    decreases n - j
  {
    if j < n {
      FreshRowsFrom(ks, entries, n, j + 1);
      assert Below(ks[j], [] + [j]) == [];
      assert [] + [j] == [j];
    }
  }
}

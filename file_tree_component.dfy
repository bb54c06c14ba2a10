/** `FileTreeComponent`: clicks and keys on the tree rows, and the indentation,
    arrow and icon each row is drawn with. */
module FileTreeView {
  import opened Wrappers
  import opened Text
  import opened Models
  import opened FileTree

  /** What a key or click asks of collaborators outside the tree: VLC, the
      rename dialog, the delete confirmation. */
  datatype Request = NoRequest | OpenInVlc(path: string) | RenameDialog(row: Shown) | ConfirmDelete(row: Shown)

  /** `nodes.findIndex((n) => n.entry.path === selectedPath)`, and -1 when nothing
      is selected; the empty path is falsy in the source's test and counts as no
      selection. */
  function SelectedIndex(rows: seq<Shown>, selected: Option<string>): (i: int)
    ensures -1 <= i < |rows|
    ensures i >= 0 ==> selected.Some? && selected.value != "" && rows[i].node.entry.path == selected.value
    ensures i >= 0 ==> forall j :: 0 <= j < i ==> rows[j].node.entry.path != selected.value
    ensures i == -1 && selected.Some? && selected.value != "" ==>
      forall j :: 0 <= j < |rows| ==> rows[j].node.entry.path != selected.value
  {
    match selected
    case None => -1
    case Some(p) => if p == "" then -1 else FirstPath(rows, p, 0)
  }

  function FirstPath(rows: seq<Shown>, p: string, k: nat): (i: int)
    requires k <= |rows|
    ensures i == -1 || k <= i < |rows|
    ensures i >= 0 ==> rows[i].node.entry.path == p && forall j :: k <= j < i ==> rows[j].node.entry.path != p
    ensures i == -1 ==> forall j :: k <= j < |rows| ==> rows[j].node.entry.path != p
    decreases |rows| - k
  {
    if k == |rows| then -1
    else if rows[k].node.entry.path == p then k
    else FirstPath(rows, p, k + 1)
  }

  /** The row ArrowDown moves to: the next one, or the first when nothing (or
      nothing visible) is selected, and none from the last row. */
  function DownTarget(i: int, count: nat): (r: Option<nat>)
    requires -1 <= i < count
    ensures r.Some? <==> i < count - 1
    ensures r.Some? ==> r.value == i + 1 && r.value < count
  {
    if i < count - 1 then Some(i + 1) else None
  }

  /** The row ArrowUp moves to: the previous one, and none from the first row or
      without a selection. */
  function UpTarget(i: int): (r: Option<nat>)
    ensures r.Some? <==> i > 0
    ensures r.Some? ==> r.value == i - 1
  {
    if i > 0 then Some(i - 1) else None
  }

  /** `getIndent`: 20 pixels per level. */
  function Indent(n: Node): string {
    NatToString(n.level * 20) + "px"
  }

  /** The indentation reads back as twenty times the level, in pixels. */
  lemma IndentReadsBack(n: Node)
    ensures var s := Indent(n);
      |s| >= 3 && s[|s| - 2..] == "px" &&
      (forall i :: 0 <= i < |s| - 2 ==> '0' <= s[i] <= '9') &&
      ParseNat(s[..|s| - 2]) == 20 * n.level
  {
    var s := Indent(n);
    var digits := NatToString(n.level * 20);
    assert s[..|s| - 2] == digits;
    ParseNatToString(n.level * 20);
  }

  /** `getArrow`: blank for files, down for open folders, right for closed. */
  function Arrow(n: Node): (r: string)
    ensures !n.entry.isDirectory ==> r == "  "
    ensures n.entry.isDirectory ==> r == (if n.isExpanded then "▾" else "▸")
  {
    if !n.entry.isDirectory then "  " else if n.isExpanded then "▾" else "▸"
  }

  /** `getIcon`: a page for files, an open or closed folder otherwise. */
  function Icon(n: Node): (r: string)
    ensures !n.entry.isDirectory ==> r == "📄"
    ensures n.entry.isDirectory ==> r == (if n.isExpanded then "📂" else "📁")
  {
    if !n.entry.isDirectory then "📄" else if n.isExpanded then "📂" else "📁"
  }

  /** Arrow and icon depend on nothing but the two flags, and the three states
      look different from each other. */
  lemma ArrowAndIconByFlags(m: Node, n: Node)
    ensures m.entry.isDirectory == n.entry.isDirectory && (m.isExpanded == n.isExpanded || !m.entry.isDirectory) ==>
      Arrow(m) == Arrow(n) && Icon(m) == Icon(n)
    ensures Arrow(m) == Arrow(n) <==> Icon(m) == Icon(n)
    ensures Arrow(m) == Arrow(n) ==>
      m.entry.isDirectory == n.entry.isDirectory && (m.entry.isDirectory ==> m.isExpanded == n.isExpanded)
  {
  }

  class FileTreeComponent {
    const tree: FileTreeService

    constructor(tree: FileTreeService)
      ensures this.tree == tree
    {
      this.tree := tree;
    }

    /** `onNodeClick`: the row becomes the selection; a folder also toggles. */
    method OnNodeClick(row: Shown, listing: Result<seq<FileEntry>, string>)
      returns (outcome: Result<(), string>)
      modifies tree
      ensures tree.selectedPath == Some(row.node.entry.path)
      ensures !row.node.entry.isDirectory ==> tree.root == old(tree.root) && outcome == Ok(())
      ensures row.node.entry.isDirectory ==> Toggled(old(tree.root), row.address, listing, tree.root, outcome)
    {
      tree.selectedPath := Some(row.node.entry.path);
      outcome := Ok(());
      if row.node.entry.isDirectory {
        outcome := tree.ToggleNode(row.address, listing);
      }
    }

    /** `onKeydown`, given what a directory read would resolve to. */
    method OnKeydown(key: string, listing: Result<seq<FileEntry>, string>)
      returns (request: Request, outcome: Result<(), string>)
      modifies tree
      ensures Visible(old(tree.root)) == [] ==>
        request == NoRequest && outcome == Ok(()) &&
        tree.root == old(tree.root) && tree.selectedPath == old(tree.selectedPath)
      ensures var rows := Visible(old(tree.root));
        var i := SelectedIndex(rows, old(tree.selectedPath));
        rows != [] ==>
          (key == "ArrowDown" ==>
             request == NoRequest && tree.root == old(tree.root) &&
             tree.selectedPath == (if i < |rows| - 1 then Some(rows[i + 1].node.entry.path)
                                   else old(tree.selectedPath))) &&
          (key == "ArrowUp" ==>
             request == NoRequest && tree.root == old(tree.root) &&
             tree.selectedPath == (if i > 0 then Some(rows[i - 1].node.entry.path) else old(tree.selectedPath))) &&
          (key == "ArrowRight" && !(i >= 0 && rows[i].node.entry.isDirectory && !rows[i].node.isExpanded) ==>
             request == NoRequest && tree.root == old(tree.root)) &&
          (key == "ArrowRight" && i >= 0 && rows[i].node.entry.isDirectory && !rows[i].node.isExpanded ==>
             request == NoRequest && Expanded(old(tree.root).value, rows[i], listing, tree.root, outcome)) &&
          (key == "ArrowLeft" && !(i >= 0 && rows[i].node.entry.isDirectory && rows[i].node.isExpanded) ==>
             request == NoRequest && tree.root == old(tree.root)) &&
          (key == "ArrowLeft" && i >= 0 && rows[i].node.entry.isDirectory && rows[i].node.isExpanded ==>
             request == NoRequest &&
             tree.root == Some(Replace(old(tree.root).value, rows[i].address, rows[i].node.(isExpanded := false)))) &&
          (key == "Enter" && i >= 0 && rows[i].node.entry.isDirectory ==>
             request == NoRequest &&
             (rows[i].node.isExpanded ==>
                tree.root == Some(Replace(old(tree.root).value, rows[i].address, rows[i].node.(isExpanded := false)))) &&
             (!rows[i].node.isExpanded ==> Expanded(old(tree.root).value, rows[i], listing, tree.root, outcome))) &&
          (key == "Enter" && i >= 0 && !rows[i].node.entry.isDirectory ==>
             request == OpenInVlc(rows[i].node.entry.path) && tree.root == old(tree.root)) &&
          (key == "Enter" && i < 0 ==> request == NoRequest && tree.root == old(tree.root)) &&
          (!((key == "ArrowRight" || key == "Enter") &&
             i >= 0 && rows[i].node.entry.isDirectory && !rows[i].node.isExpanded) ==>
             outcome == Ok(())) &&
          (key == "F2" ==>
             request == (if i >= 0 then RenameDialog(rows[i]) else NoRequest) && tree.root == old(tree.root)) &&
          (key == "Delete" ==>
             request == (if i >= 0 then ConfirmDelete(rows[i]) else NoRequest) && tree.root == old(tree.root)) &&
          (key !in {"ArrowDown", "ArrowUp", "ArrowRight", "ArrowLeft", "Enter", "F2", "Delete"} ==>
             request == NoRequest && tree.root == old(tree.root))
      ensures key != "ArrowDown" && key != "ArrowUp" ==> tree.selectedPath == old(tree.selectedPath)
    {
      request := NoRequest;
      outcome := Ok(());
      var rows := tree.VisibleNodes();
      if |rows| == 0 {
        return;
      }
      var i := SelectedIndex(rows, tree.selectedPath);
      if key == "ArrowDown" {
        var target := DownTarget(i, |rows|);
        if target.Some? {
          tree.selectedPath := Some(rows[target.value].node.entry.path);
        }
      } else if key == "ArrowUp" {
        var target := UpTarget(i);
        if target.Some? {
          tree.selectedPath := Some(rows[target.value].node.entry.path);
        }
      } else if key == "ArrowRight" {
        if i >= 0 && rows[i].node.entry.isDirectory && !rows[i].node.isExpanded {
          ShownNodeAt(tree.root.value, rows[i]);
          outcome := tree.ExpandNode(rows[i].address, listing);
        }
      } else if key == "ArrowLeft" {
        if i >= 0 && rows[i].node.entry.isDirectory && rows[i].node.isExpanded {
          ShownNodeAt(tree.root.value, rows[i]);
          tree.CollapseNode(rows[i].address);
        }
      } else if key == "Enter" {
        if i >= 0 && rows[i].node.entry.isDirectory {
          ShownNodeAt(tree.root.value, rows[i]);
          outcome := tree.ToggleNode(rows[i].address, listing);
        } else if i >= 0 {
          request := OpenInVlc(rows[i].node.entry.path);
        }
      } else if key == "F2" {
        if i >= 0 {
          request := RenameDialog(rows[i]);
        }
      } else if key == "Delete" {
        if i >= 0 {
          request := ConfirmDelete(rows[i]);
        }
      }
    }
  }

  /** The tree and outcome `expandNode` leaves for a shown row. */
  ghost predicate Expanded(t: Node, row: Shown, listing: Result<seq<FileEntry>, string>,
                           root: Option<Node>, outcome: Result<(), string>)
  {
    var r := Expansion(row.node, listing);
    (r.Err? ==> outcome == Err(r.error) && root == Some(t)) &&
    (r.Ok? ==> outcome == Ok(()) && root == Some(Replace(t, row.address, r.value)))
  }

  /** A shown row's node is the one at its address. */
  lemma ShownNodeAt(t: Node, row: Shown)
    requires row in Visible(Some(t))
    ensures NodeAt(t, row.address) == Some(row.node)
  {
    VisibleExactly(t, row.address, row.node);
  }
}

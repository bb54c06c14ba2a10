/** `ContextMenuService`: the menu offered for a tree row, which items of it are
    enabled, and the guarded delete behind its Delete item. */
module ContextMenu {
  import opened Wrappers
  import opened Text
  import opened Models
  import opened FileTree
  import VideoCommands

  /** The extensions the menu treats as video, listed again in the front end. */
  const MenuVideoExtensions: seq<string> := ["mp4", "mkv", "avi", "webm", "mov", "mpg", "mpeg"]

  /** What choosing an item does. */
  datatype Action =
    | Nothing
    | OpenInVlc(path: string)
    | PreviewFolder(path: string)
    | PreviewFile(path: string)
    | ShowInFileManager(path: string)
    | CopyPath(path: string)
    | Encode(row: Shown)
    | Decode(row: Shown)
    | Rename(row: Shown)
    | Delete(row: Shown)
    | Refresh(row: Shown)
    | SelectForMove(row: Shown)
    | MoveHere(row: Shown)

  datatype MenuItem = MenuItem(caption: string, enabled: bool, separator: bool, action: Action)

  const Separator := MenuItem("", false, true, Nothing)

  /** The front end's own video test: a file whose lowercased text after the
      last '.' is listed. */
  predicate IsVideoFile(e: FileEntry) {
    !e.isDirectory && Lower(LastSegment(e.name, '.')) in MenuVideoExtensions
  }

  /** The menu for a row. `canEncode` is what `can_encode_node` answered for its
      path, `moveSource` the entry selected for moving, if any, and `canMoveHere`
      whether that entry may be moved below this row. */
  function MenuItems(row: Shown, canEncode: bool, moveSource: Option<FileEntry>, canMoveHere: bool)
    : (items: seq<MenuItem>)
    ensures |items| == 15
    ensures forall k :: 0 <= k < |items| ==>
      (items[k].separator <==> k == 4 || k == 8 || k == 10 || k == 12)
    ensures forall k :: 0 <= k < |items| && items[k].separator ==> !items[k].enabled && items[k].action == Nothing
  {
    var e := row.node.entry;
    var isVideo := IsVideoFile(e);
    [ MenuItem("Open in VLC Player", !e.isDirectory, false, OpenInVlc(e.path)),
      MenuItem("Video Preview", isVideo || e.isDirectory, false,
               if e.isDirectory then PreviewFolder(e.path) else PreviewFile(e.path)),
      MenuItem("Show in File Manager", true, false, ShowInFileManager(e.path)),
      MenuItem("Copy Path", true, false, CopyPath(e.path)),
      Separator,
      MenuItem("Encode" + (if !canEncode then " (maybe too long)" else ""), e.isDirectory || !e.isEncoded,
               false, Encode(row)),
      MenuItem("Decode", e.isDirectory || e.isEncoded, false, Decode(row)),
      MenuItem("Rename", true, false, Rename(row)),
      Separator,
      MenuItem("Delete", true, false, Delete(row)),
      Separator,
      MenuItem("Refresh", e.isDirectory, false, Refresh(row)),
      Separator,
      MenuItem("Select for Move", true, false, SelectForMove(row)),
      MenuItem(if moveSource.Some? then "Move [" + moveSource.value.name + "] here" else "Select for Move first",
               canMoveHere, false, MoveHere(row))
    ]
  }

  /** The front end's extension list and test agree with the back end's
      classifier of plain names. */
  lemma SameVideoTest(name: string)
    ensures Lower(LastSegment(name, '.')) in MenuVideoExtensions <==> VideoCommands.IsVideoName(name)
  {
    assert MenuVideoExtensions == VideoCommands.VideoExtensions;
  }

  /** 'Open in VLC Player' is offered for files only. */
  lemma OpenInVlcItem(row: Shown, canEncode: bool, moveSource: Option<FileEntry>, canMoveHere: bool)
    ensures var item := MenuItems(row, canEncode, moveSource, canMoveHere)[0];
      item.caption == "Open in VLC Player" && item.action == OpenInVlc(row.node.entry.path) &&
      (item.enabled <==> !row.node.entry.isDirectory)
  {
  }

  /** 'Video Preview' is offered for folders and for the files the back end
      classifies as video, and previews a whole folder or a single file. */
  lemma VideoPreviewItem(row: Shown, canEncode: bool, moveSource: Option<FileEntry>, canMoveHere: bool)
    ensures var e := row.node.entry;
      var item := MenuItems(row, canEncode, moveSource, canMoveHere)[1];
      item.caption == "Video Preview" &&
      (item.enabled <==> e.isDirectory || VideoCommands.IsVideoName(e.name)) &&
      item.action == (if e.isDirectory then PreviewFolder(e.path) else PreviewFile(e.path))
  {
    SameVideoTest(row.node.entry.name);
  }

  /** Encode warns in its caption when the encoded name may be too long, and is
      offered for folders and for files not yet encoded; Decode for folders and
      for encoded files. */
  lemma EncodeDecodeItems(row: Shown, canEncode: bool, moveSource: Option<FileEntry>, canMoveHere: bool)
    ensures var e := row.node.entry;
      var items := MenuItems(row, canEncode, moveSource, canMoveHere);
      items[5].caption == (if canEncode then "Encode" else "Encode (maybe too long)") &&
      items[5].action == Encode(row) && (items[5].enabled <==> e.isDirectory || !e.isEncoded) &&
      items[6].caption == "Decode" && items[6].action == Decode(row) &&
      (items[6].enabled <==> e.isDirectory || e.isEncoded)
  {
  }

  /** Rename, Delete, Show in File Manager, Copy Path and Select for Move are
      always offered. */
  lemma AlwaysOffered(row: Shown, canEncode: bool, moveSource: Option<FileEntry>, canMoveHere: bool)
    ensures var items := MenuItems(row, canEncode, moveSource, canMoveHere);
      items[2].enabled && items[2].action == ShowInFileManager(row.node.entry.path) &&
      items[3].enabled && items[3].action == CopyPath(row.node.entry.path) &&
      items[7].enabled && items[7].action == Rename(row) &&
      items[9].enabled && items[9].action == Delete(row) &&
      items[13].enabled && items[13].action == SelectForMove(row)
  {
  }

  /** Refresh is offered for folders only. */
  lemma RefreshItem(row: Shown, canEncode: bool, moveSource: Option<FileEntry>, canMoveHere: bool)
    ensures var item := MenuItems(row, canEncode, moveSource, canMoveHere)[11];
      item.caption == "Refresh" && item.action == Refresh(row) && (item.enabled <==> row.node.entry.isDirectory)
  {
  }

  /** The last item names the entry selected for moving, or asks for one, and is
      offered exactly when that entry may move below this row. */
  lemma MoveItem(row: Shown, canEncode: bool, moveSource: Option<FileEntry>, canMoveHere: bool)
    ensures var item := MenuItems(row, canEncode, moveSource, canMoveHere)[14];
      item.caption == (if moveSource.Some? then "Move [" + moveSource.value.name + "] here"
                       else "Select for Move first") &&
      item.action == MoveHere(row) && (item.enabled <==> canMoveHere)
  {
  }

  /** Every row gets the same items in the same order: only the Encode and Move
      labels and the enabled flags depend on the row. */
  lemma MenuLabelsFixed(r1: Shown, c1: bool, m1: Option<FileEntry>, h1: bool,
                        r2: Shown, c2: bool, m2: Option<FileEntry>, h2: bool)
    ensures var a := MenuItems(r1, c1, m1, h1);
      var b := MenuItems(r2, c2, m2, h2);
      forall k :: 0 <= k < 15 && k != 5 && k != 14 ==> a[k].caption == b[k].caption
  {
  }

  /** A folder can be refreshed but not played; a file can be played but not
      refreshed. */
  lemma PlayOrRefresh(row: Shown, canEncode: bool, moveSource: Option<FileEntry>, canMoveHere: bool)
    ensures var items := MenuItems(row, canEncode, moveSource, canMoveHere);
      items[0].enabled != items[11].enabled
  {
  }

  /** For a file exactly one of Encode and Decode is offered; for a folder both. */
  lemma EncodeOrDecode(row: Shown, canEncode: bool, moveSource: Option<FileEntry>, canMoveHere: bool)
    ensures var items := MenuItems(row, canEncode, moveSource, canMoveHere);
      (row.node.entry.isDirectory ==> items[5].enabled && items[6].enabled) &&
      (!row.node.entry.isDirectory ==> items[5].enabled != items[6].enabled)
  {
  }

  /** The dialog `confirmDelete` puts up. */
  datatype Dialog = TooManyChildren | AskDelete(question: string)

  /** The confirmation question, naming the child count when there are any. */
  function DeleteQuestion(name: string, count: nat): string {
    "Really delete '" + name + "'?" + (if count > 0 then "\nIt has " + NatToString(count) + " children" else "")
  }

  /** The question names the entry, and it mentions children exactly when there
      are some, with a count that reads back as the number of children. */
  lemma DeleteQuestionReadsBack(name: string, count: nat)
    ensures var q := DeleteQuestion(name, count);
      var head := "Really delete '" + name + "'?";
      StartsWith(q, head) &&
      (count == 0 ==> q == head) &&
      (count > 0 ==>
        var digits := q[|head| + 8..|q| - 9];
        |q| > |head| + 17 && q[|head|..|head| + 8] == "\nIt has " && q[|q| - 9..] == " children" &&
        (forall i :: 0 <= i < |digits| ==> '0' <= digits[i] <= '9') &&
        ParseNat(digits) == count)
  {
    var head := "Really delete '" + name + "'?";
    var q := DeleteQuestion(name, count);
    assert q[..|head|] == head;
    if count > 0 {
      var n := NatToString(count);
      assert q == head + "\nIt has " + n + " children";
      assert q[|head| + 8..|q| - 9] == n;
      ParseNatToString(count);
    }
  }

  /** What `deleteNode` leaves for the address, given what removing the entry
      from disk would resolve to. */
  ghost predicate Deleted(before: Option<Node>, a: Address, removal: Result<(), string>,
                          after: Option<Node>, outcome: Result<(), string>)
  {
    (removal.Err? ==> outcome == Err(removal.error) && after == before) &&
    (removal.Ok? && before.None? ==> outcome == Err(NullRootError) && after == None) &&
    (removal.Ok? && before.Some? ==>
      outcome == Ok(()) &&
      after == if |a| >= 1 && NodeAt(before.value, a).Some? then Some(Removed(before.value, a)) else before)
  }

  class ContextMenuService {
    /** Whether a menu component has registered itself. */
    var registered: bool
    const tree: FileTreeService

    constructor(tree: FileTreeService)
      ensures this.tree == tree && !registered
    {
      this.tree := tree;
      registered := false;
    }

    method Register()
      modifies this
      ensures registered
    {
      registered := true;
    }

    /** `show`: without a registered menu component nothing is shown; otherwise
        the menu for the row. */
    method Show(row: Shown, canEncode: bool, moveSource: Option<FileEntry>, canMoveHere: bool)
      returns (shown: Option<seq<MenuItem>>)
      ensures !registered ==> shown == None
      ensures registered ==>
        shown == Some(MenuItems(row, canEncode, moveSource, canMoveHere))
    {
      if !registered {
        return None;
      }
      shown := Some(MenuItems(row, canEncode, moveSource, canMoveHere));
    }

    /** `confirmDelete`, given what `countChildren` resolves to (asked for folders
        only), the user's answer and what removing the entry would resolve to. A
        folder with more than five children is refused; a deletion happens only
        after a yes. */
    method ConfirmDelete(row: Shown, count: Result<nat, string>, confirmed: bool, removal: Result<(), string>)
      returns (dialog: Option<Dialog>, outcome: Result<(), string>)
      modifies tree
      ensures tree.selectedPath == old(tree.selectedPath)
      ensures var c := if row.node.entry.isDirectory then count else Ok(0);
        (c.Err? ==> dialog == None && outcome == Err(c.error) && tree.root == old(tree.root)) &&
        (c.Ok? && c.value > 5 ==> dialog == Some(TooManyChildren) && outcome == Ok(()) && tree.root == old(tree.root)) &&
        (c.Ok? && c.value <= 5 ==>
          dialog == Some(AskDelete(DeleteQuestion(row.node.entry.name, c.value))) &&
          (!confirmed ==> outcome == Ok(()) && tree.root == old(tree.root)) &&
          (confirmed ==> Deleted(old(tree.root), row.address, removal, tree.root, outcome)))
    {
      var c := if row.node.entry.isDirectory then count else Ok(0);
      if c.Err? {
        return None, Err(c.error);
      }
      if c.value > 5 {
        return Some(TooManyChildren), Ok(());
      }
      dialog := Some(AskDelete(DeleteQuestion(row.node.entry.name, c.value)));
      outcome := Ok(());
      if confirmed {
        outcome := tree.DeleteNode(row.address, removal);
      }
    }
  }
}

/** `SearchPanelComponent`: the keys of the search box and the way a result's
    path is shown below the opened folder. */
module SearchPanel {
  import opened Wrappers
  import opened Text
  import opened Models
  import opened FileTree
  import opened Search

  /** A path shown relative to `rootPath`: the root and the one character after
      it are cut off when the path starts with the root; otherwise the path is
      kept whole. */
  function StripRoot(path: string, rootPath: string): (r: string)
    ensures |r| <= |path| && path[|path| - |r|..] == r
    ensures !StartsWith(path, rootPath) ==> r == path
    ensures StartsWith(path, rootPath) && |path| > |rootPath| ==> |r| == |path| - |rootPath| - 1
    ensures StartsWith(path, rootPath) && |path| == |rootPath| ==> r == ""
  {
    if StartsWith(path, rootPath) then Drop(path, |rootPath| + 1) else path
  }

  /** Below the root, whatever single separator follows it, the rest of the path
      is what is shown. */
  lemma StripRootBelow(rootPath: string, sep: char, rel: string)
    ensures StripRoot(rootPath + [sep] + rel, rootPath) == rel
  {
    var path := rootPath + [sep] + rel;
    assert path[..|rootPath|] == rootPath;
    assert path[|rootPath| + 1..] == rel;
  }

  /** A sibling folder whose name merely begins with the root's name is cut as
      well: the character after the root need not be a '/'. */
  lemma StripRootSiblingPrefix()
    ensures StripRoot("/videos2/a.mp4", "/videos") == "/a.mp4"
  {
    StripRootBelow("/videos", '2', "/a.mp4");
    assert "/videos2/a.mp4" == "/videos" + ['2'] + "/a.mp4";
  }

  class SearchPanelComponent {
    const search: SearchService
    const tree: FileTreeService

    constructor(search: SearchService, tree: FileTreeService)
      ensures this.search == search && this.tree == tree
    {
      this.search := search;
      this.tree := tree;
    }

    /** `getRelativePath`: the entry's path relative to the opened folder, or the
        whole path when no folder is open. */
    function RelativePath(entry: FileEntry): (r: string)
      reads tree
      ensures |r| <= |entry.path| && entry.path[|entry.path| - |r|..] == r
      ensures tree.root.None? ==> r == entry.path
      ensures tree.root.Some? ==> r == StripRoot(entry.path, tree.root.value.entry.path)
    {
      match tree.root
      case None => entry.path
      case Some(root) => StripRoot(entry.path, root.entry.path)
    }

    /** `onKeydown`: Enter searches for what the box holds, Escape clears, any
        other key does nothing. `input` is the box's text, or None when the box
        is not rendered; `found` is what `searchFiles` would resolve to. */
    method OnKeydown(key: string, input: Option<string>, found: Result<seq<FileEntry>, string>)
      returns (outcome: Result<(), string>)
      modifies search
      ensures key == "Enter" ==> Searched(old(tree.root), old(search.results), old(search.query),
                                          old(search.searchActive), input, found, search.results,
                                          search.query, search.searchActive, outcome)
      ensures key == "Escape" ==>
        !search.searchActive && search.results == [] && search.query == "" && outcome == Ok(())
      ensures key != "Enter" && key != "Escape" ==>
        search.results == old(search.results) && search.query == old(search.query) &&
        search.searchActive == old(search.searchActive) && outcome == Ok(())
    {
      outcome := Ok(());
      if key == "Enter" {
        outcome := DoSearch(input, found);
      } else if key == "Escape" {
        search.Clear();
      }
    }

    /** `doSearch`: nothing happens without an opened folder; otherwise the box's
        text (empty when the box is missing) is searched for below the root. */
    method DoSearch(input: Option<string>, found: Result<seq<FileEntry>, string>)
      returns (outcome: Result<(), string>)
      modifies search
      ensures Searched(old(tree.root), old(search.results), old(search.query), old(search.searchActive),
                       input, found, search.results, search.query, search.searchActive, outcome)
    {
      outcome := Ok(());
      if tree.root.None? {
        return;
      }
      outcome := search.Search(tree.root.value.entry.path, input.GetOr(""), found);
    }
  }

  /** The search state `doSearch` leaves: unchanged without a root; otherwise the
      query is the box's text and the results are cleared for a blank query,
      replaced by what was found, or kept when the search failed. */
  ghost predicate Searched(root: Option<Node>, results: seq<FileEntry>, query: string, active: bool,
                           input: Option<string>, found: Result<seq<FileEntry>, string>,
                           results': seq<FileEntry>, query': string, active': bool,
                           outcome: Result<(), string>)
  {
    active' == active &&
    (root.None? ==> results' == results && query' == query && outcome == Ok(())) &&
    (root.Some? ==>
      var q := input.GetOr("");
      query' == q &&
      (IsBlank(q) ==> results' == [] && outcome == Ok(())) &&
      (!IsBlank(q) && found.Err? ==> results' == results && outcome == Err(found.error)) &&
      (!IsBlank(q) && found.Ok? ==> results' == found.value && outcome == Ok(())))
  }
}

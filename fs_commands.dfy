/** `read_directory` of `fs_commands.rs`: one `FileEntry` per directory entry,
    except the excluded names, with encoded names decoded for display, sorted by
    lowercased display name. What the file system reports is a parameter. */
module FsCommands {
  import opened Wrappers
  import opened Models
  import opened Text
  import opened Sorting
  import EncodedDir

  const ExcludedFiles: seq<string> := [".gitignore"]

  /** One item of `fs::read_dir`: either an entry, with whether it is a directory
      and, for a directory, whether listing it yields at least one entry (false
      when it cannot be listed), or an error reading the entry. */
  datatype DirItem =
    | Readable(fileName: string, entryPath: string, isDirectory: bool, hasAnyEntry: bool)
    | Unreadable(reason: string)

  /** The `FileEntry` built for one readable item. */
  function MakeEntry(item: DirItem): (e: FileEntry)
    requires item.Readable?
    ensures e.physicalName == item.fileName && e.path == item.entryPath
    ensures e.decodedName == EncodedDir.TryDecodeName(item.fileName)
    ensures e.isEncoded <==> e.decodedName.Some?
    ensures e.name == if e.decodedName.Some? then e.decodedName.value else item.fileName
    ensures e.hasChildren ==> e.isDirectory
  {
    var decoded := EncodedDir.TryDecodeName(item.fileName);
    FileEntry(
      path := item.entryPath,
      name := decoded.GetOr(item.fileName),
      physicalName := item.fileName,
      isDirectory := item.isDirectory,
      isEncoded := decoded.Some?,
      decodedName := decoded,
      hasChildren := if item.isDirectory then item.hasAnyEntry else false)
  }

  /** The entries of the items in order, skipping excluded names, or the first
      entry error. */
  function Collect(items: seq<DirItem>): Result<seq<FileEntry>, string>
    decreases |items|
  {
    if |items| == 0 then Ok([])
    else
      var item := items[0];
      match item
      case Unreadable(reason) => Err("Failed to read entry: " + reason)
      case Readable(_, _, _, _) =>
        match Collect(items[1..])
        case Err(e) => Err(e)
        case Ok(rest) =>
          if item.fileName in ExcludedFiles then Ok(rest) else Ok([MakeEntry(item)] + rest)
  }

  /** The items that end up in the listing. */
  ghost predicate Listed(items: seq<DirItem>, e: FileEntry) {
    exists i :: 0 <= i < |items| && items[i].Readable? && items[i].fileName !in ExcludedFiles &&
      e == MakeEntry(items[i])
  }

  /** Every collected entry comes from a readable, non-excluded item, and every
      such item gives one. */
  lemma {:induction false} CollectEntries(items: seq<DirItem>)
    requires Collect(items).Ok?
    ensures forall e :: e in Collect(items).value <==> Listed(items, e)
    ensures forall i :: 0 <= i < |items| ==> items[i].Readable?
    decreases |items|
  {
    if |items| > 0 {
      CollectEntries(items[1..]);
      var rest := Collect(items[1..]).value;
      forall e | Listed(items, e) ensures e in Collect(items).value {
        var i :| 0 <= i < |items| && items[i].Readable? && items[i].fileName !in ExcludedFiles &&
          e == MakeEntry(items[i]);
        if i > 0 {
          assert items[1..][i - 1] == items[i];
        }
      }
      forall e | e in rest ensures Listed(items, e) {
        assert Listed(items[1..], e);
        var i :| 0 <= i < |items[1..]| && items[1..][i].Readable? &&
          items[1..][i].fileName !in ExcludedFiles && e == MakeEntry(items[1..][i]);
        assert items[i + 1] == items[1..][i];
      }
      forall i | 0 <= i < |items| ensures items[i].Readable? {
        if i > 0 {
          assert items[1..][i - 1] == items[i];
        }
      }
    }
  }

  /** Collecting fails exactly when some entry cannot be read, with the first
      such entry's reason. */
  lemma {:induction false} CollectFails(items: seq<DirItem>, k: nat)
    requires k < |items| && items[k].Unreadable?
    requires forall i :: 0 <= i < k ==> items[i].Readable?
    ensures Collect(items) == Err("Failed to read entry: " + items[k].reason)
    decreases k
  {
    if k > 0 {
      assert forall i :: 0 <= i < k - 1 ==> items[1..][i] == items[i + 1];
      CollectFails(items[1..], k - 1);
    }
  }

  /** The display name's lowercase form, the sort key. */
  function NameKey(e: FileEntry): string {
    Lower(e.name)
  }

  /** `read_directory`: Err for a path that is not a directory or that cannot be
      listed, Err at the first unreadable entry, and otherwise the entries of the
      listing sorted by lowercased name. */
  method ReadDirectory(path: string, isDirectory: bool, listing: Result<seq<DirItem>, string>)
    returns (r: Result<seq<FileEntry>, string>)
    ensures !isDirectory ==> r == Err("Not a directory: " + path)
    ensures isDirectory && listing.Err? ==> r == Err("Failed to read directory: " + listing.error)
    ensures isDirectory && listing.Ok? ==>
      match Collect(listing.value)
      case Err(e) => r == Err(e)
      case Ok(entries) => r.Ok? && multiset(r.value) == multiset(entries) && SortedBy(r.value, NameKey)
  {
    if !isDirectory {
      return Err("Not a directory: " + path);
    }
    if listing.Err? {
      return Err("Failed to read directory: " + listing.error);
    }
    var items := listing.value;
    var fileEntries: seq<FileEntry> := [];
    assert items[0..] == items;
    assert Prepend([], Collect(items)) == Collect(items) by {
      if Collect(items).Ok? {
        assert [] + Collect(items).value == Collect(items).value;
      }
    }
    for i := 0 to |items|
      invariant Collect(items) == Prepend(fileEntries, Collect(items[i..]))
    {
      var item := items[i];
      CollectStep(items, i);
      if item.Unreadable? {
        return Err("Failed to read entry: " + item.reason);
      }
      if item.fileName in ExcludedFiles {
        continue;
      }
      PrependTwice(fileEntries, [MakeEntry(item)], Collect(items[i + 1..]));
      fileEntries := fileEntries + [MakeEntry(item)];
    }
    assert items[|items|..] == [];
    SortByPermutes(fileEntries, NameKey);
    SortBySorted(fileEntries, NameKey);
    r := Ok(SortBy(fileEntries, NameKey));
  }

  /** `front` placed before the entries of a successful result; errors pass through. */
  function Prepend(front: seq<FileEntry>, r: Result<seq<FileEntry>, string>): Result<seq<FileEntry>, string> {
    match r
    case Ok(rest) => Ok(front + rest)
    case Err(e) => Err(e)
  }

  lemma PrependTwice(a: seq<FileEntry>, b: seq<FileEntry>, r: Result<seq<FileEntry>, string>)
    ensures Prepend(a, Prepend(b, r)) == Prepend(a + b, r)
  {
    if r.Ok? {
      assert a + (b + r.value) == (a + b) + r.value;
    }
  }

  /** One step of Collect from position i. */
  lemma CollectStep(items: seq<DirItem>, i: nat)
    requires i < |items|
    ensures items[i..][0] == items[i] && items[i..][1..] == items[i + 1..]
  {
  }

  /** The listing keeps out excluded names and keeps the entry rules: no entry is
      ".gitignore", the name is the decoded name when there is one, `isEncoded`
      says whether there is one, and only directories have children. */
  lemma ListingRules(items: seq<DirItem>)
    requires Collect(items).Ok?
    ensures forall e :: e in Collect(items).value ==>
      e.physicalName !in ExcludedFiles &&
      (e.isEncoded <==> e.decodedName.Some?) &&
      e.name == (if e.decodedName.Some? then e.decodedName.value else e.physicalName) &&
      (e.hasChildren ==> e.isDirectory)
  {
    CollectEntries(items);
  }
}

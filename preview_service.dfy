/** `PreviewService` (`preview.service.ts`): one preview run at a time, for a single
    video or for every video of a folder. Each `await` of the two async
    generators is a suspension point; the value of type FileAwait or FolderAwait
    is what the suspended run holds, and each continuation method is what runs
    when the awaited promise settles. Every run captures the `generationId` it
    started with, and every continuation first compares it with the current one:
    a run that has been superseded by a newer run or by `close` changes nothing. */
module Preview {
  import opened Wrappers
  import opened Models
  import opened Text
  import opened Timestamps
  import VideoCommands

  // ------------------------------------------------------------ timestamps

  /** The TypeScript loop `while (t < duration) t += interval` ends unless the
      interval is not positive and still below the duration. */
  predicate PlanTerminates(duration: real, mode: FrameMode) {
    mode.Fixed? || mode.minutes * 60.0 > 0.0 || mode.minutes * 60.0 >= duration
  }

  /** The sample times for a mode, as the shared plan of the Timestamps module. */
  function Plan(duration: real, mode: FrameMode): seq<real>
    requires PlanTerminates(duration, mode)
  {
    match mode
    case Fixed(count) => FixedPlan(duration, count)
    case Interval(minutes) => if minutes * 60.0 > 0.0 then IntervalPlan(duration, minutes * 60.0) else []
  }

  /** `calculateTimestamps`: the comprehension of the fixed mode, and the loop of the
      interval mode. */
  method CalculateTimestamps(duration: real, mode: FrameMode) returns (timestamps: seq<real>)
    requires PlanTerminates(duration, mode)
    ensures timestamps == Plan(duration, mode)
    ensures mode.Fixed? ==> |timestamps| == mode.count
    ensures mode.Interval? && mode.minutes * 60.0 >= duration ==> timestamps == []
  {
    match mode
    case Fixed(count) =>
      timestamps := FixedPlan(duration, count);
    case Interval(minutes) =>
      var interval := minutes * 60.0;
      if interval > 0.0 {
        timestamps := IntervalLoop(duration, interval);
        IntervalPlanEmpty(duration, interval);
      } else {
        timestamps := [];
      }
  }

  // ---------------------------------------------------------- folder entries

  /** `filePath` relative to the folder: the part after the folder path with one
      leading '/' removed, or the whole path when it lies outside the folder. */
  function RelativePath(folderPath: string, filePath: string): (r: string)
    ensures !StartsWith(filePath, folderPath) ==> r == filePath
    ensures StartsWith(filePath, folderPath) ==> filePath == folderPath + r || filePath == folderPath + "/" + r
    ensures StartsWith(filePath, folderPath) && |filePath| > |folderPath| && filePath[|folderPath|] == '/' ==>
      filePath == folderPath + "/" + r
    ensures StartsWith(filePath, folderPath) && !(|filePath| > |folderPath| && filePath[|folderPath|] == '/') ==>
      filePath == folderPath + r
  {
    if StartsWith(filePath, folderPath) then
      var rest := filePath[|folderPath|..];
      assert filePath == folderPath + rest;
      if |rest| > 0 && rest[0] == '/' then
        assert rest == "/" + rest[1..];
        rest[1..]
      else rest
    else filePath
  }

  /** `Partial<FolderVideoEntry>`: the fields an update replaces. */
  datatype EntryPatch = EntryPatch(
    filePath: Option<string>,
    relativePath: Option<string>,
    info: Option<Option<VideoInfo>>,
    frames: Option<seq<VideoFrame>>,
    error: Option<Option<string>>)

  const NoChange := EntryPatch(None, None, None, None, None)

  /** `{ ...entry, ...patch }`. */
  function Apply(entry: FolderVideoEntry, patch: EntryPatch): (r: FolderVideoEntry)
    ensures r.filePath == (if patch.filePath.Some? then patch.filePath.value else entry.filePath)
    ensures r.relativePath == (if patch.relativePath.Some? then patch.relativePath.value else entry.relativePath)
    ensures r.info == (if patch.info.Some? then patch.info.value else entry.info)
    ensures r.frames == (if patch.frames.Some? then patch.frames.value else entry.frames)
    ensures r.error == (if patch.error.Some? then patch.error.value else entry.error)
  {
    FolderVideoEntry(
      patch.filePath.GetOr(entry.filePath),
      patch.relativePath.GetOr(entry.relativePath),
      patch.info.GetOr(entry.info),
      patch.frames.GetOr(entry.frames),
      patch.error.GetOr(entry.error))
  }

  /** An empty patch changes nothing, and patching one field twice keeps the last. */
  lemma ApplyLaws(entry: FolderVideoEntry, p: EntryPatch, q: EntryPatch)
    ensures Apply(entry, NoChange) == entry
    ensures q.filePath.Some? && q.relativePath.Some? && q.info.Some? && q.frames.Some? && q.error.Some? ==>
      Apply(Apply(entry, p), q) == Apply(entry, q)
  {
  }

  // --------------------------------------------------------- suspended runs

  /** Where a single-file run waits: for the video's info, or for frame `i` of the
      plan. */
  datatype FileAwait =
    | AwaitInfo(id: nat, path: string)
    | AwaitFrame(id: nat, path: string, timestamps: seq<real>, i: nat)
  {
    predicate Valid() {
      AwaitFrame? ==> i < |timestamps|
    }
  }

  /** Where a folder run waits: for the list of files, for the info of file k
      (shown at `entryIndex`), or for frame `i` of that file. */
  datatype FolderAwait =
    | AwaitList(id: nat, folderPath: string)
    | AwaitEntryInfo(id: nat, folderPath: string, files: seq<string>, k: nat, entryIndex: nat)
    | AwaitEntryFrame(id: nat, folderPath: string, files: seq<string>, k: nat, entryIndex: nat,
                      timestamps: seq<real>, i: nat)
  {
    predicate Valid() {
      (!AwaitList? ==> k < |files|) && (AwaitEntryFrame? ==> i < |timestamps|)
    }

    /** The entry the run writes to exists among `n` entries. */
    predicate IndexBelow(n: nat) {
      !AwaitList? ==> entryIndex < n
    }
  }

  /** What `regenerate` and the selection trigger start. */
  datatype Started = NothingStarted | FileStarted(file: FileAwait) | FolderStarted(folder: FolderAwait)

  /** Every field of the service at one moment. */
  datatype State = State(
    generationId: nat,
    active: bool,
    loading: bool,
    frames: seq<VideoFrame>,
    error: Option<string>,
    currentPath: Option<string>,
    mode: FrameMode,
    totalFrames: nat,
    info: Option<VideoInfo>,
    folderMode: bool,
    folderEntries: seq<FolderVideoEntry>,
    folderPath: Option<string>)

  /** The fields as `generateFrames(path)` leaves them before its first `await`:
      a new generation, an open and loading preview of `path`, everything else
      cleared; the mode stays. */
  function FileRunStart(s: State, path: string): State {
    State(s.generationId + 1, true, true, [], None, Some(path), s.mode, 0, None, false, [], None)
  }

  /** The fields as `generateFolderFrames(path)` leaves them before its first
      `await`. */
  function FolderRunStart(s: State, path: string): State {
    State(s.generationId + 1, true, true, [], None, None, s.mode, 0, None, true, [], Some(path))
  }

  /** A fresh entry for a file of the folder: no info, no frames, no error. */
  function FreshEntry(folderPath: string, filePath: string): FolderVideoEntry {
    FolderVideoEntry(filePath, RelativePath(folderPath, filePath), None, [], None)
  }

  /** The loop over the files at file k: the entry for file k is appended, or,
      after the last file, the `finally` block stops loading. */
  function AtFile(s: State, folderPath: string, files: seq<string>, k: nat): State
    requires k <= |files|
  {
    if k < |files| then s.(folderEntries := s.folderEntries + [FreshEntry(folderPath, files[k])])
    else s.(loading := false)
  }

  /** Where the loop waits at file k: for the info of the entry just appended, or
      nowhere after the last file. */
  function AwaitAtFile(s: State, id: nat, folderPath: string, files: seq<string>, k: nat): Option<FolderAwait> {
    if k < |files| then Some(AwaitEntryInfo(id, folderPath, files, k, |s.folderEntries|)) else None
  }

  /** The fields after `updateFolderEntry(index, patch)`. */
  function Patched(s: State, index: nat, patch: EntryPatch): State
    requires index < |s.folderEntries|
  {
    s.(folderEntries := s.folderEntries[index := Apply(s.folderEntries[index], patch)])
  }

  class PreviewService {
    var generationId: nat
    var active: bool
    var loading: bool
    var frames: seq<VideoFrame>
    var error: Option<string>
    var currentPath: Option<string>
    var mode: FrameMode
    var totalFrames: nat
    var info: Option<VideoInfo>
    var folderMode: bool
    var folderEntries: seq<FolderVideoEntry>
    var folderPath: Option<string>

    function Snapshot(): State
      reads this
    {
      State(generationId, active, loading, frames, error, currentPath, mode, totalFrames, info,
            folderMode, folderEntries, folderPath)
    }

    /** What holds between any two calls: nothing loads unless the preview is
        open, and a preview is either of one file or of one folder. */
    predicate Valid()
      reads this
    {
      (loading ==> active) &&
      (folderMode ==> currentPath.None?) &&
      (!folderMode ==> folderPath.None?)
    }

    constructor()
      ensures Valid()
      ensures Snapshot() == State(0, false, false, [], None, None, Fixed(9), 0, None, false, [], None)
    {
      generationId := 0;
      active := false;
      loading := false;
      frames := [];
      error := None;
      currentPath := None;
      mode := Fixed(9);
      totalFrames := 0;
      info := None;
      folderMode := false;
      folderEntries := [];
      folderPath := None;
    }

    /** The `finally` block: a run that is still current stops loading. */
    method Finish(id: nat)
      modifies this
      ensures id == old(generationId) ==> Snapshot() == old(Snapshot()).(loading := false)
      ensures id != old(generationId) ==> unchanged(this)
    {
      if id == generationId {
        loading := false;
      }
    }

    // ---------------------------------------------------- single-file run

    /** `generateFrames` up to its first `await`: a new generation, and every field
        reset for a preview of `path`. */
    method GenerateFrames(path: string) returns (run: FileAwait)
      requires Valid()
      modifies this
      ensures Valid() && run.Valid()
      ensures run == AwaitInfo(generationId, path)
      ensures Snapshot() == FileRunStart(old(Snapshot()), path)
    {
      generationId := generationId + 1;
      var id := generationId;
      active := true;
      loading := true;
      error := None;
      frames := [];
      currentPath := Some(path);
      totalFrames := 0;
      info := None;
      folderMode := false;
      folderEntries := [];
      folderPath := None;
      run := AwaitInfo(id, path);
    }

    /** The video's info arrived: record it, plan the frames and wait for the
        first one, or finish when the plan is empty. */
    method InfoArrived(run: FileAwait, videoInfo: VideoInfo) returns (next: Option<FileAwait>)
      requires Valid() && run.AwaitInfo?
      requires run.id == generationId ==> PlanTerminates(videoInfo.durationSecs, mode)
      modifies this
      ensures Valid()
      ensures run.id != old(generationId) ==> unchanged(this) && next == None
      ensures run.id == old(generationId) ==>
        var plan := Plan(videoInfo.durationSecs, old(mode));
        Snapshot() == old(Snapshot()).(info := Some(videoInfo), totalFrames := |plan|,
                                       loading := old(loading) && |plan| > 0) &&
        next == (if |plan| > 0 then Some(AwaitFrame(run.id, run.path, plan, 0)) else None)
      ensures next.Some? ==> next.value.Valid()
    {
      if run.id != generationId {
        return None;
      }
      info := Some(videoInfo);
      var timestamps := CalculateTimestamps(videoInfo.durationSecs, mode);
      totalFrames := |timestamps|;
      if |timestamps| > 0 {
        next := Some(AwaitFrame(run.id, run.path, timestamps, 0));
      } else {
        Finish(run.id);
        next := None;
      }
    }

    /** Frame `i` arrived: append it and wait for the next, or finish after the
        last. */
    method FrameArrived(run: FileAwait, frame: VideoFrame) returns (next: Option<FileAwait>)
      requires Valid() && run.AwaitFrame? && run.Valid()
      modifies this
      ensures Valid()
      ensures run.id != old(generationId) ==> unchanged(this) && next == None
      ensures run.id == old(generationId) ==>
        var more := run.i + 1 < |run.timestamps|;
        Snapshot() == old(Snapshot()).(frames := old(frames) + [frame], loading := old(loading) && more) &&
        next == (if more then Some(run.(i := run.i + 1)) else None)
      ensures next.Some? ==> next.value.Valid()
    {
      if run.id != generationId {
        return None;
      }
      frames := frames + [frame];
      if run.i + 1 < |run.timestamps| {
        next := Some(run.(i := run.i + 1));
      } else {
        Finish(run.id);
        next := None;
      }
    }

    /** The info or a frame was rejected: a current run shows the error and stops
        loading; the frames so far stay. */
    method RunFailed(id: nat, e: Thrown)
      requires Valid()
      modifies this
      ensures Valid()
      ensures id != old(generationId) ==> unchanged(this)
      ensures id == old(generationId) ==> Snapshot() == old(Snapshot()).(error := Some(ErrorText(e)), loading := false)
    {
      if id != generationId {
        return;
      }
      error := Some(ErrorText(e));
      Finish(id);
    }

    // --------------------------------------------------------- folder run

    /** `generateFolderFrames` up to its first `await`. */
    method GenerateFolderFrames(path: string) returns (run: FolderAwait)
      requires Valid()
      modifies this
      ensures Valid() && run.Valid()
      ensures run == AwaitList(generationId, path)
      ensures Snapshot() == FolderRunStart(old(Snapshot()), path)
    {
      generationId := generationId + 1;
      var id := generationId;
      active := true;
      loading := true;
      error := None;
      frames := [];
      currentPath := None;
      info := None;
      totalFrames := 0;
      folderMode := true;
      folderEntries := [];
      folderPath := Some(path);
      run := AwaitList(id, path);
    }

    /** The next iteration of the loop over the files: append an entry for file k
        and wait for its info, or finish after the last file. */
    method NextFile(id: nat, path: string, files: seq<string>, k: nat) returns (next: Option<FolderAwait>)
      requires Valid() && id == generationId && k <= |files|
      modifies this
      ensures Valid()
      ensures Snapshot() == AtFile(old(Snapshot()), path, files, k)
      ensures next == AwaitAtFile(old(Snapshot()), id, path, files, k)
      ensures next.Some? ==> next.value.Valid() && next.value.IndexBelow(|folderEntries|)
    {
      if k == |files| {
        Finish(id);
        return None;
      }
      var filePath := files[k];
      var entry := FreshEntry(path, filePath);
      folderEntries := folderEntries + [entry];
      var entryIndex := |folderEntries| - 1;
      next := Some(AwaitEntryInfo(id, path, files, k, entryIndex));
    }

    /** The list of video files arrived: report an empty folder, or start on the
        first file. */
    method FilesListed(run: FolderAwait, files: seq<string>) returns (next: Option<FolderAwait>)
      requires Valid() && run.AwaitList?
      modifies this
      ensures Valid()
      ensures run.id != old(generationId) ==> unchanged(this) && next == None
      ensures run.id == old(generationId) && |files| == 0 ==>
        Snapshot() == old(Snapshot()).(error := Some("No video files found in this folder"), loading := false) &&
        next == None
      ensures run.id == old(generationId) && |files| > 0 ==>
        Snapshot() == old(Snapshot()).(folderEntries := old(folderEntries) + [FreshEntry(run.folderPath, files[0])]) &&
        next == Some(AwaitEntryInfo(run.id, run.folderPath, files, 0, |old(folderEntries)|))
      ensures next.Some? ==> next.value.Valid() && next.value.IndexBelow(|folderEntries|)
    {
      if run.id != generationId {
        return None;
      }
      if |files| == 0 {
        error := Some("No video files found in this folder");
        loading := false;
        Finish(run.id);
        return None;
      }
      next := NextFile(run.id, run.folderPath, files, 0);
    }

    /** `updateFolderEntry`: entry `index` takes the patched fields; the other
        entries and the length stay. */
    method UpdateFolderEntry(index: nat, patch: EntryPatch)
      requires index < |folderEntries|
      modifies this
      ensures folderEntries == old(folderEntries)[index := Apply(old(folderEntries)[index], patch)]
      ensures |folderEntries| == |old(folderEntries)|
      ensures forall j :: 0 <= j < |folderEntries| && j != index ==> folderEntries[j] == old(folderEntries)[j]
      ensures Snapshot() == Patched(old(Snapshot()), index, patch)
    {
      var updated := folderEntries;
      updated := updated[index := Apply(updated[index], patch)];
      folderEntries := updated;
    }

    /** The info of the current file arrived: record it on its entry, plan its
        frames and wait for the first, or move on to the next file. */
    method EntryInfoArrived(run: FolderAwait, videoInfo: VideoInfo) returns (next: Option<FolderAwait>)
      requires Valid() && run.AwaitEntryInfo? && run.Valid()
      requires run.id == generationId ==> run.entryIndex < |folderEntries| && PlanTerminates(videoInfo.durationSecs, mode)
      modifies this
      ensures Valid()
      ensures run.id != old(generationId) ==> unchanged(this) && next == None
      ensures run.id == old(generationId) ==>
        var plan := Plan(videoInfo.durationSecs, old(mode));
        var s := Patched(old(Snapshot()), run.entryIndex, NoChange.(info := Some(Some(videoInfo))));
        (|plan| > 0 ==>
           Snapshot() == s &&
           next == Some(AwaitEntryFrame(run.id, run.folderPath, run.files, run.k, run.entryIndex, plan, 0))) &&
        (|plan| == 0 ==>
           Snapshot() == AtFile(s, run.folderPath, run.files, run.k + 1) &&
           next == AwaitAtFile(s, run.id, run.folderPath, run.files, run.k + 1))
      ensures next.Some? ==> next.value.Valid() && next.value.IndexBelow(|folderEntries|)
    {
      if run.id != generationId {
        return None;
      }
      UpdateFolderEntry(run.entryIndex, NoChange.(info := Some(Some(videoInfo))));
      var timestamps := CalculateTimestamps(videoInfo.durationSecs, mode);
      if |timestamps| > 0 {
        next := Some(AwaitEntryFrame(run.id, run.folderPath, run.files, run.k, run.entryIndex, timestamps, 0));
      } else {
        next := NextFile(run.id, run.folderPath, run.files, run.k + 1);
      }
    }

    /** Frame `i` of the current file arrived: append it to the entry's frames and
        wait for the next, or move on to the next file. */
    method EntryFrameArrived(run: FolderAwait, frame: VideoFrame) returns (next: Option<FolderAwait>)
      requires Valid() && run.AwaitEntryFrame? && run.Valid()
      requires run.id == generationId ==> run.entryIndex < |folderEntries|
      modifies this
      ensures Valid()
      ensures run.id != old(generationId) ==> unchanged(this) && next == None
      ensures run.id == old(generationId) ==>
        var e := old(folderEntries)[run.entryIndex];
        var s := Patched(old(Snapshot()), run.entryIndex, NoChange.(frames := Some(e.frames + [frame])));
        (run.i + 1 < |run.timestamps| ==> Snapshot() == s && next == Some(run.(i := run.i + 1))) &&
        (run.i + 1 == |run.timestamps| ==>
           Snapshot() == AtFile(s, run.folderPath, run.files, run.k + 1) &&
           next == AwaitAtFile(s, run.id, run.folderPath, run.files, run.k + 1))
      ensures next.Some? ==> next.value.Valid() && next.value.IndexBelow(|folderEntries|)
    {
      if run.id != generationId {
        return None;
      }
      UpdateFolderEntry(run.entryIndex, NoChange.(frames := Some(folderEntries[run.entryIndex].frames + [frame])));
      if run.i + 1 < |run.timestamps| {
        next := Some(run.(i := run.i + 1));
      } else {
        next := NextFile(run.id, run.folderPath, run.files, run.k + 1);
      }
    }

    /** The info or a frame of the current file was rejected: only that entry
        records the error, its frames stay, the preview's own error stays unset,
        and the loop goes on with the next file. */
    method EntryFailed(run: FolderAwait, e: Thrown) returns (next: Option<FolderAwait>)
      requires Valid() && !run.AwaitList? && run.Valid()
      requires run.id == generationId ==> run.entryIndex < |folderEntries|
      modifies this
      ensures Valid()
      ensures run.id != old(generationId) ==> unchanged(this) && next == None
      ensures run.id == old(generationId) ==>
        var s := Patched(old(Snapshot()), run.entryIndex, NoChange.(error := Some(Some(ErrorText(e)))));
        Snapshot() == AtFile(s, run.folderPath, run.files, run.k + 1) &&
        next == AwaitAtFile(s, run.id, run.folderPath, run.files, run.k + 1)
      ensures next.Some? ==> next.value.Valid() && next.value.IndexBelow(|folderEntries|)
    {
      if run.id != generationId {
        return None;
      }
      UpdateFolderEntry(run.entryIndex, NoChange.(error := Some(Some(ErrorText(e)))));
      next := NextFile(run.id, run.folderPath, run.files, run.k + 1);
    }

    /** Listing the folder was rejected: a current run shows the error and stops. */
    method FolderRunFailed(id: nat, e: Thrown)
      requires Valid()
      modifies this
      ensures Valid()
      ensures id != old(generationId) ==> unchanged(this)
      ensures id == old(generationId) ==> Snapshot() == old(Snapshot()).(error := Some(ErrorText(e)), loading := false)
    {
      if id != generationId {
        return;
      }
      error := Some(ErrorText(e));
      Finish(id);
    }

    // ------------------------------------------------------ other commands

    /** `regenerate`: rerun the folder preview or the single-file preview on the
        remembered path; a missing or empty path starts nothing. */
    method Regenerate() returns (started: Started)
      requires Valid()
      modifies this
      ensures Valid()
      ensures old(folderMode) && old(folderPath).Some? && old(folderPath).value != "" ==>
        started == FolderStarted(AwaitList(generationId, old(folderPath).value)) &&
        Snapshot() == FolderRunStart(old(Snapshot()), old(folderPath).value)
      ensures !old(folderMode) && old(currentPath).Some? && old(currentPath).value != "" ==>
        started == FileStarted(AwaitInfo(generationId, old(currentPath).value)) &&
        Snapshot() == FileRunStart(old(Snapshot()), old(currentPath).value)
      ensures mode == old(mode)
      ensures started != NothingStarted ==> generationId == old(generationId) + 1
      ensures started == NothingStarted ==> unchanged(this)
      ensures started == NothingStarted <==>
        (if old(folderMode) then old(folderPath) in {None, Some("")} else old(currentPath) in {None, Some("")})
    {
      if folderMode {
        var path := folderPath;
        if path.Some? && path.value != "" {
          var run := GenerateFolderFrames(path.value);
          return FolderStarted(run);
        }
      } else {
        var path := currentPath;
        if path.Some? && path.value != "" {
          var run := GenerateFrames(path.value);
          return FileStarted(run);
        }
      }
      return NothingStarted;
    }

    /** `close`: a new generation, so that every run underway is stale, and every
        field reset with the preview closed. */
    method Close()
      modifies this
      ensures Valid()
      ensures generationId == old(generationId) + 1 && !active && !loading && frames == [] && error == None &&
        currentPath == None && mode == old(mode) && totalFrames == 0 && info == None && !folderMode &&
        folderEntries == [] && folderPath == None
    {
      generationId := generationId + 1;
      active := false;
      loading := false;
      frames := [];
      error := None;
      currentPath := None;
      totalFrames := 0;
      info := None;
      folderMode := false;
      folderEntries := [];
      folderPath := None;
    }

    /** `mode.set`. */
    method SetMode(m: FrameMode)
      modifies this
      ensures Snapshot() == old(Snapshot()).(mode := m)
    {
      mode := m;
    }

    /** Whether the selection change should start a single-file preview. */
    function TriggerWanted(selectedPath: Option<string>, visible: seq<FileEntry>): bool
      reads this
    {
      active && !folderMode && selectedPath.Some? && selectedPath.value != "" &&
      Some(selectedPath.value) != currentPath &&
      (var k := FirstWithPath(visible, selectedPath.value);
       k < |visible| && !visible[k].isDirectory && VideoCommands.IsVideoName(visible[k].name))
    }

    /** The constructor's effect: while a single-file preview is open, selecting
        another visible video file previews that file instead. `visible` holds the
        entries of the visible tree nodes. */
    method OnSelectionChanged(selectedPath: Option<string>, visible: seq<FileEntry>) returns (started: Started)
      requires Valid()
      modifies this
      ensures Valid()
      ensures !old(TriggerWanted(selectedPath, visible)) ==> unchanged(this) && started == NothingStarted
      ensures old(TriggerWanted(selectedPath, visible)) ==>
        started == FileStarted(AwaitInfo(generationId, selectedPath.value)) &&
        Snapshot() == FileRunStart(old(Snapshot()), selectedPath.value)
    {
      if !active || folderMode || selectedPath.None? || selectedPath.value == "" || Some(selectedPath.value) == currentPath {
        return NothingStarted;
      }
      var k := FirstWithPath(visible, selectedPath.value);
      if k == |visible| || visible[k].isDirectory {
        return NothingStarted;
      }
      if VideoCommands.IsVideoName(visible[k].name) {
        var run := GenerateFrames(selectedPath.value);
        return FileStarted(run);
      }
      return NothingStarted;
    }
  }

  /** `find`: the position of the first entry with the path, or |entries| if none. */
  function FirstWithPath(entries: seq<FileEntry>, path: string): (k: nat)
    ensures k <= |entries|
    ensures k < |entries| ==> entries[k].path == path
    ensures forall j :: 0 <= j < k ==> entries[j].path != path
    decreases |entries|
  {
    if |entries| == 0 then 0
    else if entries[0].path == path then 0
    else 1 + FirstWithPath(entries[1..], path)
  }
}

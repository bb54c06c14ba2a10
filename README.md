# videobrowser: the preview engine and file tree, modelled in Dafny

videobrowser is a desktop video browser: an Angular front end over a Tauri
(Rust) back end. This project models its deterministic core and proves
properties of it:

- **Sample times.** The timestamp planner appears twice: `calculateTimestamps`
  in `preview.service.ts` and `calculate_timestamps` in `video_commands.rs`.
  Fixed mode places `count` evenly spaced interior points. Interval mode takes
  the multiples of `minutes * 60` below the duration. Both are one pair of
  specification functions (module `Timestamps`). The TypeScript comprehension
  and the two accumulating loops are proved equal to them.
- **The preview state machine.** `PreviewService` (module `Preview`) is a class
  holding the service's eleven signals as fields, plus `generationId`.
  A run of `generateFrames` or `generateFolderFrames` is cut at each `await`:
  - the start of a run is one method;
  - each place where the run resumes is its own method, which takes the
    suspended run as a value (`FileAwait`, `FolderAwait`) that carries the
    generation id captured when the run started.

  Every continuation's contract says that a run whose id is no longer the
  current one changes nothing. An accepted one performs exactly the updates of
  the corresponding source lines.
- **Viewport bookkeeping.** `PreviewPanelComponent` (module `PreviewPanel`)
  models the IntersectionObserver callback over explicit observations of
  (path, intersecting, offsetHeight). It also models the observe-once
  bookkeeping, `resetVirtualScroll`, `selectMode`, and the `formatTimestamp`
  label.
  - The class invariant keeps every hidden path measured, with a positive
    height.
  - It also records each element as observed exactly once.
- **Encoded names.** `encoding.rs` and `encoded_dir.rs` (modules `Encoding`,
  `EncodedDir`) store a name as `.dat_` followed by the standard padded Base64
  (section 4 of RFC 4648) of the name's UTF-8 bytes.
  - Base64 (module `Base64`) and UTF-8 (module `Utf8`) are written out as real
    codecs.
  - Round trips are proved in both directions. Decoding accepts exactly what
    encoding produces.
- **Directory listing.** `read_directory` (module `FsCommands`) is modelled
  over the list of items that the read of the directory reports. Its loop is
  proved to give the excluded-name-free, decoded entries, sorted by lowercase
  name as a permutation.
- **The folder tree.** `FileTreeService` (module `FileTree`) holds the tree as a
  value. A node is identified by its address, the child indices that lead to it
  from the root.
  - Each in-place mutation of a node object becomes a replacement at its
    address, followed by the `notifyChange` copy.
  - `visibleNodes` is the pre-order flattening. It is proved sound and complete
    against "reached through expanded nodes only".
  - The tree component's keys and clicks are in module `FileTreeView`.
- **Search, menu and search panel.** Modules `Search`, `ContextMenu` and
  `SearchPanel` cover:
  - the search box;
  - revealing a search result by expanding the folders on its path;
  - the fifteen-item context menu and its enablement rules;
  - the delete guard;
  - the relative paths shown in the search panel.

Collaborators the core calls but that lie outside it are parameters of the
methods that use them: the answers of `readDirectory`, `getVideoInfo`,
`extractVideoFrame`, `listVideoFiles`, `searchFiles`, `countChildren`,
`canEncode`, the deletion on disk, and the user's answer to a dialog. A method
receives what the promise would settle to: a `Result`, or a `Thrown` value for
a rejection.

Three behaviours of the code a reader might not expect; the model follows the
code:

- The standard Base64 alphabet contains '/'. An encoded name can therefore hold
  the path separator (`EncodedDir.EncodedNameWithSeparator`: "???" is stored as
  ".dat_Pz8/").
- `getRelativePath` in the search panel cuts the root and then ONE FURTHER
  CHARACTER, whatever that character is. The panel of a folder "/videos"
  therefore shows "/videos2/a.mp4" as "/a.mp4"
  (`SearchPanel.StripRootSiblingPrefix`).
- The TypeScript interval loop ends only for a positive interval, or for one
  that already reaches the duration. The TypeScript copy is modelled with that
  precondition; the Rust copy returns its error instead.

## Model

| member | source | states |
|---|---|---|
| Timestamps.FixedPlanShape | src/app/services/preview.service.ts:195-198 | for a positive duration, the fixed plan has exactly `count` points, strictly increasing and strictly between 0 and the duration |
| Timestamps.FixedPlanSpacing | src/app/services/preview.service.ts:197-198 | the first point is `duration/(count+1)` and consecutive points are that step apart |
| Timestamps.FixedPlanExample | src-tauri/src/commands/video_commands.rs:237-243 | 100 s with nine points has nine values, with 10, 50 and 90 at indices 0, 4 and 8 |
| Timestamps.IntervalFromValues | src/app/services/preview.service.ts:202-206 | point k of the run from `t` is `t + k*interval`, and every point is below the duration |
| Timestamps.IntervalPlanValues | src/app/services/preview.service.ts:200-207 | point k of the interval plan is `(k+1)*interval`; the plan is strictly increasing and below the duration |
| Timestamps.IntervalFromComplete | src/app/services/preview.service.ts:203-206 | the loop stops at the first step that reaches the duration |
| Timestamps.IntervalPlanExact | src/app/services/preview.service.ts:200-207 | a multiple `k*interval` (k ≥ 1) is in the plan exactly when it is below the duration |
| Timestamps.IntervalPlanEmpty | src/app/services/preview.service.ts:200-207 | the interval plan is empty exactly when one interval already reaches the duration |
| Timestamps.IntervalPlanExamples | src-tauri/src/commands/video_commands.rs:252-267 | 600 s every 2 minutes gives [120, 240, 360, 480]; 30 s every minute gives [] |
| Timestamps.StepShrinks | src-tauri/src/commands/video_commands.rs:222-225 | each step of the interval loop strictly reduces the number of steps left, so the loop ends |
| Timestamps.IntervalLoop | src-tauri/src/commands/video_commands.rs:220-226 | the accumulating `while t < duration` loop returns exactly the interval plan |
| VideoCommands.CalculateTimestamps | src-tauri/src/commands/video_commands.rs:204-230 | fixed mode without a count, interval mode without minutes or with a non-positive interval, and an unknown mode each give their own Err message; otherwise Ok of the fixed plan (the loop proved equal to it) or of the interval plan |
| VideoCommands.IsVideoName | src-tauri/src/commands/video_commands.rs:59-60 | computes only; `IsVideoNameDotted` and `IsVideoNameUndotted` state it: a video iff the lowercased text after the last '.' (the whole name when it has none) is one of the seven extensions |
| VideoCommands.IsVideoNameDotted | src-tauri/src/commands/video_commands.rs:59-60 | a name with a '.' is a video iff its lowercased final extension is one of the seven listed |
| VideoCommands.IsVideoNameUndotted | src-tauri/src/commands/video_commands.rs:59-60 | a name without '.' is judged on the whole lowercased name |
| VideoCommands.IsVideoNameUpperCase | src-tauri/src/commands/video_commands.rs:59-60 | "Holiday.MKV" is a video: the extension is lowercased first |
| VideoCommands.IsVideoNameLastExtensionOnly | src-tauri/src/commands/video_commands.rs:59-60 | "clip.mp4.txt" is not a video: only the last extension counts |
| VideoCommands.IsVideoNameBareExtension | src-tauri/src/commands/video_commands.rs:59-60 | "mpeg" with no '.' counts as a video |
| VideoCommands.IsVideoFile | src-tauri/src/commands/video_commands.rs:43-61 | a `.dat_` name is judged by its decoded name and is no video when it does not decode; any other name by itself |
| VideoCommands.IsVideoFileEncoded | src-tauri/src/commands/video_commands.rs:49-57 | a file renamed by `encode_name` (with a stored form free of '/') is a video exactly when its real name is |
| VideoCommands.ListVideoFiles | src-tauri/src/commands/video_commands.rs:13-24 | Err for a non-directory and for a failed walk; otherwise the collected paths sorted, as a permutation of them |
| Preview.CalculateTimestamps | src/app/services/preview.service.ts:194-209 | the result is the plan of the mode; fixed mode yields `count` values; interval mode is empty when one interval reaches the duration |
| Preview.RelativePath | src/app/services/preview.service.ts:108-110 | inside the folder the path is the folder path followed by the result, with one '/' between them when the path has one there; outside it the whole path |
| Preview.Apply | src/app/services/preview.service.ts:161 | each field of the patched entry is the patch's value when given and the entry's otherwise |
| Preview.ApplyLaws | src/app/services/preview.service.ts:158-164 | the laws of the `{ ...entry, ...patch }` spread that `Patched` and `UpdateFolderEntry` apply: an empty patch changes nothing; a full patch over any patch is the full patch alone |
| Preview.PreviewService.constructor | src/app/services/preview.service.ts:12-39 | the initial signal values: closed, generation 0, mode of nine fixed frames |
| Preview.PreviewService.Finish | src/app/services/preview.service.ts:74-77 | a current run stops loading and nothing else changes; a stale run changes nothing |
| Preview.PreviewService.GenerateFrames | src/app/services/preview.service.ts:41-56 | the generation id goes up by one, and every field is reset for a preview of `path` that is open and loading |
| Preview.PreviewService.InfoArrived | src/app/services/preview.service.ts:56-64 | stale: nothing changes. Current: the info is recorded, `totalFrames` is the plan's length, and the run waits for frame 0, or finishes on an empty plan |
| Preview.PreviewService.FrameArrived | src/app/services/preview.service.ts:63-77 | stale: nothing changes. Current: exactly one frame is appended at the end, earlier frames stay, and the run moves to the next index or finishes |
| Preview.PreviewService.RunFailed | src/app/services/preview.service.ts:71-77 | stale: nothing changes. Current: the error text is shown and loading stops, the frames so far stay |
| Preview.PreviewService.GenerateFolderFrames | src/app/services/preview.service.ts:81-96 | a new generation, every field reset for an open, loading preview of the folder |
| Preview.PreviewService.FilesListed | src/app/services/preview.service.ts:96-120 | stale: nothing changes. An empty list gives "No video files found in this folder" and stops loading. Otherwise an entry for the first file is appended and the run waits for its info |
| Preview.PreviewService.NextFile | src/app/services/preview.service.ts:105-121 | the loop over the files: appends file k's fresh entry and waits for its info, or stops loading after the last file |
| Preview.PreviewService.UpdateFolderEntry | src/app/services/preview.service.ts:158-164 | only entry `index` takes the patched fields; the length, the other entries and every other field stay |
| Preview.PreviewService.EntryInfoArrived | src/app/services/preview.service.ts:124-131 | stale: nothing changes. Current: exactly that entry records the info; the whole new state is given: with frames to take, the run waits for the entry's first frame; with none, it appends the next file's fresh entry and waits for its info, or after the last file stops loading |
| Preview.PreviewService.EntryFrameArrived | src/app/services/preview.service.ts:131-140 | stale: nothing changes. Current: exactly one frame is appended to that entry's frames; the whole new state is given: the run waits for the next frame, or appends the next file's fresh entry, or after the last file stops loading |
| Preview.PreviewService.EntryFailed | src/app/services/preview.service.ts:141-146 | stale: nothing changes. Current: only that entry records the error, its frames and the top-level error stay, and the whole new state is the next file's fresh entry appended, or loading stopped after the last file |
| Preview.PreviewService.FolderRunFailed | src/app/services/preview.service.ts:148-155 | stale: nothing changes. Current: the error is shown and loading stops |
| Preview.PreviewService.Regenerate | src/app/services/preview.service.ts:166-178 | reruns folder mode on `folderPath` or single mode on `currentPath`, with the new state that run's start gives (new generation, everything cleared, open and loading); starts nothing, and changes nothing, exactly when that path is missing or empty |
| Preview.PreviewService.Close | src/app/services/preview.service.ts:180-192 | the generation id goes up by one, so every earlier run is stale; every field is reset and the preview is closed; the mode stays |
| Preview.PreviewService.SetMode | src/app/services/preview.service.ts:32 | only the mode changes |
| Preview.PreviewService.OnSelectionChanged | src/app/services/preview.service.ts:15-24 | while a single-file preview is open, selecting another visible video file starts a new run on it, with every field reset for that file; otherwise nothing changes |
| Preview.FirstWithPath | src/app/services/preview.service.ts:18 | the index of the first visible entry with the path, or the length when there is none |
| Models.ErrorText | src/app/services/preview.service.ts:73 | a thrown string is shown as is, an error object by its message, and "Unknown error" without one |
| PreviewPanel.Observe | src/app/components/preview-panel/preview-panel.component.ts:58-77 | computes only; `ObserveRules` states what one observation does to the hidden set and the heights and that it keeps every hidden path measured |
| PreviewPanel.ObserveRules | src/app/components/preview-panel/preview-panel.component.ts:58-77 | one observation keeps "hidden ⊆ measured, heights positive". An intersecting path is shown with its heights untouched. A positive height is recorded, overwriting. A non-intersecting path is hidden iff it has a height. Pathless targets are skipped; other paths keep their state |
| PreviewPanel.ObserveAllRules | src/app/components/preview-panel/preview-panel.component.ts:54-83 | a batch keeps the invariant and never forgets a height; `changed` false means the hidden set is as it was |
| PreviewPanel.ObserveUnchanged | src/app/components/preview-panel/preview-panel.component.ts:62-77 | an observation that does not set `changed` leaves the hidden set alone; `changed` is never reset |
| PreviewPanel.PreviewPanelComponent.constructor | src/app/components/preview-panel/preview-panel.component.ts:24-27 | nothing hidden, no heights, no observer, nothing observed |
| PreviewPanel.PreviewPanelComponent.OnIntersection | src/app/components/preview-panel/preview-panel.component.ts:54-83 | the hidden set and heights become the result of the observations in order; the signal is written once exactly when something changed; the invariant is kept |
| PreviewPanel.PreviewPanelComponent.SetupObserver | src/app/components/preview-panel/preview-panel.component.ts:49-53 | an observer exists afterwards iff one existed or the container is present; at most one is created |
| PreviewPanel.PreviewPanelComponent.ObserveNewEntries | src/app/components/preview-panel/preview-panel.component.ts:91-104 | with a container, the observed set grows by the rendered elements and each element is handed to `observe` at most once; without one, nothing is observed |
| PreviewPanel.PreviewPanelComponent.CleanupObserver | src/app/components/preview-panel/preview-panel.component.ts:106-110 | no observer and nothing observed; hidden set and heights stay |
| PreviewPanel.PreviewPanelComponent.ResetVirtualScroll | src/app/components/preview-panel/preview-panel.component.ts:112-116 | no observer, nothing observed, nothing hidden, no heights |
| PreviewPanel.PreviewPanelComponent.IsEntryVisible | src/app/components/preview-panel/preview-panel.component.ts:118-120 | visible iff not hidden |
| PreviewPanel.PreviewPanelComponent.GetPlaceholderHeight | src/app/components/preview-panel/preview-panel.component.ts:122-124 | the recorded height, or 200 for an entry never measured |
| PreviewPanel.PreviewPanelComponent.HiddenPlaceholder | src/app/components/preview-panel/preview-panel.component.ts:73-76 | a hidden entry's placeholder is its own recorded, positive height |
| PreviewPanel.PreviewPanelComponent.SelectMode | src/app/components/preview-panel/preview-panel.component.ts:126-130 | the bookkeeping is reset and the mode is set; in folder mode with a folder, or in single mode with a file, the preview restarts on it with the new mode, all else cleared, in the next generation; with nothing to rerun only the mode changes |
| PreviewPanel.FormatTimestamp | src/app/components/preview-panel/preview-panel.component.ts:164-172 | computes only; `FormatWholeSeconds`, `FormatIgnoresFraction`, `FormatTwoMinutes` and `FormatOneHour` state the label: "h:mm:ss" from one hour on, "m:ss" below, fractions ignored |
| PreviewPanel.ClockWhole | src/app/components/preview-panel/preview-panel.component.ts:165-167 | for whole seconds, hours, minutes and seconds are `s div 3600`, `(s mod 3600) div 60`, `s mod 60` |
| PreviewPanel.ClockAddsUp | src/app/components/preview-panel/preview-panel.component.ts:165-167 | hours, minutes and seconds of the label add back up to the whole seconds of the input, with minutes and seconds below 60 |
| PreviewPanel.FormatWholeSeconds | src/app/components/preview-panel/preview-panel.component.ts:164-172 | "h:mm:ss" from one hour on and "m:ss" below, with parts that add up to the input |
| PreviewPanel.ClockFloor | src/app/components/preview-panel/preview-panel.component.ts:165-167 | the clock of a real input is the clock of its whole seconds: dividing before `Math.floor` gives the same parts as dividing the floor |
| PreviewPanel.FormatIgnoresFraction | src/app/components/preview-panel/preview-panel.component.ts:164-172 | the label of a time is the label of its whole seconds |
| PreviewPanel.TwoDigitsSingle | src/app/components/preview-panel/preview-panel.component.ts:169 | a single digit is padded with one leading zero |
| PreviewPanel.FormatTwoMinutes | src/app/components/preview-panel/preview-panel.component.ts:164-172 | 120 seconds read "2:00" |
| PreviewPanel.FormatOneHour | src/app/components/preview-panel/preview-panel.component.ts:164-172 | 3725 seconds read "1:02:05" |
| Encoding.EncodeString | src-tauri/src/encoding/encoding.rs:3-5 | the stored form's length is a multiple of 4 and it uses only the standard alphabet and '=' |
| Encoding.DecodeString | src-tauri/src/encoding/encoding.rs:7-12 | computes only; `DecodeEncodeString` and `EncodeDecodeString` make it the exact inverse of `EncodeString`, and `DecodeRejectsForeignCharacter` and the two examples state its rejections |
| Encoding.DecodeEncodeString | src-tauri/src/encoding/encoding.rs:3-12 | every string survives encoding and decoding |
| Encoding.EncodeDecodeString | src-tauri/src/encoding/encoding.rs:7-12 | a stored form that decodes is the one encoding produces |
| Encoding.DecodeRejectsForeignCharacter | src-tauri/src/encoding/encoding.rs:7-10 | a character outside the alphabet and '=' makes decoding fail |
| Encoding.DecodeInvalidExample | src-tauri/src/encoding/encoding.rs:26-29 | "not valid base64!!!" does not decode |
| Encoding.DecodeNotUtf8Example | src-tauri/src/encoding/encoding.rs:11 | "/w==" is well-formed Base64 of the byte 0xFF, which is not UTF-8, so it does not decode |
| Encoding.EncodeStringIsAscii | src-tauri/src/encoding/encoding.rs:3-5 | the stored form is ASCII and four characters per started group of three UTF-8 bytes |
| Base64.DecodeEncode | src-tauri/src/encoding/encoding.rs:3-12 | decoding the padded standard encoding gives the bytes back |
| Base64.EncodeDecode | src-tauri/src/encoding/encoding.rs:7-10 | whatever decodes is the canonical encoding of the result |
| Base64.EncodeLength | src-tauri/src/encoding/encoding.rs:3-5 | the encoding has `4 * ceil(n/3)` characters |
| Base64.EncodeAlphabet | src-tauri/src/encoding/encoding.rs:3-5 | the encoding uses only alphabet symbols and '=' |
| Base64.EncodePaddingAtEnd | src-tauri/src/encoding/encoding.rs:3-5 | '=' appears only in the last quantum |
| Base64.DecodeOnlyAlphabet | src-tauri/src/encoding/encoding.rs:7-10 | only text of alphabet symbols and '=' can decode |
| Utf8.DecodeEncode | src-tauri/src/encoding/encoding.rs:11 | the bytes of every string are valid UTF-8 and decode back to it |
| Utf8.EncodeDecode | src-tauri/src/encoding/encoding.rs:11 | bytes that decode are exactly the encoding of the decoded string |
| Utf8.EncodeAscii | src-tauri/src/encoding/encoded_dir.rs:31 | ASCII text is one byte per character |
| EncodedDir.TryDecodeName | src-tauri/src/encoding/encoded_dir.rs:9-13 | None without the ".dat_" prefix; with it, exactly `decode_string` of the rest |
| EncodedDir.EncodeName | src-tauri/src/encoding/encoded_dir.rs:16-18 | ".dat_" followed by the stored form of the name |
| EncodedDir.TryDecodeEncodeName | src-tauri/src/encoding/encoded_dir.rs:38-42 | decoding an encoded name gives the name |
| EncodedDir.EncodeTryDecodeName | src-tauri/src/encoding/encoded_dir.rs:9-18 | a physical name that decodes is the encoding of its decoded name |
| EncodedDir.PlainNameExample | src-tauri/src/encoding/encoded_dir.rs:45-47 | "regular_folder" is not encoded |
| EncodedDir.EncodedNameWithSeparator | src-tauri/src/encoding/encoded_dir.rs:16-18 | "???" is stored as ".dat_Pz8/", a name holding '/' |
| EncodedDir.FileName | src-tauri/src/encoding/encoded_dir.rs:22-25 | the longest '/'-free suffix of the path: a suffix without '/', and either the whole path or preceded by a '/' |
| EncodedDir.Parent | src-tauri/src/encoding/encoded_dir.rs:28-29 | the directory part, ending in '/' unless empty, that the file name completes to the path |
| EncodedDir.CanEncode | src-tauri/src/encoding/encoded_dir.rs:21-32 | computes only; `CanEncodeLength` states when the renamed path stays below 256 bytes |
| EncodedDir.CanEncodeLength | src-tauri/src/encoding/encoded_dir.rs:21-32 | the renamed path is below 256 bytes iff the directory's bytes plus 5 plus `4*ceil(bytes of the name/3)` is below 256 |
| FsCommands.MakeEntry | src-tauri/src/commands/fs_commands.rs:31-46 | the name is the decoded name when there is one and the physical name otherwise; `is_encoded` iff decoded; only directories have children |
| FsCommands.CollectEntries | src-tauri/src/commands/fs_commands.rs:21-52 | a successful listing holds exactly the entries of the readable, non-excluded items |
| FsCommands.CollectFails | src-tauri/src/commands/fs_commands.rs:22 | the first unreadable entry makes the listing fail with its reason |
| FsCommands.ListingRules | src-tauri/src/commands/fs_commands.rs:25-49 | no entry is ".gitignore", names and `is_encoded` follow the decoding, and non-directories have no children |
| FsCommands.ReadDirectory | src-tauri/src/commands/fs_commands.rs:10-57 | Err for a non-directory, an unlistable directory and at an unreadable entry; otherwise the collected entries sorted by lowercase name, as a permutation |
| Sorting.SortByPermutes | src-tauri/src/commands/fs_commands.rs:54 | sorting keeps the same elements |
| Sorting.SortBySorted | src-tauri/src/commands/fs_commands.rs:54 | sorting orders by the key |
| Sorting.LexLeTotal | src-tauri/src/commands/video_commands.rs:22 | the string order is total |
| Sorting.LexLeTransitive | src-tauri/src/commands/video_commands.rs:22 | the string order is transitive |
| Sorting.LexLeAntisymmetric | src-tauri/src/commands/video_commands.rs:22 | the string order is antisymmetric |
| Text.JoinSplit | src/app/services/search.service.ts:48 | joining the pieces of a split gives the string back |
| Text.SplitJoin | src/app/services/search.service.ts:47-49 | separator-free pieces come back from splitting their join |
| Text.LastSegmentIsSuffix | src-tauri/src/commands/video_commands.rs:59 | the last piece is a separator-free suffix that is the whole string or follows a separator |
| Text.LastSegmentAfterSeparator | src-tauri/src/commands/video_commands.rs:53 | the text after the last separator is the last piece |
| Text.ParseNatToString | src/app/services/context-menu.service.ts:130 | decimal rendering reads back as the number |
| Text.PadStart | src/app/components/preview-panel/preview-panel.component.ts:169 | `padStart`: the width or the string's own length, the string at the end, fill characters before it |
| FileTree.RootNode | src/app/services/file-tree.service.ts:19-36 | the root is level 0, expanded, a directory, named by its last segment, with `hasChildren` iff entries were read, and its children the fresh level-1 nodes of the entries in order |
| FileTree.RootNameRules | src/app/services/file-tree.service.ts:23 | the root name is the non-empty last '/' segment, or the whole path |
| FileTree.WithChildren | src/app/services/file-tree.service.ts:46 | children read for a node are fresh nodes one level below it, in order |
| FileTree.EntryToNode | src/app/services/file-tree.service.ts:112-119 | computes only; `ToNodes` states the node it builds: the entry, collapsed, children not yet read, at the given level |
| FileTree.ToNodes | src/app/services/file-tree.service.ts:112-119 | each entry becomes a collapsed node of the level, with children not yet read |
| FileTree.CollectVisible | src/app/services/file-tree.service.ts:121-128 | the recursive push loop appends exactly the pre-order flattening |
| FileTree.FlattenSound | src/app/services/file-tree.service.ts:121-128 | every listed row is the node at its address, reached through expanded nodes only |
| FileTree.FlattenComplete | src/app/services/file-tree.service.ts:121-128 | every node reached through expanded nodes only is listed |
| FileTree.Visible | src/app/services/file-tree.service.ts:9-15 | computes only; `VisibleExactly`, `FlattenSound` and `FlattenComplete` state which rows it lists and in what order |
| FileTree.VisibleExactly | src/app/services/file-tree.service.ts:9-15 | a row is visible exactly when its node sits at its address below expanded nodes; the root is never listed |
| FileTree.OpenFolderVisible | src/app/services/file-tree.service.ts:31-36 | after `openFolder` the visible rows are the entries read, in order, as collapsed level-1 nodes |
| FileTree.FileTreeService.constructor | src/app/services/file-tree.service.ts:7 | no root, no selection |
| FileTree.FileTreeService.VisibleNodes | src/app/services/file-tree.service.ts:9-15 | the current visible rows: empty without a root, the flattening of the root's children otherwise |
| FileTree.FileTreeService.NotifyChange | src/app/services/file-tree.service.ts:141-143 | the copy is the same tree |
| FileTree.CloneTree | src/app/services/file-tree.service.ts:145-150 | computes only; `CloneTreeIdentity` states that the copy equals the tree |
| FileTree.CloneTreeIdentity | src/app/services/file-tree.service.ts:145-150 | the copy keeps entries, flags, levels and read/unread children everywhere |
| FileTree.FileTreeService.OpenFolder | src/app/services/file-tree.service.ts:19-39 | the root becomes the built root node; a failed read changes nothing |
| FileTree.Expansion | src/app/services/file-tree.service.ts:41-49 | no change for a file or an expanded folder; otherwise children are read only when missing, then the folder is expanded; a failed read fails without a change |
| FileTree.FileTreeService.ExpandNode | src/app/services/file-tree.service.ts:41-51 | the node at the address becomes its expansion and nothing else in the tree changes |
| FileTree.FileTreeService.CollapseNode | src/app/services/file-tree.service.ts:53-56 | the node is marked collapsed and keeps its children |
| FileTree.FileTreeService.ToggleNode | src/app/services/file-tree.service.ts:58-64 | an expanded node is collapsed; a collapsed folder is expanded in place, its listing read first when unloaded, and a failed read leaves the tree and reports the error; a collapsed file stays as it is; the selection stays |
| FileTree.FindParent | src/app/services/file-tree.service.ts:130-139 | computes only; `FindParentFinds` states that it returns the address one step up exactly when the target lies strictly below the node searched |
| FileTree.FindParentOfNode | src/app/services/file-tree.service.ts:130-139 | the parent found is the address one step up; the root and missing nodes have none |
| FileTree.FindParentFinds | src/app/services/file-tree.service.ts:130-139 | the depth-first search finds the parent of exactly the targets strictly below the node searched |
| FileTree.Without | src/app/services/file-tree.service.ts:98 | the children without the target, the others in order |
| FileTree.DeleteKeepsSiblings | src/app/services/file-tree.service.ts:94-101 | after deletion the parent keeps its entry and flags and holds the other children in order; subtrees outside the parent are untouched |
| FileTree.FileTreeService.DeleteNode | src/app/services/file-tree.service.ts:94-101 | a failed removal changes nothing; otherwise the node leaves its parent; with no folder open the TypeError of `findParent` is the outcome |
| FileTree.FileTreeService.RefreshNode | src/app/services/file-tree.service.ts:103-110 | a no-op for files; a folder reads its children again and is expanded, and is left without children when the read fails |
| FileTree.FileTreeService.TakeEntry | src/app/services/file-tree.service.ts:66-86 | the node takes the entry the command returned; an expanded folder reads its children again |
| FileTree.FileTreeService.RenameNode | src/app/services/file-tree.service.ts:88-92 | only the node's entry changes |
| FileTree.ReplaceHit | src/app/services/file-tree.service.ts:46-49 | after replacing at an address, the new node is there |
| FileTree.ExpansionFrame | src/app/services/file-tree.service.ts:41-51 | expanding a node leaves every node that is not it or below it as it was |
| FileTree.ReplaceApart | src/app/services/file-tree.service.ts:46-49 | a replacement leaves unrelated addresses as they were |
| FileTree.ReplaceAbove | src/app/services/file-tree.service.ts:46-49 | nodes above the replaced one keep their entries, flags, levels and number of children |
| FileTree.ReplaceBelow | src/app/services/file-tree.service.ts:46-49 | below the replaced address the tree is the replacement's |
| FileTree.ReplaceSame | src/app/services/file-tree.service.ts:141-143 | putting back the node that is there changes nothing |
| FileTreeView.SelectedIndex | src/app/components/file-tree/file-tree.component.ts:47-51 | the first row with the selected path, or -1 when none is selected, the selection is the empty path, or it is not visible |
| FileTreeView.DownTarget | src/app/components/file-tree/file-tree.component.ts:54-59 | ArrowDown moves to the next row, to the first from -1, and nowhere from the last |
| FileTreeView.UpTarget | src/app/components/file-tree/file-tree.component.ts:61-66 | ArrowUp moves to the previous row only when there is one |
| FileTreeView.FileTreeComponent.OnKeydown | src/app/components/file-tree/file-tree.component.ts:43-105 | nothing without visible rows; the arrows move the selection; Right expands only a collapsed folder and Left collapses only an expanded one; Enter toggles a folder or opens a file in VLC; F2 and Delete ask for their dialogs; only the arrows change the selection; Enter without a selection does nothing; the outcome is success except when Right or Enter expands a collapsed folder |
| FileTreeView.FileTreeComponent.OnNodeClick | src/app/components/file-tree/file-tree.component.ts:25-30 | the row becomes the selection; a folder is toggled exactly as `toggleNode` does (collapsed when expanded, otherwise loaded if needed and expanded, the tree unchanged on a failed read); a file leaves the tree as it was |
| FileTreeView.IndentReadsBack | src/app/components/file-tree/file-tree.component.ts:107-109 | the indentation is digits then "px", reading back as 20 times the level |
| FileTreeView.Arrow | src/app/components/file-tree/file-tree.component.ts:111-114 | blank for files, down for open folders, right for closed ones |
| FileTreeView.Icon | src/app/components/file-tree/file-tree.component.ts:116-119 | a page for files, an open or closed folder otherwise |
| FileTreeView.ArrowAndIconByFlags | src/app/components/file-tree/file-tree.component.ts:111-119 | arrow and icon depend only on the directory and expanded flags and tell the three states apart |
| Search.SearchService.constructor | src/app/services/search.service.ts:8-10 | no results, inactive, empty query |
| Search.SearchService.Search | src/app/services/search.service.ts:15-23 | the query is set; a blank pattern clears the results without searching; otherwise the results found, kept when the search fails |
| Search.SearchService.Clear | src/app/services/search.service.ts:25-29 | inactive, no results, empty query |
| Search.WalkParts | src/app/services/search.service.ts:47-49 | computes only; `WalkPartsOfPath` states that it gives exactly the folder names between the root and the file |
| Search.WalkPartsOfPath | src/app/services/search.service.ts:47-49 | the root, a separator, then folder names and a file name joined by '/' walk exactly the folder names |
| Search.FindChild | src/app/services/search.service.ts:60-62 | the first child whose name or physical name is the part, or -1 when none is |
| Search.WalkedStep | src/app/services/search.service.ts:60-64 | stepping from an opened node to its first matching child extends the walk |
| Search.WalkShown | src/app/services/search.service.ts:51-65 | every node a walk through folders passed is shown in the tree |
| Search.OriginStep | src/app/services/search.service.ts:60-64 | the node the walk finds at child `k` of a node is child `k` of that node's own children or of its listing |
| Search.GrownExpanded | src/app/services/search.service.ts:53-58 | expanding the node the walk stands on opens it: expanded when a folder, with the children of its listing when they were not loaded |
| Search.WalkOn | src/app/services/search.service.ts:60-64 | after moving on to a child, every node passed is still opened with all its other children as they were, and the child is the one the old tree or the listing had there |
| Search.RevealedFailed | src/app/services/search.service.ts:53-58 | a walk that fails reading the listing of the closed, unread folder it stands on ends with that node untouched and that listing's error |
| Search.NoWalkIntoEmptyFolder | src/app/services/search.service.ts:60-63 | a walk that starts at a root with no children never enters a child, so no folder is invented |
| Search.RevealedOkReadsSucceeded | src/app/services/search.service.ts:53-69 | after a reveal that succeeds, every node of the old tree on the walk expands without error: no read failed |
| Search.RevealedErrIsFailedRead | src/app/services/search.service.ts:53-69 | a reveal that fails stopped at a folder that was closed and not yet read, whose read gave that error, and the folder is left as it was |
| Search.SearchService.StepExpand | src/app/services/file-tree.service.ts:41-51 | one `expandNode` of the node the walk stands on: on a failed read the tree is unchanged and the error is returned; otherwise that node becomes its expansion, the nodes above it keep their shape and every node off the walk stays |
| Search.SearchService.OpenStep | src/app/services/search.service.ts:53-58 | the node the walk stands on is opened, having expanded without error, with its own children or those of its listing; or it was a closed, unread folder whose read failed, the tree is unchanged, and the listing's error is returned |
| Search.SearchService.Advance | src/app/services/search.service.ts:52-64 | one turn of the loop: when the node is a closed, unread folder whose read fails, nothing changes and the read's error is returned; otherwise the node is opened and the walk moves on to the first matching child, or stops at a node with no matching child |
| Search.SearchService.OpenLast | src/app/services/search.service.ts:67-69 | the node the walk ended on is expanded when it is a folder not yet expanded; the outcome is an error exactly when that expansion reads a listing and the read fails; this completes the whole contract of `expandParents` |
| Search.SearchService.ExpandParents | src/app/services/search.service.ts:40-70 | nothing without a root or outside it; otherwise the root entry stays, every node off the walk stays as it was, the walk goes to the first matching child at each step, and each node it passed is the old node or the node its parent's listing built, opened without a failed read, with all its other children as they were; on success the node it ends on is opened too and the walk stops early only where no child matches; an error comes only from the node it ends on, a closed, unread folder whose read failed, which stays untouched, and the outcome is that read's error |
| Search.SearchService.SelectResult | src/app/services/search.service.ts:31-33 | the tree is left exactly as `expandParents` leaves it (same walk, same origin of each node, same frame, same error); the entry becomes the selection only when no read failed; on a failed read the selection stays |
| Search.SearchService.ExpandParentsAsWritten | src/app/services/search.service.ts:40-70 | the walk as written: only the first expansion that changes something is kept in the shown tree |
| Search.AsWrittenLeavesFolderClosed | src/app/services/search.service.ts:51-69 | revealing `/r/A/B/f.mp4` with both folders unread leaves `B` closed in the shown tree |
| ContextMenu.MenuItems | src/app/services/context-menu.service.ts:44-108 | fifteen items, separators at positions 4, 8, 10 and 12 only, each disabled and doing nothing |
| ContextMenu.OpenInVlcItem | src/app/services/context-menu.service.ts:45-49 | 'Open in VLC Player' is enabled iff the row is a file |
| ContextMenu.VideoPreviewItem | src/app/services/context-menu.service.ts:41-56 | 'Video Preview' is enabled iff a folder or a video file, and previews the folder or the file |
| ContextMenu.IsVideoFile | src/app/services/context-menu.service.ts:41-42 | computes only; `SameVideoTest` ties its extension test to the back end's `IsVideoName`, and `VideoPreviewItem` and `OpenInVlcItem` state how it enables the menu |
| ContextMenu.SameVideoTest | src/app/services/context-menu.service.ts:10-42 | the front end's video test agrees with the back end's |
| ContextMenu.EncodeDecodeItems | src/app/services/context-menu.service.ts:68-77 | Encode's caption gains " (maybe too long)" iff it cannot encode; Encode enabled iff folder or not encoded, Decode iff folder or encoded |
| ContextMenu.AlwaysOffered | src/app/services/context-menu.service.ts:57-100 | Show in File Manager, Copy Path, Rename, Delete and Select for Move are always enabled |
| ContextMenu.RefreshItem | src/app/services/context-menu.service.ts:90-94 | Refresh is enabled iff the row is a folder |
| ContextMenu.MoveItem | src/app/services/context-menu.service.ts:101-107 | the Move caption names the move source or reads 'Select for Move first'; enabled iff it may move here |
| ContextMenu.MenuLabelsFixed | src/app/services/context-menu.service.ts:44-108 | every row gets the same captions in the same order except Encode and Move |
| ContextMenu.PlayOrRefresh | src/app/services/context-menu.service.ts:47-92 | exactly one of 'Open in VLC Player' and Refresh is enabled |
| ContextMenu.EncodeOrDecode | src/app/services/context-menu.service.ts:36-37 | for a file exactly one of Encode and Decode is enabled, for a folder both |
| ContextMenu.DeleteQuestionReadsBack | src/app/services/context-menu.service.ts:130-131 | the question names the entry and mentions children exactly when there are some, with a count that reads back |
| ContextMenu.ContextMenuService.constructor | src/app/services/context-menu.service.ts:18 | no menu component registered |
| ContextMenu.ContextMenuService.Register | src/app/services/context-menu.service.ts:21-23 | a menu component is registered |
| ContextMenu.ContextMenuService.Show | src/app/services/context-menu.service.ts:29-111 | nothing without a registered menu component, otherwise the row's menu |
| ContextMenu.ContextMenuService.ConfirmDelete | src/app/services/context-menu.service.ts:117-139 | files count 0 children; more than 5 refuses and deletes nothing; otherwise the question is asked and the node is deleted only after a yes |
| SearchPanel.StripRoot | src/app/components/search-panel/search-panel.component.ts:43-47 | a suffix of the path: the path minus the root and one more character when it starts with the root, the whole path otherwise |
| SearchPanel.StripRootBelow | src/app/components/search-panel/search-panel.component.ts:44-46 | below the root, whatever one character follows it, the rest is shown |
| SearchPanel.StripRootSiblingPrefix | src/app/components/search-panel/search-panel.component.ts:44-46 | "/videos2/a.mp4" below the root "/videos" is shown as "/a.mp4" |
| SearchPanel.SearchPanelComponent.constructor | src/app/components/search-panel/search-panel.component.ts:1-20 | holds the search service and the tree service it is given |
| SearchPanel.SearchPanelComponent.RelativePath | src/app/components/search-panel/search-panel.component.ts:40-48 | the whole path without a root, otherwise the stripped path |
| SearchPanel.SearchPanelComponent.OnKeydown | src/app/components/search-panel/search-panel.component.ts:21-27 | Enter searches, Escape clears, other keys change nothing |
| SearchPanel.SearchPanelComponent.DoSearch | src/app/components/search-panel/search-panel.component.ts:29-34 | nothing without a root; otherwise the box's text (empty when missing) is searched for below the root |

## Left out

- Lowercasing (`toLowerCase`, `to_lowercase`) is modelled for ASCII only; both languages fold all of Unicode.
- Paths are '/'-separated text. Windows separators and `Path` normalisation are not modelled.
- `to_string_lossy` and `to_str` are not modelled: every file name is taken to be valid Unicode.
- Times are Dafny reals, so IEEE rounding and the drift of `t += interval` are not modelled.
- `get_video_info`, `extract_video_frame` and `simplify_framerate` (ffprobe and ffmpeg subprocesses, JSON parsing) are collaborators; their results are parameters.
- `collect_video_files` is the recursive directory walk. Only its outcome is a parameter of `VideoCommands.ListVideoFiles`.
- The test-only `calculate_timestamps` command is modelled but has no caller here.
- The frame cache of `cache.rs` is I/O behind a mutex and is not part of this model.
- Angular signals, effects, NgZone, `requestAnimationFrame`, IntersectionObserver and DOM queries are not modelled as a scheduler. Each `await` resumption is a method call that carries the captured generation id. Visibility reports are explicit observations.
- Two runs that interleave differently are only as ordered as the caller orders the continuation calls.
- Node objects and their aliasing are not modelled. A node is its address in a tree value, and an in-place mutation is a replacement at that address. `findParent`'s identity test `child === target` becomes address equality.
- `Preview.PreviewService.UpdateFolderEntry` requires an index in range. The source's `updated[index] = …` past the end would grow the array, but no continuation calls it that way.
- `Preview.CalculateTimestamps` requires the interval loop to end. The TypeScript loop never stops for a non-positive interval below the duration.
- `FileTree.FileTreeService.NotifyChange` with no root changes nothing. `cloneTree(null)` would throw a TypeError, which no operation that finds a node can meet.
- `FileTree.FileTreeService.EncodeNode` and `DecodeNode` carry no contract of their own; both are `TakeEntry`, which carries it.
- The context-menu component, the rename dialog, focus handling and scrolling into view are DOM plumbing and are not modelled.
- `moveSource`, `canMoveTo`, `canEncode` and `countChildren` are parameters, not modelled services.
- `ContextMenu.ContextMenuService.Show`: `canEncode` arrives as a plain boolean. A rejected `canEncode` promise, which would leave the menu unshown, is not modelled.
- `onNodeDblClick` only hands a file to `openInVlc`, a process launch, and is not modelled. `onContextMenu` sets the selection and then calls `show`; only `Show` is modelled.
- `formatFileSize` and `formatBitrate` (float formatting) and `onResizeStart` (mouse plumbing) are not modelled.
- Sorting is a functional insertion sort. Its stability and the in-place `sort` are not stated.
- `Models.ErrorText`: a thrown `null` or `undefined` makes `e.message` itself throw a TypeError. The model's `Thrown` has no such value, so that case is not modelled.

## Findings

| source | as written | input that shows it | evidently intended | confidence | as-written member | corrected member |
|---|---|---|---|---|---|---|
| src/app/services/search.service.ts:51-69 | `current` keeps pointing at the node object the walk started from. Each `expandNode` ends in `notifyChange`, which replaces the shown tree with a copy (src/app/services/file-tree.service.ts:141-150). From the second expansion on, only nodes that are no longer shown change. | Folders `/r/A` and `/r/A/B` not yet read; reveal `/r/A/B/f.mp4`. `A` ends up expanded in the shown tree, `B` does not (`Search.AsWrittenLeavesFolderClosed`). | Every folder on the way to the result is expanded in the tree that is shown. | not executed | Search.SearchService.ExpandParentsAsWritten | Search.SearchService.ExpandParents |

/** The records the Rust commands return and the Angular services keep. */
module Models {
  import opened Wrappers

  /** One directory entry as `read_directory` reports it. */
  datatype FileEntry = FileEntry(
    path: string,
    /** Display name: the decoded name of an encoded entry, else the physical name. */
    name: string,
    /** The name on disk. */
    physicalName: string,
    isDirectory: bool,
    isEncoded: bool,
    decodedName: Option<string>,
    /** Whether a directory has at least one entry, for lazy loading. */
    hasChildren: bool)

  /** What the probe of a video file reports. */
  datatype VideoInfo = VideoInfo(
    durationSecs: real,
    fileSizeBytes: nat,
    width: Option<nat>,
    height: Option<nat>,
    displayAspectRatio: Option<string>,
    codec: Option<string>,
    bitrate: Option<nat>,
    framerate: Option<string>)

  /** One extracted frame, tagged with its position in the plan. */
  datatype VideoFrame = VideoFrame(index: nat, timestampSecs: real, dataBase64: string)

  /** How sample times are chosen: a fixed number spread over the video, or one
      every so many minutes. */
  datatype FrameMode = Fixed(count: nat) | Interval(minutes: real)

  /** One video of a folder preview and what has been gathered for it so far. */
  datatype FolderVideoEntry = FolderVideoEntry(
    filePath: string,
    relativePath: string,
    info: Option<VideoInfo>,
    frames: seq<VideoFrame>,
    error: Option<string>)

  /** A value a rejected promise carries: a bare string, or an Error object whose
      `message` may be missing. */
  datatype Thrown = ThrownString(text: string) | ThrownObject(message: Option<string>)

  /** `typeof e === 'string' ? e : e.message ?? 'Unknown error'`. */
  function ErrorText(e: Thrown): (r: string)
    ensures e.ThrownString? ==> r == e.text
    ensures e.ThrownObject? && e.message.Some? ==> r == e.message.value
    ensures e.ThrownObject? && e.message.None? ==> r == "Unknown error"
  {
    match e
    case ThrownString(t) => t
    case ThrownObject(m) => m.GetOr("Unknown error")
  }
}

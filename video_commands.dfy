/** The deterministic parts of `video_commands.rs`: the extension test for video
    files, the final sort of `list_video_files` and the test-only
    `calculate_timestamps`. */
module VideoCommands {
  import opened Wrappers
  import opened Text
  import opened Sorting
  import opened Timestamps
  import Encoding
  import EncodedDir

  const VideoExtensions: seq<string> := ["mp4", "mkv", "avi", "webm", "mov", "mpg", "mpeg"]

  /** The lowercased text after the last '.', or the whole name when it has none. */
  function Extension(name: string): string {
    Lower(LastSegment(name, '.'))
  }

  /** A name counts as a video when its extension is listed. */
  predicate IsVideoName(name: string) {
    Extension(name) in VideoExtensions
  }

  /** A name with a '.' is a video exactly when its lowercased final extension is
      listed. */
  lemma IsVideoNameDotted(base: string, ext: string)
    requires '.' !in ext
    ensures IsVideoName(base + "." + ext) <==> Lower(ext) in VideoExtensions
  {
    LastSegmentAfterSeparator(base, ext, '.');
  }

  /** A name without any '.' is judged on the whole lowercased name. */
  lemma IsVideoNameUndotted(name: string)
    requires '.' !in name
    ensures IsVideoName(name) <==> Lower(name) in VideoExtensions
  {
    LastSegmentWhole(name, '.');
  }

  lemma IsVideoNameUpperCase()
    ensures IsVideoName("Holiday.MKV")
  {
    assert "Holiday.MKV" == "Holiday" + "." + "MKV";
    IsVideoNameDotted("Holiday", "MKV");
    assert Lower("MKV") == "mkv";
  }

  lemma IsVideoNameLastExtensionOnly()
    ensures !IsVideoName("clip.mp4.txt")
  {
    assert "clip.mp4.txt" == "clip.mp4" + "." + "txt";
    IsVideoNameDotted("clip.mp4", "txt");
    assert Lower("txt") == "txt";
  }

  /** A name without a '.' that equals an extension counts as a video. */
  lemma IsVideoNameBareExtension()
    ensures IsVideoName("mpeg")
  {
    IsVideoNameUndotted("mpeg");
    assert Lower("mpeg") == "mpeg";
  }

  /** `is_video_file`: an encoded name is judged by its decoded name and is no
      video when it does not decode; a plain name by itself. */
  function IsVideoFile(path: string): (r: bool)
    ensures var n := EncodedDir.FileName(path);
      if StartsWith(n, EncodedDir.Prefix) then
        r == (EncodedDir.TryDecodeName(n).Some? && IsVideoName(EncodedDir.TryDecodeName(n).value))
      else r == IsVideoName(n)
  {
    var fileName := EncodedDir.FileName(path);
    if StartsWith(fileName, ".dat_") then
      match Encoding.DecodeString(fileName[5..])
      case Some(decoded) => IsVideoName(decoded)
      case None => false
    else IsVideoName(fileName)
  }

  /** A file renamed by `encode_name` is still a video exactly when its real name is. */
  lemma IsVideoFileEncoded(dir: string, name: string)
    requires |dir| == 0 || dir[|dir| - 1] == '/'
    requires '/' !in Encoding.EncodeString(name)
    ensures IsVideoFile(dir + EncodedDir.EncodeName(name)) == IsVideoName(name)
  {
    var enc := EncodedDir.EncodeName(name);
    assert '/' !in enc by {
      forall i | 0 <= i < |enc| ensures enc[i] != '/' {
        if i >= 5 {
          assert enc[i] == Encoding.EncodeString(name)[i - 5];
        }
      }
    }
    assert enc != [] by { assert |enc| >= 5; }
    if |dir| == 0 {
      assert dir + enc == enc;
      LastSegmentWhole(enc, '/');
    } else {
      assert dir + enc == dir[..|dir| - 1] + ['/'] + enc;
      LastSegmentAfterSeparator(dir[..|dir| - 1], enc, '/');
    }
    EncodedDir.TryDecodeEncodeName(name);
  }

  // ------------------------------------------------------------ listing

  /** `list_video_files`: "Not a directory" for a path that is not a directory,
      the collector's error when walking the tree failed, and otherwise the
      collected paths in sorted order. The directory walk itself is a parameter:
      `collected` is what `collect_video_files` produced. */
  method ListVideoFiles(path: string, isDirectory: bool, collected: Result<seq<string>, string>)
    returns (r: Result<seq<string>, string>)
    ensures !isDirectory ==> r == Err("Not a directory: " + path)
    ensures isDirectory && collected.Err? ==> r == Err(collected.error)
    ensures isDirectory && collected.Ok? ==>
      r.Ok? && multiset(r.value) == multiset(collected.value) && SortedBy(r.value, s => s)
  {
    if !isDirectory {
      return Err("Not a directory: " + path);
    }
    match collected
    case Err(e) => r := Err(e);
    case Ok(results) =>
      var sorted := SortBy(results, s => s);
      SortByPermutes(results, s => s);
      SortBySorted(results, s => s);
      r := Ok(sorted);
  }

  // --------------------------------------------------------- timestamps

  /** `calculate_timestamps`, with the mode as the string the command receives and
      the optional parameters that belong to each mode. */
  method CalculateTimestamps(duration: real, modeType: string, count: Option<nat>, minutes: Option<real>)
    returns (r: Result<seq<real>, string>)
    ensures modeType == "fixed" && count.None? ==> r == Err("Missing 'count' for fixed mode")
    ensures modeType == "fixed" && count.Some? ==> r == Ok(FixedPlan(duration, count.value))
    ensures modeType == "interval" && minutes.None? ==> r == Err("Missing 'minutes' for interval mode")
    ensures modeType == "interval" && minutes.Some? && minutes.value * 60.0 <= 0.0 ==>
      r == Err("Interval must be positive")
    ensures modeType == "interval" && minutes.Some? && minutes.value * 60.0 > 0.0 ==>
      r == Ok(IntervalPlan(duration, minutes.value * 60.0))
    ensures modeType != "fixed" && modeType != "interval" ==> r == Err("Unknown mode type: " + modeType)
  {
    if modeType == "fixed" {
      if count.None? {
        return Err("Missing 'count' for fixed mode");
      }
      var n := count.value;
      if n == 0 {
        return Ok([]);
      }
      var step := duration / (n as real + 1.0);
      var ts := [];
      var i := 1;
      while i <= n
        invariant 1 <= i <= n + 1
        invariant ts == FixedPlan(duration, n)[..i - 1]
      {
        var plan := FixedPlan(duration, n);
        assert plan[i - 1] == step * i as real;
        assert plan[..i] == plan[..i - 1] + [plan[i - 1]];
        ts := ts + [step * i as real];
        i := i + 1;
      }
      assert ts == FixedPlan(duration, n);
      return Ok(ts);
    } else if modeType == "interval" {
      if minutes.None? {
        return Err("Missing 'minutes' for interval mode");
      }
      var interval := minutes.value * 60.0;
      if interval <= 0.0 {
        return Err("Interval must be positive");
      }
      var ts := IntervalLoop(duration, interval);
      return Ok(ts);
    } else {
      return Err("Unknown mode type: " + modeType);
    }
  }

  /** The remaining cases of the Rust tests: zero points, an unknown mode and the
      missing parameters all have the expected outcome. */
  method CalculateTimestampsExamples() {
    var r := CalculateTimestamps(100.0, "fixed", Some(0), None);
    assert FixedPlan(100.0, 0) == [];
    assert r == Ok([]);
    r := CalculateTimestamps(100.0, "unknown", None, None);
    assert r.Err?;
    r := CalculateTimestamps(100.0, "fixed", None, None);
    assert r.Err?;
    r := CalculateTimestamps(100.0, "interval", None, None);
    assert r.Err?;
    r := CalculateTimestamps(600.0, "interval", None, Some(2.0));
    IntervalPlanExamples();
    assert r == Ok([120.0, 240.0, 360.0, 480.0]);
  }
}

/** Encoded directory names (`encoded_dir.rs`): a folder whose physical name is
    ".dat_" followed by the Base64 of its real name is shown under the real name. */
module EncodedDir {
  import opened Wrappers
  import opened Text
  import Utf8
  import Base64
  import Encoding

  const Prefix: string := ".dat_"

  /** `try_decode_name`: the decoded name when the physical name carries the
      prefix and the rest decodes, None otherwise. */
  function TryDecodeName(physicalName: string): (r: Option<string>)
    ensures !StartsWith(physicalName, Prefix) ==> r == None
    ensures StartsWith(physicalName, Prefix) ==> r == Encoding.DecodeString(physicalName[|Prefix|..])
  {
    if StartsWith(physicalName, Prefix) then Encoding.DecodeString(physicalName[|Prefix|..]) else None
  }

  /** `encode_name`: the prefix followed by the Base64 form of the name. */
  function EncodeName(name: string): (r: string)
    ensures StartsWith(r, Prefix)
    ensures r[|Prefix|..] == Encoding.EncodeString(name)
  {
    Prefix + Encoding.EncodeString(name)
  }

  /** Encoding a name and reading it back gives the name. */
  lemma TryDecodeEncodeName(name: string)
    ensures TryDecodeName(EncodeName(name)) == Some(name)
  {
    Encoding.DecodeEncodeString(name);
  }

  /** A physical name that decodes is exactly the encoding of its decoded name, so
      distinct encoded folders always show distinct names. */
  lemma EncodeTryDecodeName(physicalName: string)
    requires TryDecodeName(physicalName).Some?
    ensures EncodeName(TryDecodeName(physicalName).value) == physicalName
  {
    var rest := physicalName[|Prefix|..];
    var name := Encoding.DecodeString(rest);
    assert TryDecodeName(physicalName) == name;
    Encoding.EncodeDecodeString(rest);
    assert EncodeName(name.value) == Prefix + rest;
    assert physicalName == Prefix + rest;
  }

  /** The test `test_try_decode_plain_name`. */
  lemma PlainNameExample()
    ensures TryDecodeName("regular_folder") == None
  {
    assert "regular_folder"[0] != Prefix[0];
  }

  /** The standard alphabet holds '/', so an encoded name can hold the path
      separator: the name "???" is stored as ".dat_Pz8/". */
  lemma EncodedNameWithSeparator()
    ensures EncodeName("???") == ".dat_Pz8/"
  {
    assert Utf8.Encode("???") == [63, 63, 63];
    assert Base64.Quad(63, 63, 63) == "Pz8/";
    assert Base64.Encode([63, 63, 63]) == "Pz8/";
  }

  // ------------------------------------------------------------------ paths

  /** `Path::file_name` for a '/'-separated path: the text after the last '/'. */
  function FileName(path: string): (r: string)
    ensures '/' !in r && |r| <= |path| && path[|path| - |r|..] == r
    ensures |r| == |path| || path[|path| - |r| - 1] == '/'
  {
    LastSegmentIsSuffix(path, '/');
    LastSegment(path, '/')
  }

  /** The directory part including its final '/', so that `Parent(p) + n` is
      `Path::parent(p).join(n)`. */
  function Parent(path: string): (r: string)
    ensures r + FileName(path) == path
    ensures |r| == 0 || r[|r| - 1] == '/'
  {
    var name := FileName(path);
    LastSegmentIsSuffix(path, '/');
    assert path == path[..|path| - |name|] + path[|path| - |name|..];
    path[..|path| - |name|]
  }

  /** The path a folder would have after `encode_name` renames it. */
  function EncodedPath(path: string): string {
    Parent(path) + EncodeName(FileName(path))
  }

  /** `can_encode`: the renamed path stays below 256 bytes of UTF-8. */
  function CanEncode(path: string): bool {
    |Utf8.Encode(EncodedPath(path))| < 256
  }

  /** The renamed path's length in bytes: the directory part, the five prefix
      characters and four characters per started group of three bytes of the
      name. */
  lemma CanEncodeLength(path: string)
    ensures CanEncode(path) <==>
      |Utf8.Encode(Parent(path))| + 5 + 4 * ((|Utf8.Encode(FileName(path))| + 2) / 3) < 256
  {
    var dir, name := Parent(path), FileName(path);
    var enc := Encoding.EncodeString(name);
    assert EncodedPath(path) == dir + (Prefix + enc);
    Encoding.EncodeStringIsAscii(name);
    PrefixedBytes(dir, enc);
  }

  lemma PrefixedBytes(dir: string, enc: string)
    requires |Utf8.Encode(enc)| == |enc|
    ensures |Utf8.Encode(dir + (Prefix + enc))| == |Utf8.Encode(dir)| + |Prefix| + |enc|
  {
    Utf8.EncodeAppend(dir, Prefix + enc);
    Utf8.EncodeAppend(Prefix, enc);
    Utf8.EncodeAscii(Prefix);
  }
}

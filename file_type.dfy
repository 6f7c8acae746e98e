/**
  The type check `upload_model` applies to an upload: the file is accepted when
  its lower-cased name ends in `.glb` or `.gltf`, or when its content type is on
  the allowlist.
*/
module FileType {

  /** `ALLOWED_MIME_TYPES`: glTF binary, generic binary and glTF JSON. */
  const ALLOWED_MIME_TYPES: seq<string> := ["model/gltf-binary", "application/octet-stream", "model/gltf+json"]

  /** Case folding of one character; only ASCII letters are folded. */
  function ToLowerAscii(c: char): char {
    if 'A' <= c <= 'Z' then (c as int + 32) as char else c
  }

  /** `str::to_lowercase`, restricted to ASCII folding. */
  function ToLowercase(s: string): (r: string)
    ensures |r| == |s|
    ensures forall i :: 0 <= i < |s| ==> r[i] == ToLowerAscii(s[i])
  {
    if s == [] then [] else [ToLowerAscii(s[0])] + ToLowercase(s[1..])
  }

  predicate EndsWith(s: string, suffix: string) {
    |suffix| <= |s| && s[|s| - |suffix|..] == suffix
  }

  predicate IsValidMime(contentType: string) {
    contentType in ALLOWED_MIME_TYPES
  }

  predicate IsGlbFile(fileName: string) {
    EndsWith(ToLowercase(fileName), ".glb")
  }

  predicate IsGltfFile(fileName: string) {
    EndsWith(ToLowercase(fileName), ".gltf")
  }

  /** `is_valid_file`: a known extension, whatever the MIME type, or an allowed MIME type. */
  predicate IsValidFile(fileName: string, contentType: string) {
    IsGlbFile(fileName) || IsGltfFile(fileName) || IsValidMime(contentType)
  }

  /** `c` is `lower` in either letter case. */
  predicate IsEitherCase(c: char, lower: char) {
    c == lower || c as int == lower as int - 32
  }

  /** The folded name ends in `.glb` exactly when the name's last four characters
      are a dot followed by g, l, b in either case. */
  lemma GlbExtensionIgnoresCase(fileName: string)
    ensures IsGlbFile(fileName) <==>
      (var n := |fileName|;
       n >= 4 && fileName[n - 4] == '.' && IsEitherCase(fileName[n - 3], 'g')
       && IsEitherCase(fileName[n - 2], 'l') && IsEitherCase(fileName[n - 1], 'b'))
  {
    var n := |fileName|;
    if n >= 4 {
      var low := ToLowercase(fileName);
      assert low[n - 4..] == [low[n - 4], low[n - 3], low[n - 2], low[n - 1]];
      assert low[n - 4] == ToLowerAscii(fileName[n - 4]) && low[n - 3] == ToLowerAscii(fileName[n - 3])
        && low[n - 2] == ToLowerAscii(fileName[n - 2]) && low[n - 1] == ToLowerAscii(fileName[n - 1]);
    }
  }

  /** The same for `.gltf` and the last five characters. */
  lemma GltfExtensionIgnoresCase(fileName: string)
    ensures IsGltfFile(fileName) <==>
      (var n := |fileName|;
       n >= 5 && fileName[n - 5] == '.' && IsEitherCase(fileName[n - 4], 'g')
       && IsEitherCase(fileName[n - 3], 'l') && IsEitherCase(fileName[n - 2], 't')
       && IsEitherCase(fileName[n - 1], 'f'))
  {
    var n := |fileName|;
    if n >= 5 {
      var low := ToLowercase(fileName);
      assert low[n - 5..] == [low[n - 5], low[n - 4], low[n - 3], low[n - 2], low[n - 1]];
      assert low[n - 5] == ToLowerAscii(fileName[n - 5]) && low[n - 4] == ToLowerAscii(fileName[n - 4])
        && low[n - 3] == ToLowerAscii(fileName[n - 3]) && low[n - 2] == ToLowerAscii(fileName[n - 2])
        && low[n - 1] == ToLowerAscii(fileName[n - 1]);
    }
  }

  /** A missing content type is recorded as "", which is not on the allowlist:
      such a file passes only on its extension. */
  lemma EmptyContentTypeNeedsExtension(fileName: string)
    ensures IsValidFile(fileName, "") <==> IsGlbFile(fileName) || IsGltfFile(fileName)
  {
    assert !IsValidMime("") by {
      assert |ALLOWED_MIME_TYPES[0]| > 0 && |ALLOWED_MIME_TYPES[1]| > 0 && |ALLOWED_MIME_TYPES[2]| > 0;
    }
  }
}

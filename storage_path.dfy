/**
  Where an accepted upload is stored: `uploads/models/<id>.<ext>`, with `ext`
  taken from the file name as Rust's `Path::extension` does, or `bin`.

  The file name here is one path component (it holds no `/`, which the
  sanitizer guarantees), read under Unix path rules.
*/
module StoragePath {
  import opened Wrappers

  const STORAGE_DIR: string := "uploads/models/"
  const DEFAULT_EXTENSION: string := "bin"

  /** The position of the last `c` in `s`, if any. */
  function LastIndexOf(s: string, c: char): (r: Option<nat>)
    ensures r.Some? ==> r.value < |s| && s[r.value] == c
    ensures r.Some? ==> forall j :: r.value < j < |s| ==> s[j] != c
    ensures r.None? ==> forall j :: 0 <= j < |s| ==> s[j] != c
  {
    if s == [] then None
    else if s[|s| - 1] == c then Some(|s| - 1)
    else LastIndexOf(s[..|s| - 1], c)
  }

  /**
    `Path::new(name).extension()` for a single component. `file_name()` is
    `None` for "", "." and ".."; otherwise the name is split at its last dot,
    and there is no extension when there is no dot or when the only text
    before the last dot is empty (a lone leading dot, as in ".glb").
  */
  function Extension(name: string): (r: Option<string>)
    ensures r.Some? ==> '.' !in r.value && |r.value| < |name|
  {
    if name == "" || name == "." || name == ".." then None
    else
      match LastIndexOf(name, '.')
      case None => None
      case Some(i) => if i == 0 then None else Some(name[i + 1..])
  }

  /** `.extension().and_then(|s| s.to_str()).unwrap_or("bin")`. */
  function StorageExtension(name: string): (r: string)
    ensures '.' !in r
  {
    Extension(name).GetOr(DEFAULT_EXTENSION)
  }

  /** `format!("{}.{}", model_id, extension)`. */
  function StorageFileName(modelId: string, name: string): string {
    modelId + "." + StorageExtension(name)
  }

  /** `format!("uploads/models/{}", storage_filename)`. */
  function FilePath(modelId: string, name: string): string {
    STORAGE_DIR + StorageFileName(modelId, name)
  }

  /** The storage path written out: directory, id, a dot and the extension. */
  lemma FilePathParts(modelId: string, name: string)
    ensures FilePath(modelId, name) == STORAGE_DIR + modelId + "." + StorageExtension(name)
  {
    var ext := StorageExtension(name);
    assert STORAGE_DIR + (modelId + "." + ext) == STORAGE_DIR + modelId + "." + ext;
  }

  /** The text form of a v4 UUID (hex digits and hyphens) is non-empty and holds
      no `/`, no `\\` and no `.`. */
  predicate IsToken(modelId: string) {
    modelId != [] && '/' !in modelId && '\\' !in modelId && '.' !in modelId
  }

  /** A name with a dot after its first character has as extension exactly the
      text after its final dot (possibly empty, as for "model."), unless it is "..". */
  lemma ExtensionIsTextAfterFinalDot(name: string, i: nat)
    requires 0 < i < |name| && name[i] == '.'
    requires forall j :: i < j < |name| ==> name[j] != '.'
    requires name != ".."
    ensures Extension(name) == Some(name[i + 1..])
    ensures StorageExtension(name) == name[i + 1..]
  {
    var k := LastIndexOf(name, '.');
    assert k.Some?;
    assert k.value == i;
  }

  /** The name has no extension, and the default extension `bin` is used in its
      place, exactly when the name is ".." or has no dot after its first character. */
  lemma NoExtensionIff(name: string)
    ensures Extension(name).None? <==> name == ".." || forall j :: 0 < j < |name| ==> name[j] != '.'
    ensures Extension(name).None? ==> StorageExtension(name) == DEFAULT_EXTENSION
  {
    if name != "" && name != "." && name != ".." {
      var k := LastIndexOf(name, '.');
      if k.Some? && k.value == 0 {
        assert forall j :: 0 < j < |name| ==> name[j] != '.';
      }
    } else if name == "." {
      assert |name| == 1;
    }
  }

  /** The storage path cannot leave `uploads/models/`: the final component neither
      holds a separator nor is "." or "..". */
  lemma FilePathStaysInStorageDir(modelId: string, name: string)
    requires IsToken(modelId)
    requires '/' !in name && '\\' !in name
    ensures var p := FilePath(modelId, name);
      |p| > |STORAGE_DIR| && p[..|STORAGE_DIR|] == STORAGE_DIR
      && var last := p[|STORAGE_DIR|..];
      '/' !in last && '\\' !in last && last != "." && last != ".."
  {
    var ext := StorageExtension(name);
    var last := StorageFileName(modelId, name);
    var p := FilePath(modelId, name);
    assert p == STORAGE_DIR + last;
    assert p[|STORAGE_DIR|..] == last;
    assert p[..|STORAGE_DIR|] == STORAGE_DIR;
    assert '/' !in ext && '\\' !in ext by {
      match Extension(name)
      case None =>
      case Some(e) =>
        var i := LastIndexOf(name, '.').value;
        assert e == name[i + 1..];
        assert forall j :: 0 <= j < |e| ==> e[j] == name[i + 1 + j];
    }
    assert last == modelId + "." + ext;
    assert forall j :: 0 <= j < |last| ==> last[j] != '/' && last[j] != '\\' by {
      forall j | 0 <= j < |last| ensures last[j] != '/' && last[j] != '\\' {
        if j < |modelId| {
          assert last[j] == modelId[j];
        } else if j > |modelId| {
          assert last[j] == ext[j - |modelId| - 1];
        }
      }
    }
    assert last[0] == modelId[0];
    assert last[0] != '.';
  }
}

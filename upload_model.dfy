/**
  `upload_model`: read the multipart fields, then decide. The decision checks,
  in this order, that a file name was given, that monster data was given, and
  that the file type is acceptable; an accepted file is stored as
  `uploads/models/<id>.<ext>` and recorded in the database.

  The UUID is the parameter `modelId`; the outcomes of writing the file and of
  the database insert are the parameters `saveOk` and `insertOk`.
*/
module UploadModel {
  import opened Wrappers
  import opened Sanitize
  import opened FileType
  import opened StoragePath
  import opened UploadFields

  /** `UploadModelResponse`, the body of a 200 answer. */
  datatype UploadModelResponse = UploadModelResponse(modelId: string, fileName: string, fileSize: int)

  /** The arguments the handler passes to `Monster::new` for the database row. */
  datatype MonsterRecord<Info> = MonsterRecord(id: string, info: Info, fileName: string, filePath: string,
                                               fileSize: int, mimeType: string)

  datatype Outcome<Info> =
    | Rejected(reason: Rejection)
    | Accepted(response: UploadModelResponse, record: MonsterRecord<Info>)

  /** The checks after the field loop, in the handler's order. */
  function Decide<Info>(st: Collected<Info>, modelId: string, saveOk: bool, insertOk: bool): (r: Outcome<Info>)
    ensures r == Rejected(NoFile) <==> st.fileName == ""
    ensures r.Accepted? <==> st.fileName != "" && st.monsterInfo.Some?
                             && IsValidFile(st.fileName, st.contentType) && saveOk && insertOk
    ensures r.Accepted? ==> r.response.fileSize == r.record.fileSize == |st.fileData|
                            && r.response.fileName == r.record.fileName == st.fileName
                            && r.record.mimeType == st.contentType
                            && r.response.modelId == r.record.id == modelId
                            && r.record.filePath == FilePath(modelId, st.fileName)
  {
    if st.fileName == "" then Rejected(NoFile)
    else
      match st.monsterInfo
      case None => Rejected(NoMonsterData)
      case Some(info) =>
        if !IsValidFile(st.fileName, st.contentType) then Rejected(InvalidFileType)
        else if !saveOk then Rejected(SaveFailed)
        else if !insertOk then Rejected(MetadataFailed)
        else
          Accepted(UploadModelResponse(modelId, st.fileName, |st.fileData|),
                   MonsterRecord(modelId, info, st.fileName, FilePath(modelId, st.fileName),
                                 |st.fileData|, st.contentType))
  }

  /** The outcome of a request whose fields are `fields`. */
  function Upload<Info>(parse: seq<byte> -> Option<Info>, isAlphanumeric: char -> bool, fields: seq<Field>,
                        modelId: string, saveOk: bool, insertOk: bool): (r: Outcome<Info>)
    ensures r.Accepted? ==> r.response.fileSize <= MAX_FILE_SIZE
  {
    match Run(parse, isAlphanumeric, Initial(), fields)
    case Err(e) => Rejected(e)
    case Ok(st) =>
      RunFinalState(parse, isAlphanumeric, Initial(), fields, st);
      Decide(st, modelId, saveOk, insertOk)
  }

  /** The handler itself: the nested field and chunk loops with their early
      returns, then the decision. */
  method HandleUpload<Info>(parse: seq<byte> -> Option<Info>, isAlphanumeric: char -> bool, fields: seq<Field>,
                           modelId: string, saveOk: bool, insertOk: bool)
    returns (outcome: Outcome<Info>)
    ensures outcome == Upload(parse, isAlphanumeric, fields, modelId, saveOk, insertOk)
  {
    var fileData: seq<byte> := [];
    var fileName: string := "";
    var contentType: string := "";
    var monsterInfo: Option<Info> := None;
    ghost var start: Collected<Info> := Initial();

    var i := 0;
    while i < |fields|
      invariant 0 <= i <= |fields|
      invariant |fileData| <= MAX_FILE_SIZE
      invariant Run(parse, isAlphanumeric, start, fields)
             == Run(parse, isAlphanumeric, Collected(fileData, fileName, contentType, monsterInfo), fields[i..])
    {
      var field := fields[i];
      ghost var before := Collected(fileData, fileName, contentType, monsterInfo);
      assert fields[i..][0] == field && fields[i..][1..] == fields[i + 1..];

      if field.name == "file" {
        if field.filename.Some? {
          fileName := SanitizeFilename(isAlphanumeric, field.filename.value);
        }
        contentType := match field.contentType case Some(ct) => ct case None => "";
        var j := 0;
        while j < |field.chunks|
          invariant 0 <= j <= |field.chunks|
          invariant |fileData| <= MAX_FILE_SIZE
          invariant AppendChunks(before.fileData, field.chunks) == AppendChunks(fileData, field.chunks[j..])
        {
          assert field.chunks[j..][0] == field.chunks[j] && field.chunks[j..][1..] == field.chunks[j + 1..];
          fileData := fileData + field.chunks[j];
          if |fileData| > MAX_FILE_SIZE {
            return Rejected(PayloadTooLarge);
          }
          j := j + 1;
        }
        assert field.chunks[j..] == [];
      } else if field.name == "monster_data" {
        var jsonData: seq<byte> := [];
        var j := 0;
        while j < |field.chunks|
          invariant 0 <= j <= |field.chunks|
          invariant Concat(field.chunks) == jsonData + Concat(field.chunks[j..])
        {
          assert field.chunks[j..][0] == field.chunks[j] && field.chunks[j..][1..] == field.chunks[j + 1..];
          jsonData := jsonData + field.chunks[j];
          j := j + 1;
        }
        assert field.chunks[j..] == [];
        assert jsonData == Concat(field.chunks);
        match parse(jsonData)
        case None =>
          return Rejected(InvalidMonsterData);
        case Some(info) =>
          monsterInfo := Some(info);
      }
      i := i + 1;
    }
    assert fields[i..] == [];
    outcome := Decide(Collected(fileData, fileName, contentType, monsterInfo), modelId, saveOk, insertOk);
  }

  // ---------------------------------------------------------------------------
  // The outcome in terms of the field sequence

  /** The name that survives the field loop is a sanitized one. */
  lemma {:induction false} LastNameIsSanitized(isAlphanumeric: char -> bool, fields: seq<Field>)
    ensures Last(fields, NameOf(isAlphanumeric)).Some? ==>
            AllAllowed(isAlphanumeric, Last(fields, NameOf(isAlphanumeric)).value)
    decreases |fields|
  {
    if fields != [] {
      LastNameIsSanitized(isAlphanumeric, fields[..|fields| - 1]);
    }
  }

  /** When the loop runs to its end, the outcome is decided by the file name of
      the last `file` field that carried one, the content type of the last `file`
      field and the monster data of the last `monster_data` field: first no
      usable file name, then no monster data, then a bad file type. */
  lemma UploadOutcome<Info>(parse: seq<byte> -> Option<Info>, isAlphanumeric: char -> bool, fields: seq<Field>,
                            modelId: string, saveOk: bool, insertOk: bool)
    requires AllMonsterDataParses(parse, fields)
    requires |FileBytes(fields)| <= MAX_FILE_SIZE
    ensures var name := Last(fields, NameOf(isAlphanumeric)).GetOr("");
            var contentType := Last(fields, ContentTypeOf).GetOr("");
            var info := Last(fields, MonsterOf(parse));
            Upload(parse, isAlphanumeric, fields, modelId, saveOk, insertOk)
            == if name == "" then Rejected(NoFile)
               else if info.None? then Rejected(NoMonsterData)
               else if !IsValidFile(name, contentType) then Rejected(InvalidFileType)
               else if !saveOk then Rejected(SaveFailed)
               else if !insertOk then Rejected(MetadataFailed)
               else Accepted(UploadModelResponse(modelId, name, |FileBytes(fields)|),
                             MonsterRecord(modelId, info.value, name, FilePath(modelId, name),
                                           |FileBytes(fields)|, contentType))
  {
    var init: Collected<Info> := Initial();
    assert init.fileData + FileBytes(fields) == FileBytes(fields);
    RunSizeLimit(parse, isAlphanumeric, init, fields);
    var final := Run(parse, isAlphanumeric, init, fields).value;
    RunFinalState(parse, isAlphanumeric, init, fields, final);
  }

  /** Too many file bytes in all: `PayloadTooLarge`, unless a `monster_data` field fails first. */
  lemma UploadTotalTooLarge<Info>(parse: seq<byte> -> Option<Info>, isAlphanumeric: char -> bool, fields: seq<Field>,
                             modelId: string, saveOk: bool, insertOk: bool)
    requires AllMonsterDataParses(parse, fields)
    requires |FileBytes(fields)| > MAX_FILE_SIZE
    ensures Upload(parse, isAlphanumeric, fields, modelId, saveOk, insertOk) == Rejected(PayloadTooLarge)
  {
    var init: Collected<Info> := Initial();
    assert init.fileData + FileBytes(fields) == FileBytes(fields);
    RunSizeLimit(parse, isAlphanumeric, init, fields);
  }

  /** As soon as the bytes of the `file` fields read so far pass the limit, the
      answer is `PayloadTooLarge`, whatever fields follow. */
  lemma UploadTooLarge<Info>(parse: seq<byte> -> Option<Info>, isAlphanumeric: char -> bool,
                             before: seq<Field>, f: Field, after: seq<Field>,
                             modelId: string, saveOk: bool, insertOk: bool)
    requires Run(parse, isAlphanumeric, Initial(), before).Ok?
    requires f.name == "file"
    requires |FileBytes(before) + Concat(f.chunks)| > MAX_FILE_SIZE
    ensures Upload(parse, isAlphanumeric, before + [f] + after, modelId, saveOk, insertOk) == Rejected(PayloadTooLarge)
  {
    var init: Collected<Info> := Initial();
    assert init.fileData + FileBytes(before) == FileBytes(before);
    OversizeFileStopsRun(parse, isAlphanumeric, init, before, f, after);
  }

  /** A `monster_data` field that does not parse, reached by the loop, gives
      `InvalidMonsterData` whatever follows it. */
  lemma UploadBadMonsterData<Info>(parse: seq<byte> -> Option<Info>, isAlphanumeric: char -> bool,
                                   before: seq<Field>, bad: Field, after: seq<Field>,
                                   modelId: string, saveOk: bool, insertOk: bool)
    requires Run(parse, isAlphanumeric, Initial(), before).Ok?
    requires bad.name == "monster_data" && parse(Concat(bad.chunks)).None?
    ensures Upload(parse, isAlphanumeric, before + [bad] + after, modelId, saveOk, insertOk) == Rejected(InvalidMonsterData)
  {
    BadMonsterDataStopsRun(parse, isAlphanumeric, Initial(), before, bad, after);
  }

  /** What an accepted upload reports and records: the id it was given, a
      non-empty name of an allowed type, the total number of file bytes
      received (within the limit), and a storage path inside `uploads/models/`. */
  lemma AcceptedUpload<Info>(parse: seq<byte> -> Option<Info>, isAlphanumeric: char -> bool, fields: seq<Field>,
                             modelId: string, saveOk: bool, insertOk: bool)
    requires Upload(parse, isAlphanumeric, fields, modelId, saveOk, insertOk).Accepted?
    ensures var out := Upload(parse, isAlphanumeric, fields, modelId, saveOk, insertOk);
            var resp := out.response;
            var rec := out.record;
            && saveOk && insertOk
            && resp.modelId == modelId == rec.id
            && resp.fileName == rec.fileName != ""
            && resp.fileSize == rec.fileSize == |FileBytes(fields)| <= MAX_FILE_SIZE
            && rec.mimeType == Last(fields, ContentTypeOf).GetOr("")
            && IsValidFile(resp.fileName, rec.mimeType)
            && rec.filePath == STORAGE_DIR + modelId + "." + StorageExtension(resp.fileName)
  {
    var init: Collected<Info> := Initial();
    var final := Run(parse, isAlphanumeric, init, fields).value;
    RunFinalState(parse, isAlphanumeric, init, fields, final);
    assert init.fileData + FileBytes(fields) == FileBytes(fields);
    FilePathParts(modelId, final.fileName);
  }

  /** The name an accepted upload is recorded under is the sanitized filename of
      the last `file` field that carried one. */
  lemma AcceptedName<Info>(parse: seq<byte> -> Option<Info>, isAlphanumeric: char -> bool, fields: seq<Field>,
                           modelId: string, saveOk: bool, insertOk: bool)
    requires Upload(parse, isAlphanumeric, fields, modelId, saveOk, insertOk).Accepted?
    ensures var name := Upload(parse, isAlphanumeric, fields, modelId, saveOk, insertOk).response.fileName;
            && Last(fields, NameOf(isAlphanumeric)) == Some(name)
            && AllAllowed(isAlphanumeric, name)
  {
    var init: Collected<Info> := Initial();
    var final := Run(parse, isAlphanumeric, init, fields).value;
    RunFinalState(parse, isAlphanumeric, init, fields, final);
    LastNameIsSanitized(isAlphanumeric, fields);
  }

  /** With Unicode's classification of the separators and a UUID for the id, an
      accepted upload is stored directly inside `uploads/models/`. */
  lemma AcceptedPathStaysInStorageDir<Info>(parse: seq<byte> -> Option<Info>, isAlphanumeric: char -> bool,
                                            fields: seq<Field>, modelId: string, saveOk: bool, insertOk: bool)
    requires SeparatorsNotAlphanumeric(isAlphanumeric)
    requires IsToken(modelId)
    requires Upload(parse, isAlphanumeric, fields, modelId, saveOk, insertOk).Accepted?
    ensures var p := Upload(parse, isAlphanumeric, fields, modelId, saveOk, insertOk).record.filePath;
            |p| > |STORAGE_DIR| && p[..|STORAGE_DIR|] == STORAGE_DIR
            && var last := p[|STORAGE_DIR|..];
            '/' !in last && '\\' !in last && last != "." && last != ".."
  {
    AcceptedUpload(parse, isAlphanumeric, fields, modelId, saveOk, insertOk);
    AcceptedName(parse, isAlphanumeric, fields, modelId, saveOk, insertOk);
    var name := Upload(parse, isAlphanumeric, fields, modelId, saveOk, insertOk).response.fileName;
    assert '/' !in name && '\\' !in name by {
      assert forall k :: 0 <= k < |name| ==> Allowed(isAlphanumeric, name[k]);
    }
    FilePathStaysInStorageDir(modelId, name);
  }

  /** A name that is nothing but an extension, such as ".glb" or ".GLTF", passes
      the type check on its extension whatever its content type, yet
      `Path::extension` sees no extension in it, so it is stored as `<id>.bin`. */
  lemma LoneExtensionStoredAsBin(e: string, contentType: string, modelId: string)
    requires '.' !in e
    requires IsGlbFile("." + e) || IsGltfFile("." + e)
    ensures IsValidFile("." + e, contentType)
    ensures Extension("." + e) == None
    ensures StorageFileName(modelId, "." + e) == modelId + ".bin"
  {
    var name := "." + e;
    assert forall j :: 0 < j < |name| ==> name[j] == e[j - 1];
    NoExtensionIff(name);
  }
}

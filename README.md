# Upload validation of the monster game server, in Dafny

This project models the model-upload endpoint of the game server
(`POST /api/models/upload`, `src/handlers/model_upload.rs`) and proves what it
promises. In the server, a player uploads a 3D model (a glTF or GLB file)
together with a `monster_data` JSON description, as one multipart request. The
handler then:

- reads the multipart fields one after another;
- collects the file bytes, refusing anything over 50 MiB;
- cleans the client's file name with `sanitize_filename`;
- checks, in a fixed order, that a file name, monster data and an acceptable
  file type were given;
- stores the file as `uploads/models/<uuid>.<ext>` and records it in the
  database.

Modules, one per concern of the handler:

- `Wrappers`: `Option` and `Result`.
- `Sanitize`: `sanitize_filename` and its properties. Rust's
  `char::is_alphanumeric` is the parameter `isAlphanumeric`.
- `FileType`: `ALLOWED_MIME_TYPES` and the `.glb`/`.gltf`/MIME check.
- `StoragePath`: `Path::extension` for one path component, and the storage
  path.
- `UploadFields`: `MAX_FILE_SIZE` and the field loop as a specification. `Step`
  is one field and `Run` is the whole loop, ending at the first rejection. The
  module also holds reference definitions that read the expected final state
  straight off the field sequence: `FileBytes`, and `Last` with `NameOf`,
  `ContentTypeOf` and `MonsterOf`.
- `UploadModel`: the decision after the loop (`Decide`), the whole request
  (`Upload`), and `HandleUpload`. `HandleUpload` is the handler written the way
  the source is: nested `while` loops over fields and chunks, `file_data` grown
  chunk by chunk, and early returns. It is proved equal to `Upload`.

Abstract inputs are parameters of the model:

- the multipart stream becomes a sequence of `Field` values. Each holds a name,
  an optional filename, an optional content type and its body chunks. A read
  error ends the source's `while let Ok(Some(..))` loops exactly as the end of
  the stream does, so the sequence is what was read before the first error;
- the `serde_json` parse of `monster_data` is `parse: seq<byte> -> Option<Info>`,
  where `Info` is a type parameter;
- the UUID is `modelId`;
- whether writing the file succeeded is `saveOk`, and whether the database
  insert succeeded is `insertOk`.

## Model

| member | source | states |
|---|---|---|
| Sanitize.SanitizeFilename | src/handlers/model_upload.rs:231-236 | the cleaned name is no longer than the input and holds only alphanumerics, `.`, `_` and `-` |
| Sanitize.SanitizeIsSubsequence | src/handlers/model_upload.rs:232-235 | the cleaned name is an order-preserving subsequence of the input |
| Sanitize.SanitizeAppend | src/handlers/model_upload.rs:232-235 | the filter works character by character: sanitizing `a + b` gives sanitize(a) + sanitize(b) |
| Sanitize.SanitizeKeepsAllowed | src/handlers/model_upload.rs:232-235 | a name made only of allowed characters comes back unchanged |
| Sanitize.SanitizeIdempotent | src/handlers/model_upload.rs:232-235 | sanitizing twice gives the same as sanitizing once |
| Sanitize.SanitizeRemovesSeparators | src/handlers/model_upload.rs:230-235 | when `/` and `\` are not alphanumeric, neither survives the filter (the path-traversal guarantee) |
| FileType.GlbExtensionIgnoresCase | src/handlers/model_upload.rs:104 | the lower-cased name ends in `.glb` iff its last four characters are a dot and g, l, b in either case |
| FileType.GltfExtensionIgnoresCase | src/handlers/model_upload.rs:105 | the same for `.gltf` and the last five characters |
| FileType.ToLowercase | src/handlers/model_upload.rs:104-105 | lower-casing keeps the length and folds each character on its own (ASCII letters only) |
| FileType.IsGlbFile | src/handlers/model_upload.rs:104 | `file_name.to_lowercase().ends_with(".glb")`; described by `GlbExtensionIgnoresCase` |
| FileType.IsGltfFile | src/handlers/model_upload.rs:105 | `file_name.to_lowercase().ends_with(".gltf")`; described by `GltfExtensionIgnoresCase` |
| FileType.IsValidMime | src/handlers/model_upload.rs:103 | the content type is exactly one of the three `ALLOWED_MIME_TYPES` strings (lines 10-14); the empty string is not one of them (`EmptyContentTypeNeedsExtension`) |
| FileType.IsValidFile | src/handlers/model_upload.rs:116 | a known extension whatever the MIME type, or an allowed MIME type; see `EmptyContentTypeNeedsExtension` and `UploadOutcome` |
| FileType.EmptyContentTypeNeedsExtension | src/handlers/model_upload.rs:103-116 | with the empty content type recorded for a missing one, a file is valid iff its name has the `.glb` or `.gltf` extension |
| StoragePath.LastIndexOf | src/handlers/model_upload.rs:136-139 | the position of the final `.` of a name: a dot, with no dot after it; or none when the name holds no dot |
| StoragePath.Extension | src/handlers/model_upload.rs:136-139 | an extension, when there is one, holds no dot and is shorter than the name |
| StoragePath.ExtensionIsTextAfterFinalDot | src/handlers/model_upload.rs:136-139 | for a name with a dot after its first character (other than ".."), the stored extension is the text after the final dot |
| StoragePath.NoExtensionIff | src/handlers/model_upload.rs:136-139 | the name has no extension, and the default extension `bin` is used in its place, exactly when the name is ".." or has no dot after its first character (no dot, or a lone leading dot) |
| StoragePath.StorageExtension | src/handlers/model_upload.rs:136-139 | the stored extension holds no dot; see `ExtensionIsTextAfterFinalDot` and `NoExtensionIff` |
| StoragePath.StorageFileName | src/handlers/model_upload.rs:143 | `<id>.<ext>`; see `FilePathStaysInStorageDir` |
| StoragePath.FilePath | src/handlers/model_upload.rs:144 | `uploads/models/<id>.<ext>`; see `FilePathStaysInStorageDir` and `AcceptedUpload` |
| StoragePath.FilePathStaysInStorageDir | src/handlers/model_upload.rs:136-144 | for a token id and a name without separators, the path is `uploads/models/` plus one component that holds no separator and is neither "." nor ".." |
| UploadFields.StatusCode | src/handlers/model_upload.rs:51-192 | the HTTP status of a rejection, as the handler answers at lines 51, 71, 86, 96, 123, 153 and 192: 413 exactly for PayloadTooLarge, 500 exactly for a failed save or database insert, 400 for the four other rejections |
| UploadFields.Initial | src/handlers/model_upload.rs:20-23 | the locals before the first field: no file bytes, empty file name and content type, no monster data |
| UploadFields.Concat | src/handlers/model_upload.rs:59-62 | the bytes of a field body, chunks joined in arrival order; the monster-data loop of `HandleUpload` is proved to build it |
| UploadFields.AppendChunks | src/handlers/model_upload.rs:45-55 | the chunk loop of a `file` field: its result extends the data it started from and, starting within the limit, stays within it; closed form in `AppendChunksSize` |
| UploadFields.Step | src/handlers/model_upload.rs:27-80 | one field: it only rejects with PayloadTooLarge (from a `file` field) or InvalidMonsterData, never shortens the file data, keeps it within the limit, and leaves the state alone for any other field name |
| UploadFields.Run | src/handlers/model_upload.rs:26-81 | the whole loop: it only rejects with PayloadTooLarge or InvalidMonsterData (status 413 or 400), and the file data only grow |
| UploadFields.StepState | src/handlers/model_upload.rs:27-80 | a successful iteration appends a `file` field's bytes and sets each local from the field that offers a value for it (name, content type, monster data), leaving the others as they were |
| UploadFields.RunAppend | src/handlers/model_upload.rs:26-81 | running `a + b` is running `a` and then, unless `a` was rejected, `b`: a rejection ends the loop |
| UploadFields.AppendChunksSize | src/handlers/model_upload.rs:45-55 | starting within the limit, the chunk loop gives the data followed by all the chunks when the total is at most `MAX_FILE_SIZE`, and fails otherwise |
| UploadFields.RunFinalState | src/handlers/model_upload.rs:26-81 | a completed loop leaves the bytes of all `file` fields appended in order (never reset) and within the limit, the sanitized name of the last `file` field with a filename, the content type of the last `file` field ("" when missing), and the parse of the last `monster_data` field |
| UploadFields.RunSizeLimit | src/handlers/model_upload.rs:45-55 | when all monster data parse, the loop succeeds iff the total file bytes are at most `MAX_FILE_SIZE` (so exactly 50 MiB passes), and otherwise fails with PayloadTooLarge |
| UploadFields.OversizeFileStopsRun | src/handlers/model_upload.rs:45-55 | once the `file` bytes read so far pass `MAX_FILE_SIZE`, the loop ends with PayloadTooLarge whatever fields follow, including a `monster_data` field that does not parse |
| UploadFields.BadMonsterDataStopsRun | src/handlers/model_upload.rs:64-74 | once reached, a `monster_data` field that does not parse ends the loop with InvalidMonsterData, whatever follows |
| UploadFields.UnknownFieldIgnored | src/handlers/model_upload.rs:77-79 | removing a field of any other name from the sequence leaves the result unchanged |
| UploadModel.Decide | src/handlers/model_upload.rs:83-185 | NoFile exactly when the name is empty; acceptance exactly when name, monster data, valid type, save and insert are all present or successful; an accepted upload reports the collected name, size and content type, the given id, and the storage path for that id and name |
| UploadModel.Upload | src/handlers/model_upload.rs:17-197 | the outcome of a request: the loop's rejection, or the decision on its final state; an accepted size is at most `MAX_FILE_SIZE`, so the `as i64` cast loses nothing; described by `UploadOutcome`, `UploadTooLarge`, `UploadBadMonsterData` and `AcceptedUpload` |
| UploadModel.HandleUpload | src/handlers/model_upload.rs:17-197 | the imperative handler, with its nested loops and early returns, gives exactly the outcome `Upload` specifies |
| UploadModel.LastNameIsSanitized | src/handlers/model_upload.rs:33-36 | the file name kept from the fields is a sanitized one |
| UploadModel.UploadOutcome | src/handlers/model_upload.rs:83-185 | when the loop completes, the outcome is decided from the fields in the fixed order: no usable name means NoFile, then missing monster data means NoMonsterData, then a bad type means InvalidFileType, then a failed save or insert gives a 500; otherwise the upload is accepted with that name, the total size and the storage path |
| UploadModel.UploadTotalTooLarge | src/handlers/model_upload.rs:45-55 | when all monster data parse and the file bytes in all exceed the limit, the answer is PayloadTooLarge |
| UploadModel.UploadTooLarge | src/handlers/model_upload.rs:49-53 | as soon as the `file` bytes read so far pass the limit, the answer is PayloadTooLarge, whatever fields follow |
| UploadModel.UploadBadMonsterData | src/handlers/model_upload.rs:64-74 | a failing `monster_data` field reached by the loop gives InvalidMonsterData for any later fields |
| UploadModel.AcceptedUpload | src/handlers/model_upload.rs:136-185 | an accepted upload has a non-empty name of valid type with the last `file` field's content type, the given id, a reported `file_size` equal to all file bytes received (at most `MAX_FILE_SIZE`), and path `uploads/models/<id>.<ext>` |
| UploadModel.AcceptedName | src/handlers/model_upload.rs:33-36 | the name an accepted upload is recorded under is the sanitized filename of the last `file` field that carried one, so it holds only allowed characters |
| UploadModel.AcceptedPathStaysInStorageDir | src/handlers/model_upload.rs:136-144 | with Unicode's classification of the separators and a UUID id, an accepted upload is stored directly inside `uploads/models/` |
| UploadModel.LoneExtensionStoredAsBin | src/handlers/model_upload.rs:104-139 | every name that is a dot followed by a dot-free text and passes the `.glb`/`.gltf` check (".glb", ".GLTF", ...) is valid whatever its content type, has no extension, and is stored as `<id>.bin` |

## Left out

- Matchmaking and the WebSocket session relay. `src/handlers/matching.rs` and
  `src/handlers/websocket.rs` are not part of this model. `src/handlers.rs`
  only declares the two registry map types, which carry no behaviour.
- `list_models` and everything in `src/db/models.rs`: database queries
  against a schema that is not shown, and a wall-clock timestamp. The `Monster`
  type is not part of this model either. `MonsterRecord` lists the arguments
  the handler passes to `Monster::new`, with the monster fields kept abstract
  as `Info`.
- File-system effects: `save_file`'s directory creation and write, and the
  `remove_file` after a database error. Only their success or failure enters,
  as `saveOk` and `insertOk`.
- The JSON bodies of the answers, with their error texts (such as "File size
  exceeds 50 MB limit"). A rejection is modelled by its kind, and
  `StatusCode` gives its HTTP status. The `println!` logging is left out too.
- Asynchronous streaming. The fields and chunks arrive as sequences that are
  already complete.
- Sanitize.SanitizeFilename: Rust's Unicode `char::is_alphanumeric` is not
  defined here. It is the parameter `isAlphanumeric`, and the facts about
  separators are a hypothesis (`SeparatorsNotAlphanumeric`).
- FileType.ToLowercase: folds only ASCII letters. Unicode case mapping (which
  may change a string's length) is not modelled. This does not change the
  `.glb`/`.gltf` verdicts of `IsGlbFile` and `IsGltfFile`: the only non-ASCII
  characters whose lowercase holds an ASCII letter are U+212A (to `k`) and
  U+0130 (to `i` followed by U+0307), so no other character lowercases to `.`,
  `g`, `l`, `b`, `t` or `f`.
- The MIME check compares the content type's string form as the multipart
  layer gives it. Parsing and normalising it with the `mime` crate is not
  modelled.
- StoragePath.Extension follows Unix path rules for a single component.
  Windows prefixes and `\` as a separator are not modelled; the sanitizer
  removes `\` and `:` anyway.
- UploadModel.AcceptedPathStaysInStorageDir: the UUID is an opaque string.
  Its text form is assumed (`IsToken`) to be non-empty and free of `/`, `\`
  and `.`.
- The `file_data.len() as i64` cast is not modelled as a machine integer. The
  size is at most `MAX_FILE_SIZE` (`AcceptedUpload`), so the cast loses
  nothing.

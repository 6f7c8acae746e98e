/**
  The multipart field loop of `upload_model`, as a specification: the state the
  handler builds from the fields it reads, or the rejection that ends the loop.

  The field stream is the sequence of fields read before the stream ends;
  `while let Ok(Some(..))` stops on an error exactly as on the end, so a read
  error is the end of the sequence. The same holds for each field's chunks.
  The JSON parse of `monster_data` is the parameter `parse`, yielding an `Info`
  or nothing.
*/
module UploadFields {
  import opened Wrappers
  import opened Sanitize

  newtype byte = x: int | 0 <= x < 256

  /** `MAX_FILE_SIZE`: 50 MiB. */
  const MAX_FILE_SIZE: nat := 50 * 1024 * 1024

  /** One multipart field: its name, the filename and content type of its
      headers, and the chunks of its body in arrival order. */
  datatype Field = Field(name: string, filename: Option<string>, contentType: Option<string>, chunks: seq<seq<byte>>)

  /** The handler's four locals: `file_data`, `file_name`, `content_type`, `monster_info`. */
  datatype Collected<Info> = Collected(fileData: seq<byte>, fileName: string, contentType: string, monsterInfo: Option<Info>)

  /** Why a request is refused. */
  datatype Rejection =
    | PayloadTooLarge       // 413: file data over MAX_FILE_SIZE
    | InvalidMonsterData    // 400: monster_data does not parse
    | NoFile                // 400: no (non-empty) file name
    | NoMonsterData         // 400: no monster_data field parsed
    | InvalidFileType       // 400: neither extension nor MIME type allowed
    | SaveFailed            // 500: writing the file failed
    | MetadataFailed        // 500: the database insert failed

  /** The HTTP status the handler answers a rejection with. */
  function StatusCode(e: Rejection): (status: int)
    ensures status == 413 <==> e == PayloadTooLarge
    ensures status == 500 <==> e == SaveFailed || e == MetadataFailed
    ensures status == 400 || status == 413 || status == 500
  {
    match e
    case PayloadTooLarge => 413
    case InvalidMonsterData | NoFile | NoMonsterData | InvalidFileType => 400
    case SaveFailed | MetadataFailed => 500
  }

  /** The four locals before the first field: no bytes, no name, no content
      type, no monster data. */
  function Initial<Info>(): Collected<Info> {
    Collected([], "", "", None)
  }

  /** The bytes of a field body, in order. */
  function Concat(chunks: seq<seq<byte>>): seq<byte> {
    if chunks == [] then [] else chunks[0] + Concat(chunks[1..])
  }

  /** The inner loop of a `file` field: append each chunk, and give up as soon
      as the data exceed `MAX_FILE_SIZE`. */
  function AppendChunks(data: seq<byte>, chunks: seq<seq<byte>>): (r: Option<seq<byte>>)
    ensures r.Some? ==> data <= r.value
    ensures r.Some? && |data| <= MAX_FILE_SIZE ==> |r.value| <= MAX_FILE_SIZE
    decreases |chunks|
  {
    if chunks == [] then Some(data)
    else
      var grown := data + chunks[0];
      if |grown| > MAX_FILE_SIZE then None else AppendChunks(grown, chunks[1..])
  }

  /** One iteration of the field loop. */
  function Step<Info>(parse: seq<byte> -> Option<Info>, isAlphanumeric: char -> bool,
                      st: Collected<Info>, f: Field): (r: Result<Collected<Info>, Rejection>)
    ensures r.Err? ==> r.error == PayloadTooLarge || r.error == InvalidMonsterData
    ensures r.Err? && r.error == PayloadTooLarge ==> f.name == "file"
    ensures r.Ok? ==> st.fileData <= r.value.fileData
    ensures r.Ok? && |st.fileData| <= MAX_FILE_SIZE ==> |r.value.fileData| <= MAX_FILE_SIZE
    ensures f.name != "file" && f.name != "monster_data" ==> r == Ok(st)
  {
    if f.name == "file" then
      var fileName := if f.filename.Some? then SanitizeFilename(isAlphanumeric, f.filename.value) else st.fileName;
      var contentType := f.contentType.GetOr("");
      match AppendChunks(st.fileData, f.chunks)
      case None => Err(PayloadTooLarge)
      case Some(data) => Ok(Collected(data, fileName, contentType, st.monsterInfo))
    else if f.name == "monster_data" then
      match parse(Concat(f.chunks))
      case None => Err(InvalidMonsterData)
      case Some(info) => Ok(st.(monsterInfo := Some(info)))
    else
      Ok(st)
  }

  /** The whole field loop from state `st`: the first rejection ends it. */
  function Run<Info>(parse: seq<byte> -> Option<Info>, isAlphanumeric: char -> bool,
                     st: Collected<Info>, fields: seq<Field>): (r: Result<Collected<Info>, Rejection>)
    ensures r.Err? ==> r.error == PayloadTooLarge || r.error == InvalidMonsterData
    ensures r.Err? ==> StatusCode(r.error) == 413 || StatusCode(r.error) == 400
    ensures r.Ok? ==> st.fileData <= r.value.fileData
    decreases |fields|
  {
    if fields == [] then Ok(st)
    else
      match Step(parse, isAlphanumeric, st, fields[0])
      case Err(e) => Err(e)
      case Ok(next) => Run(parse, isAlphanumeric, next, fields[1..])
  }

  // ---------------------------------------------------------------------------
  // Reference definitions: what the loop should leave behind, read off the
  // field sequence directly.

  /** All bytes of all `file` fields, in order. */
  function FileBytes(fields: seq<Field>): seq<byte> {
    if fields == [] then []
    else (if fields[0].name == "file" then Concat(fields[0].chunks) else []) + FileBytes(fields[1..])
  }

  /** Every `monster_data` field parses. */
  predicate AllMonsterDataParses<Info>(parse: seq<byte> -> Option<Info>, fields: seq<Field>) {
    forall i :: 0 <= i < |fields| && fields[i].name == "monster_data" ==> parse(Concat(fields[i].chunks)).Some?
  }

  /** The value `sel` gives the LAST field for which it gives one. */
  function Last<T>(fields: seq<Field>, sel: Field -> Option<T>): Option<T> {
    if fields == [] then None
    else sel(fields[|fields| - 1]).OrElse(Last(fields[..|fields| - 1], sel))
  }

  /** A `file` field with a filename offers its sanitized name. */
  function NameOf(isAlphanumeric: char -> bool): Field -> Option<string> {
    (f: Field) => if f.name == "file" && f.filename.Some? then Some(SanitizeFilename(isAlphanumeric, f.filename.value)) else None
  }

  /** Every `file` field offers its content type, "" when it has none. */
  function ContentTypeOf(f: Field): Option<string> {
    if f.name == "file" then Some(f.contentType.GetOr("")) else None
  }

  /** A `monster_data` field offers its parse. */
  function MonsterOf<Info>(parse: seq<byte> -> Option<Info>): Field -> Option<Info> {
    (f: Field) => if f.name == "monster_data" then parse(Concat(f.chunks)) else None
  }

  // ---------------------------------------------------------------------------
  // Lemmas

  lemma {:induction false} LastCons<T>(f: Field, rest: seq<Field>, sel: Field -> Option<T>)
    ensures Last([f] + rest, sel) == Last(rest, sel).OrElse(sel(f))
    decreases |rest|
  {
    var fs := [f] + rest;
    if rest == [] {
      assert fs[..|fs| - 1] == [];
    } else {
      assert fs[|fs| - 1] == rest[|rest| - 1];
      assert fs[..|fs| - 1] == [f] + rest[..|rest| - 1];
      LastCons(f, rest[..|rest| - 1], sel);
    }
  }

  /** Starting within the limit, the inner loop either yields the data followed by
      all the chunks, when those fit, or gives up, when they do not. */
  lemma {:induction false} AppendChunksSize(data: seq<byte>, chunks: seq<seq<byte>>)
    requires |data| <= MAX_FILE_SIZE
    ensures AppendChunks(data, chunks)
         == if |data + Concat(chunks)| > MAX_FILE_SIZE then None else Some(data + Concat(chunks))
    decreases |chunks|
  {
    if chunks != [] {
      var grown := data + chunks[0];
      assert data + Concat(chunks) == grown + Concat(chunks[1..]);
      if |grown| <= MAX_FILE_SIZE {
        AppendChunksSize(grown, chunks[1..]);
      }
    } else {
      assert data + Concat(chunks) == data;
    }
  }

  /** Running two field sequences one after the other is running their
      concatenation: a rejection in the first ends the whole loop. */
  lemma {:induction false} RunAppend<Info>(parse: seq<byte> -> Option<Info>, isAlphanumeric: char -> bool,
                                           st: Collected<Info>, a: seq<Field>, b: seq<Field>)
    ensures Run(parse, isAlphanumeric, st, a + b)
         == match Run(parse, isAlphanumeric, st, a)
            case Err(e) => Err(e)
            case Ok(mid) => Run(parse, isAlphanumeric, mid, b)
    decreases |a|
  {
    if a == [] {
      assert a + b == b;
    } else {
      assert (a + b)[0] == a[0];
      assert (a + b)[1..] == a[1..] + b;
      match Step(parse, isAlphanumeric, st, a[0])
      case Err(_) =>
      case Ok(next) =>
        RunAppend(parse, isAlphanumeric, next, a[1..], b);
    }
  }

  /** What a completed loop leaves behind: the file bytes of all `file` fields
      appended in order and within the limit, the name of the last `file` field
      that carried one, the content type of the last `file` field, and the
      monster data of the last `monster_data` field; where no field sets a
      local, it keeps its value. */
  lemma {:induction false} RunFinalState<Info>(parse: seq<byte> -> Option<Info>, isAlphanumeric: char -> bool,
                                               st: Collected<Info>, fields: seq<Field>, final: Collected<Info>)
    requires |st.fileData| <= MAX_FILE_SIZE
    requires Run(parse, isAlphanumeric, st, fields) == Ok(final)
    ensures final.fileData == st.fileData + FileBytes(fields)
    ensures |final.fileData| <= MAX_FILE_SIZE
    ensures final.fileName == Last(fields, NameOf(isAlphanumeric)).GetOr(st.fileName)
    ensures final.contentType == Last(fields, ContentTypeOf).GetOr(st.contentType)
    ensures final.monsterInfo == Last(fields, MonsterOf(parse)).OrElse(st.monsterInfo)
    decreases |fields|
  {
    if fields != [] {
      var f := fields[0];
      assert fields == [f] + fields[1..];
      LastCons(f, fields[1..], NameOf(isAlphanumeric));
      LastCons(f, fields[1..], ContentTypeOf);
      LastCons(f, fields[1..], MonsterOf(parse));
      StepState(parse, isAlphanumeric, st, f);
      var next := Step(parse, isAlphanumeric, st, f).value;
      FileBytesCons(st.fileData, fields);
      RunFinalState(parse, isAlphanumeric, next, fields[1..], final);
    }
  }

  /** Appending the file bytes of a sequence is appending those of its first
      field, then those of the rest. */
  lemma FileBytesCons(data: seq<byte>, fields: seq<Field>)
    requires fields != []
    ensures data + FileBytes(fields)
         == (data + (if fields[0].name == "file" then Concat(fields[0].chunks) else [])) + FileBytes(fields[1..])
  {
    var own := if fields[0].name == "file" then Concat(fields[0].chunks) else [];
    var rest := FileBytes(fields[1..]);
    assert FileBytes(fields) == own + rest;
    AppendAssoc(data, own, rest);
  }

  lemma AppendAssoc<T>(a: seq<T>, b: seq<T>, c: seq<T>)
    ensures a + (b + c) == (a + b) + c
  {
    assert forall k :: 0 <= k < |a| + |b| + |c| ==> (a + (b + c))[k] == ((a + b) + c)[k];
  }

  /** What one successful iteration leaves behind: the field's bytes appended
      when it is a `file` field, and each local set from the field that offers
      a value for it. */
  lemma StepState<Info>(parse: seq<byte> -> Option<Info>, isAlphanumeric: char -> bool,
                        st: Collected<Info>, f: Field)
    requires |st.fileData| <= MAX_FILE_SIZE
    requires Step(parse, isAlphanumeric, st, f).Ok?
    ensures var next := Step(parse, isAlphanumeric, st, f).value;
            && next.fileData == st.fileData + (if f.name == "file" then Concat(f.chunks) else [])
            && next.fileName == NameOf(isAlphanumeric)(f).GetOr(st.fileName)
            && next.contentType == ContentTypeOf(f).GetOr(st.contentType)
            && next.monsterInfo == MonsterOf(parse)(f).OrElse(st.monsterInfo)
  {
    if f.name == "file" {
      AppendChunksSize(st.fileData, f.chunks);
    } else {
      assert st.fileData + [] == st.fileData;
    }
  }

  /** When every `monster_data` field parses, the loop fails exactly when the file
      bytes exceed the limit, and then with `PayloadTooLarge`: a file of exactly
      `MAX_FILE_SIZE` bytes passes. */
  lemma {:induction false} RunSizeLimit<Info>(parse: seq<byte> -> Option<Info>, isAlphanumeric: char -> bool,
                                              st: Collected<Info>, fields: seq<Field>)
    requires |st.fileData| <= MAX_FILE_SIZE
    requires AllMonsterDataParses(parse, fields)
    ensures Run(parse, isAlphanumeric, st, fields).Ok? <==> |st.fileData + FileBytes(fields)| <= MAX_FILE_SIZE
    ensures Run(parse, isAlphanumeric, st, fields).Err? ==> Run(parse, isAlphanumeric, st, fields).error == PayloadTooLarge
    decreases |fields|
  {
    if fields != [] {
      var f := fields[0];
      assert AllMonsterDataParses(parse, fields[1..]) by {
        forall i | 0 <= i < |fields[1..]| && fields[1..][i].name == "monster_data"
          ensures parse(Concat(fields[1..][i].chunks)).Some?
        {
          assert fields[1..][i] == fields[i + 1];
        }
      }
      var own := if f.name == "file" then Concat(f.chunks) else [];
      assert FileBytes(fields) == own + FileBytes(fields[1..]);
      assert st.fileData + FileBytes(fields) == (st.fileData + own) + FileBytes(fields[1..]);
      if f.name == "file" {
        AppendChunksSize(st.fileData, f.chunks);
      }
      match Step(parse, isAlphanumeric, st, f)
      case Err(_) =>
      case Ok(next) =>
        RunSizeLimit(parse, isAlphanumeric, next, fields[1..]);
    }
  }

  /** A `monster_data` field that does not parse ends the loop with
      `InvalidMonsterData`, whatever fields follow it. */
  lemma {:induction false} BadMonsterDataStopsRun<Info>(parse: seq<byte> -> Option<Info>, isAlphanumeric: char -> bool,
                                                        st: Collected<Info>, before: seq<Field>, bad: Field, after: seq<Field>)
    requires Run(parse, isAlphanumeric, st, before).Ok?
    requires bad.name == "monster_data" && parse(Concat(bad.chunks)).None?
    ensures Run(parse, isAlphanumeric, st, before + [bad] + after) == Err(InvalidMonsterData)
    decreases |before|
  {
    var fs := before + [bad] + after;
    if before == [] {
      assert fs[0] == bad && fs[1..] == after;
    } else {
      assert fs[0] == before[0];
      assert fs[1..] == before[1..] + [bad] + after;
      var next := Step(parse, isAlphanumeric, st, before[0]).value;
      BadMonsterDataStopsRun(parse, isAlphanumeric, next, before[1..], bad, after);
    }
  }

  /** A field of any other name changes nothing: dropping it leaves the result as it was. */
  lemma {:induction false} UnknownFieldIgnored<Info>(parse: seq<byte> -> Option<Info>, isAlphanumeric: char -> bool,
                                                     st: Collected<Info>, before: seq<Field>, unknown: Field, after: seq<Field>)
    requires unknown.name != "file" && unknown.name != "monster_data"
    ensures Run(parse, isAlphanumeric, st, before + [unknown] + after) == Run(parse, isAlphanumeric, st, before + after)
    decreases |before|
  {
    var fs := before + [unknown] + after;
    if before == [] {
      assert fs[0] == unknown && fs[1..] == after;
      assert before + after == after;
    } else {
      assert fs[0] == before[0];
      assert fs[1..] == before[1..] + [unknown] + after;
      assert (before + after)[0] == before[0];
      assert (before + after)[1..] == before[1..] + after;
      match Step(parse, isAlphanumeric, st, before[0])
      case Err(_) =>
      case Ok(next) =>
        UnknownFieldIgnored(parse, isAlphanumeric, next, before[1..], unknown, after);
    }
  }

  /** The early exit of the chunk loop: once the bytes of the `file` fields read
      so far pass the limit, the loop ends with `PayloadTooLarge`, whatever
      fields follow (a `monster_data` field that does not parse among them). */
  lemma OversizeFileStopsRun<Info>(parse: seq<byte> -> Option<Info>, isAlphanumeric: char -> bool,
                                   st: Collected<Info>, before: seq<Field>, f: Field, after: seq<Field>)
    requires |st.fileData| <= MAX_FILE_SIZE
    requires Run(parse, isAlphanumeric, st, before).Ok?
    requires f.name == "file"
    requires |st.fileData + FileBytes(before) + Concat(f.chunks)| > MAX_FILE_SIZE
    ensures Run(parse, isAlphanumeric, st, before + [f] + after) == Err(PayloadTooLarge)
  {
    var mid := Run(parse, isAlphanumeric, st, before).value;
    RunFinalState(parse, isAlphanumeric, st, before, mid);
    AppendChunksSize(mid.fileData, f.chunks);
    assert before + [f] + after == before + ([f] + after);
    RunAppend(parse, isAlphanumeric, st, before, [f] + after);
    assert ([f] + after)[0] == f;
  }
}

/** The `POST /upload` route of both entry files: `upload.single('file')`
    skips a part with an empty file name, runs the file filter on any other
    file part and, if it accepts, streams the part to disk under the
    generated name, aborting once the part exceeds the 5 MiB limit; the
    handler then answers 400 when no file reached it and 200 otherwise. A
    filter rejection and an oversize part are errors handed to the
    framework's error handling, so the handler never runs for them. */
module UploadRoute {
  import opened Options
  import opened NodePath
  import opened UploadPolicy
  import opened StorageName

  /** A file part in the field `file` that reaches multer: the file name as
      busboy hands it over, and its length in bytes. */
  datatype FilePart = FilePart(originalname: string, size: nat)

  /** The one field `upload.single('file')` accepts a file from, and so the
      field name every stored name starts with. */
  const FileField: string := "file"

  /** How one upload ends. */
  datatype UploadOutcome =
    | Stored(filename: string, status: int, body: string)   // written, handler answers
    | NoFile(status: int, body: string)                     // handler's `!req.file` branch
    | Forwarded(error: string)                              // error passed to `next`

  const Ok: int := 200
  const BadRequest: int := 400

  /** The message of the error multer raises (code `LIMIT_FILE_SIZE`) when a
      part exceeds `limits.fileSize`. */
  const FileTooLarge: string := "File too large"

  const ServerNoFileBody: string := "No se subió ningún archivo o tipo no permitido."
  const ServerSuccessPrefix: string := "Archivo subido con éxito: "
  const AppNoFileBody: string := "No se subió ningún archivo o el tipo de archivo no está permitido."
  const AppSuccessBody: string := "Archivo subido con éxito."

  /** multer's `limits.fileSize` in both entry files: 5 MiB. */
  const MaxFileSize: nat := 5 * 1024 * 1024

  /** multer skips a part whose file name is empty (busboy also reduces the
      client names `.` and `..` to the empty name): the filter never sees it
      and no file reaches the handler. This is what an empty file input of a
      browser form sends. */
  predicate Nameless(part: FilePart)
  {
    part.originalname == ""
  }

  /** What multer makes of a part once the filter has accepted it: past
      `MaxFileSize` bytes the write is aborted with its own error. */
  predicate WithinLimit(part: FilePart)
  {
    part.size <= MaxFileSize
  }

  /** server.js's route: filter with the lower-cased list, enforce the size
      limit, name the file, and report the stored name. */
  function ServerUpload(setting: Option<string>, part: Option<FilePart>,
                        timestamp: nat, random: RandomSuffix): (out: UploadOutcome)
    ensures out.NoFile? ==> out.status == BadRequest
    ensures out.Stored? ==> out.status == Ok && out.body == ServerSuccessPrefix + out.filename
  {
    match part
    case None => NoFile(BadRequest, ServerNoFileBody)
    case Some(p) =>
      if Nameless(p) then NoFile(BadRequest, ServerNoFileBody)
      else match ServerFileFilter(setting, p.originalname)
      case Reject(e) => Forwarded(e)
      case Accept =>
        if !WithinLimit(p) then Forwarded(FileTooLarge)
        else
          var name := StoredName(FileField, timestamp, random, p.originalname);
          Stored(name, Ok, ServerSuccessPrefix + name)
  }

  /** app.js's route: filter with the raw list, enforce the size limit, name
      the file, and answer with a fixed message. */
  function AppUpload(setting: Option<string>, part: Option<FilePart>,
                     timestamp: nat, random: RandomSuffix): (out: UploadOutcome)
    ensures out.NoFile? ==> out.status == BadRequest
    ensures out.Stored? ==> out.status == Ok && out.body == AppSuccessBody
  {
    match part
    case None => NoFile(BadRequest, AppNoFileBody)
    case Some(p) =>
      if Nameless(p) then NoFile(BadRequest, AppNoFileBody)
      else match AppFileFilter(setting, p.originalname)
      case Reject(e) => Forwarded(e)
      case Accept =>
        if !WithinLimit(p) then Forwarded(FileTooLarge)
        else Stored(StoredName(FileField, timestamp, random, p.originalname), Ok, AppSuccessBody)
  }

  /** server.js: the handler answers 400 exactly when no file part arrived
      or the part had an empty file name; any other part is stored exactly
      when the filter accepts it and it is within the size limit, under a
      name that reads back as the timestamp, the random number and the
      original extension; a rejected part forwards the filter's error and an
      accepted oversize part multer's size error. */
  lemma ServerUploadOutcome(setting: Option<string>, part: Option<FilePart>,
                            timestamp: nat, random: RandomSuffix)
    ensures part.Some? && ServerUpload(setting, part, timestamp, random).Stored? ==>
      ParseStoredName(FileField, ServerUpload(setting, part, timestamp, random).filename)
        == Some(NameParts(timestamp, random, Extname(part.value.originalname)))
    ensures ServerUpload(setting, part, timestamp, random).NoFile?
      <==> part.None? || Nameless(part.value)
    ensures ServerUpload(setting, part, timestamp, random).Stored?
      <==> part.Some? && !Nameless(part.value)
           && ServerFileFilter(setting, part.value.originalname).Accept?
           && WithinLimit(part.value)
    ensures part.Some? && !Nameless(part.value)
            && ServerFileFilter(setting, part.value.originalname).Reject?
      ==> ServerUpload(setting, part, timestamp, random) == Forwarded(RejectMessage)
    ensures part.Some? && !Nameless(part.value)
            && ServerFileFilter(setting, part.value.originalname).Accept?
            && !WithinLimit(part.value)
      ==> ServerUpload(setting, part, timestamp, random) == Forwarded(FileTooLarge)
  {
    if part.Some? {
      var p := part.value;
      var out := ServerUpload(setting, part, timestamp, random);
      if Nameless(p) {
        assert out.NoFile?;
      } else if ServerFileFilter(setting, p.originalname).Reject? {
        assert out == Forwarded(RejectMessage);
      } else if !WithinLimit(p) {
        assert out == Forwarded(FileTooLarge);
      } else {
        assert out == Stored(out.filename, out.status, out.body);
        assert out.filename == StoredName(FileField, timestamp, random, p.originalname);
        ParseStoredNameRoundTrip(FileField, timestamp, random, p.originalname);
      }
    }
  }

  /** app.js: the same outcomes, with the raw allow-list and a fixed success
      message that does not name the stored file. */
  lemma AppUploadOutcome(setting: Option<string>, part: Option<FilePart>,
                         timestamp: nat, random: RandomSuffix)
    ensures part.Some? && AppUpload(setting, part, timestamp, random).Stored? ==>
      ParseStoredName(FileField, AppUpload(setting, part, timestamp, random).filename)
        == Some(NameParts(timestamp, random, Extname(part.value.originalname)))
    ensures AppUpload(setting, part, timestamp, random).NoFile?
      <==> part.None? || Nameless(part.value)
    ensures AppUpload(setting, part, timestamp, random).Stored?
      <==> part.Some? && !Nameless(part.value)
           && AppFileFilter(setting, part.value.originalname).Accept?
           && WithinLimit(part.value)
    ensures part.Some? && !Nameless(part.value)
            && AppFileFilter(setting, part.value.originalname).Reject?
      ==> AppUpload(setting, part, timestamp, random) == Forwarded(RejectMessage)
    ensures part.Some? && !Nameless(part.value)
            && AppFileFilter(setting, part.value.originalname).Accept?
            && !WithinLimit(part.value)
      ==> AppUpload(setting, part, timestamp, random) == Forwarded(FileTooLarge)
  {
    if part.Some? {
      var p := part.value;
      var out := AppUpload(setting, part, timestamp, random);
      if Nameless(p) {
        assert out.NoFile?;
      } else if AppFileFilter(setting, p.originalname).Reject? {
        assert out == Forwarded(RejectMessage);
      } else if !WithinLimit(p) {
        assert out == Forwarded(FileTooLarge);
      } else {
        assert out == Stored(out.filename, out.status, out.body);
        assert out.filename == StoredName(FileField, timestamp, random, p.originalname);
        ParseStoredNameRoundTrip(FileField, timestamp, random, p.originalname);
      }
    }
  }

  /** Uploading the same file twice in the same field, with different clock
      or random values, stores two differently named files. */
  lemma RepeatedUploadsStoreApart(setting: Option<string>, part: FilePart,
                                  t1: nat, r1: RandomSuffix, t2: nat, r2: RandomSuffix)
    requires (t1, r1) != (t2, r2)
    requires ServerUpload(setting, Some(part), t1, r1).Stored?
    ensures ServerUpload(setting, Some(part), t2, r2).Stored?
    ensures ServerUpload(setting, Some(part), t1, r1).filename
      != ServerUpload(setting, Some(part), t2, r2).filename
  {
    StoredNameEqualIff(FileField, t1, r1, part.originalname, t2, r2, part.originalname);
  }
}

/** The GET handler bound to `/download`: resolve the type, look the file up
    in the files directory, then send it as an attachment. */
module Download {
  import opened Wrappers
  import opened CaseFold
  import opened FileTypes
  import opened Streams

  /** The `/files/` directory: file name to stored bytes. */
  type FilesDir = map<string, seq<byte>>

  /** What the handler sends: a 400 or a 404 with no headers of its own and
      no body, or a download with its three headers and its body. */
  datatype Response =
    | BadRequest
    | NotFound
    | Ok(contentType: string, disposition: string, contentLength: nat, body: seq<byte>)

  const DispositionPrefix: string := "attachment; filename=\""

  /** The Content-Disposition value: an attachment whose quoted file name is
      `fileName`. */
  function Disposition(fileName: string): string {
    DispositionPrefix + fileName + "\""
  }

  /** What a client reads back from a Content-Disposition value of this
      shape: the text between the opening and the closing quote. */
  function ParseDisposition(h: string): Option<string> {
    if |h| > |DispositionPrefix| && h[..|DispositionPrefix|] == DispositionPrefix && h[|h| - 1] == '"'
    then Some(h[|DispositionPrefix|..|h| - 1])
    else None
  }

  /** The header carries the file name and this parser recovers it
      unchanged; and a header that parses is the one built from what it
      yields. (A quoted-string parser agrees with this one on names without
      a quote or a backslash, which the two fixed names are.) */
  lemma DispositionRoundTrip(fileName: string, h: string)
    ensures ParseDisposition(Disposition(fileName)) == Some(fileName)
    ensures ParseDisposition(h) == Some(fileName) ==> Disposition(fileName) == h
  {
  }

  /** The response the handler determines, in its order of checks: the type
      first, then the file's presence, then the headers from the resolved
      entry and the stored bytes as the body. */
  function Handle(t: Option<string>, files: FilesDir): Response {
    match Resolve(t)
    case None => BadRequest
    case Some(e) =>
      if e.fileName !in files then NotFound
      else Ok(e.mimeType, Disposition(e.fileName), |files[e.fileName]|, files[e.fileName])
  }

  /** `doGet`, with the byte transfer carried out by the copy loop. */
  method DoGet(t: Option<string>, files: FilesDir, maxRead: nat) returns (r: Response)
    requires maxRead > 0
    ensures r == Handle(t, files)
  {
    var entry := Resolve(t);
    if entry.None? {
      return BadRequest;
    }
    var fileName, mimeType := entry.value.fileName, entry.value.mimeType;
    if fileName !in files {
      return NotFound;
    }
    var contents := files[fileName];
    var contentType := mimeType;
    var disposition := Disposition(fileName);
    var contentLength := |contents|;
    var writes := Transfer(contents, maxRead);
    r := Ok(contentType, disposition, contentLength, Concat(writes));
  }

  /** 400 exactly for an absent parameter or a token that is neither `pdf`
      nor `excel` in any casing, whatever the directory holds. */
  lemma BadRequestIff(t: Option<string>, files: FilesDir)
    ensures Handle(t, files) == BadRequest <==>
      t.None? || (LowerAscii(t.value) != PdfToken && LowerAscii(t.value) != ExcelToken)
  {
    ResolveRejectsIff(t);
  }

  /** Corollary of `BadRequestIff`: a rejected type is decided before the
      directory is consulted, so the answer is the same for every directory. */
  lemma BadRequestIgnoresFiles(t: Option<string>, files1: FilesDir, files2: FilesDir)
    requires Handle(t, files1) == BadRequest
    ensures Handle(t, files2) == BadRequest
  {
    BadRequestIff(t, files1);
    BadRequestIff(t, files2);
  }

  /** 404 exactly when the type is valid and its fixed file is missing. */
  lemma NotFoundIff(t: Option<string>, files: FilesDir)
    ensures Handle(t, files) == NotFound <==>
      Resolve(t).Some? && Resolve(t).value.fileName !in files
  {
  }

  /** A successful response: the MIME type and file name of the resolved
      entry, one of the two fixed files, the stored length, the stored bytes. */
  lemma OkHeaders(t: Option<string>, files: FilesDir)
    requires Handle(t, files).Ok?
    ensures Resolve(t).Some?
    ensures var e := Resolve(t).value;
      var r := Handle(t, files);
      e.fileName in FileNames && e.fileName in files &&
      '"' !in e.fileName && '\\' !in e.fileName &&
      r.contentType == e.mimeType &&
      r.disposition == Disposition(e.fileName) &&
      ParseDisposition(r.disposition) == Some(e.fileName) &&
      r.contentLength == |files[e.fileName]| == |r.body| &&
      r.body == files[e.fileName]
  {
  }

  /** Only the resolved file's entry in the directory matters. */
  lemma OnlyResolvedFileConsulted(t: Option<string>, files1: FilesDir, files2: FilesDir)
    requires Resolve(t).Some?
    requires var n := Resolve(t).value.fileName;
      (n in files1 <==> n in files2) && (n in files1 ==> files1[n] == files2[n])
    ensures Handle(t, files1) == Handle(t, files2)
  {
  }

  /** Any casing of `pdf` with the PDF present downloads it. */
  lemma PdfDownload(t: string, files: FilesDir)
    requires LowerAscii(t) == PdfToken
    requires "ejemplo.pdf" in files
    ensures Handle(Some(t), files) ==
      Ok("application/pdf", "attachment; filename=\"ejemplo.pdf\"",
         |files["ejemplo.pdf"]|, files["ejemplo.pdf"])
  {
    ResolvePdfIff(t);
  }

  /** Any casing of `excel` with the spreadsheet present downloads it. */
  lemma ExcelDownload(t: string, files: FilesDir)
    requires LowerAscii(t) == ExcelToken
    requires "ejemplo.xlsx" in files
    ensures Handle(Some(t), files) ==
      Ok("application/vnd.openxmlformats-officedocument.spreadsheetml.sheet",
         "attachment; filename=\"ejemplo.xlsx\"",
         |files["ejemplo.xlsx"]|, files["ejemplo.xlsx"])
  {
    ResolveExcelIff(t);
  }

  /** Any casing of `excel` with the spreadsheet missing gives 404. */
  lemma ExcelMissing(t: string, files: FilesDir)
    requires LowerAscii(t) == ExcelToken
    requires "ejemplo.xlsx" !in files
    ensures Handle(Some(t), files) == NotFound
  {
    ResolveExcelIff(t);
  }
}

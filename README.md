# BotonesPDF-Excel download handler, in Dafny

A model of the one servlet in the repository, `TareaBotones`, bound to
`/download`. Its `doGet` reads the `type` query parameter, matches it
case-insensitively against `pdf` and `excel`, answers 400 for anything else,
looks the chosen fixed file up in the `/files/` directory, answers 404 when it
is missing, and otherwise sets the Content-Type, Content-Disposition and
Content-Length headers and copies the bytes through a 4096-byte buffer.

The model has five modules:

- `Wrappers`: `Option`, standing for the nullable request parameter.
- `CaseFold`: `String.equalsIgnoreCase` with Java's per-character rule
  (equal, or equal upper-cased, or equal upper-cased then lower-cased),
  folding ASCII letters only. `LowerAscii` is a second, independent way to
  compare up to case. A lemma proves the two agree.
- `FileTypes`: the two-entry table and `Resolve`, the if-chain of lines 30-40.
- `Streams`: the file input stream (`FileInput`, a byte sequence with a read
  cursor). It also has the response output stream (`ResponseOutput`, which
  records the chunk of each write call) and `Transfer`, the copy loop over an
  `array<byte>` of length 4096.
- `Download`: the `Response` datatype (`BadRequest | NotFound | Ok(...)`) and
  `Handle`, the response the handler determines. `DoGet` is the handler as
  written: it makes the same checks and runs the copy loop for the body, and
  it is proved to return `Handle`'s answer.

The servlet container's inputs become parameters. The parameter is an
`Option<string>` and the files directory is a `map<string, seq<byte>>`.
`maxRead` is the most the underlying file stream delivers per `read` call.
The proof uses only `Read`'s contract, which allows any read of between 1 and
`min(buffer length, remaining)` bytes. So the copy loop is proved correct for
every pattern of short reads, and `maxRead` only makes the model executable.

Java's folding uses Unicode tables. The model folds ASCII only. This gives
the same answers for these two tokens because no non-ASCII character
upper-cases or lower-cases to one of the letters of `pdf` or `excel`.

## Model

| member | source | states |
|---|---|---|
| `CaseFold.EqualsIgnoreCaseIffLower` | src/main/java/org/test/tareabotones/TareaBotones.java:30-33 | Java's per-character case-insensitive match holds exactly when the ASCII lower-cased strings are equal (both directions) |
| `FileTypes.Resolve` | src/main/java/org/test/tareabotones/TareaBotones.java:25-40 | the resolved entry is always the PDF or the Excel row, so its file name is one of the two fixed names; an absent parameter resolves to nothing |
| `FileTypes.ResolvePdfIff` | src/main/java/org/test/tareabotones/TareaBotones.java:30-32 | a token selects (`ejemplo.pdf`, `application/pdf`) if and only if it is a letter-casing of `pdf` |
| `FileTypes.ResolveExcelIff` | src/main/java/org/test/tareabotones/TareaBotones.java:33-35 | a token selects (`ejemplo.xlsx`, the spreadsheetml MIME type) if and only if it is a letter-casing of `excel` |
| `FileTypes.ResolveRejectsIff` | src/main/java/org/test/tareabotones/TareaBotones.java:30-40 | resolution fails if and only if the parameter is absent or is a casing of neither token |
| `FileTypes.ResolveCaseInsensitive` | src/main/java/org/test/tareabotones/TareaBotones.java:30-35 | two tokens that differ only in letter case resolve alike |
| `FileTypes.ResolveExamples` | src/main/java/org/test/tareabotones/TareaBotones.java:30-40 | `PDF`, `Excel` and `ExCeL` are accepted; the empty string, `doc`, `PDFX`, `word` and an absent parameter are rejected |
| `Streams.FileInput.constructor` | src/main/java/org/test/tareabotones/TareaBotones.java:61 | a newly opened file stream reads from the start of the file's bytes |
| `Streams.FileInput.Read` | src/main/java/org/test/tareabotones/TareaBotones.java:68 | returns 0 for an empty buffer and -1 at end of file. Otherwise it returns between 1 and `min(buffer length, remaining)`, and those next bytes of the file are at the front of the buffer. The cursor advances by that count and the rest of the buffer is unchanged |
| `Streams.ResponseOutput.constructor` | src/main/java/org/test/tareabotones/TareaBotones.java:62 | the response body starts empty |
| `Streams.ResponseOutput.Write` | src/main/java/org/test/tareabotones/TareaBotones.java:69 | appends exactly `b[off..off+len]` to the bytes written |
| `Streams.ConcatAppend` | src/main/java/org/test/tareabotones/TareaBotones.java:68-70 | the bytes written after one more write are the earlier bytes followed by that write's chunk |
| `Streams.Transfer` | src/main/java/org/test/tareabotones/TareaBotones.java:64-70 | the loop terminates. Every write copies between 1 and 4096 bytes, and the writes concatenated are the file's bytes in order |
| `Download.DispositionRoundTrip` | src/main/java/org/test/tareabotones/TareaBotones.java:55 | the model's parser reads the file name back out of the Content-Disposition value unchanged. A value that parses to a name is exactly `attachment; filename="` + name + `"` |
| `Download.DoGet` | src/main/java/org/test/tareabotones/TareaBotones.java:22-72 | the handler, including its copy loop, returns exactly the response `Handle` determines for every parameter, directory and read size |
| `Download.BadRequestIff` | src/main/java/org/test/tareabotones/TareaBotones.java:36-40 | the response is 400 if and only if the parameter is absent or a casing of neither token, whatever the directory holds; `BadRequest` carries no headers and no body |
| `Download.BadRequestIgnoresFiles` | src/main/java/org/test/tareabotones/TareaBotones.java:36-47 | corollary of `BadRequestIff`: a rejected type is rejected for every directory, so no file lookup affects it |
| `Download.NotFoundIff` | src/main/java/org/test/tareabotones/TareaBotones.java:47-50 | the response is 404, with no headers and no body, if and only if the type is valid and its fixed file is not in the directory |
| `Download.OkHeaders` | src/main/java/org/test/tareabotones/TareaBotones.java:53-56 | on success: the content type is the resolved MIME type, and Content-Disposition is exactly `attachment; filename="` + the resolved fixed name + `"`. That name has no quote or backslash, so the parser recovers it. Content-Length is the stored file's byte length, and the body is its bytes |
| `Download.OnlyResolvedFileConsulted` | src/main/java/org/test/tareabotones/TareaBotones.java:44-47 | the response depends on the directory only through the entry for the resolved file name |
| `Download.PdfDownload` | src/main/java/org/test/tareabotones/TareaBotones.java:30-56 | any casing of `pdf` with `ejemplo.pdf` present gives `application/pdf`, `attachment; filename="ejemplo.pdf"`, the file's length and its bytes |
| `Download.ExcelDownload` | src/main/java/org/test/tareabotones/TareaBotones.java:33-56 | any casing of `excel` with `ejemplo.xlsx` present gives the spreadsheetml MIME type, `attachment; filename="ejemplo.xlsx"`, the file's length and its bytes |
| `Download.ExcelMissing` | src/main/java/org/test/tareabotones/TareaBotones.java:33-50 | any casing of `excel` with `ejemplo.xlsx` absent gives 404 |

## Left out

- The servlet API (`HttpServlet`, `@WebServlet`, `getParameter`, `sendError`, `getServletContext().getRealPath`): container plumbing. It is replaced by the parameters and the `Response` datatype.
- The error-message texts passed to `sendError`: they carry no behaviour.
- The real filesystem: `File.exists` and `File.length` become map membership and sequence length. The model does not capture a directory that has a file's name, or a file that changes between the length check and the copy.
- The `BufferedInputStream` and `BufferedOutputStream` layers and flushing: the model streams deliver and receive the bytes these layers pass on, in the same order.
- `IOException` during the transfer, and the closing of both streams by try-with-resources: resource release and I/O failure cannot be observed in this model, so no aborted transfer is modelled.
- Concurrency between requests: the handler shares no mutable state.
- Integer widths: Content-Length (`long`) and `bytesRead` (`int`) are unbounded naturals. No file can overflow them, and `bytesRead` never exceeds 4096.
- `Streams.ResponseOutput.Write` requires `off + len <= b.Length`, where Java throws `IndexOutOfBoundsException`. The handler only calls it with `0` and a count returned by `read`, so that check never fails.
- CaseFold.EqualsIgnoreCaseIffLower: folds ASCII letters only, where Java uses Unicode case mapping; on other strings the two differ (Java matches `is` with `ıſ`). For `pdf` and `excel` they agree, because no non-ASCII character upper-cases or lower-cases onto p, d, f, e, x, c or l.

/** The fixed table that maps the request's `type` token to the stored file
    and the MIME type it is served with. */
module FileTypes {
  import opened Wrappers
  import opened CaseFold

  /** One row of the table: the stored file name and its MIME type. */
  datatype Entry = Entry(fileName: string, mimeType: string)

  const PdfToken: string := "pdf"
  const ExcelToken: string := "excel"

  const Pdf: Entry := Entry("ejemplo.pdf", "application/pdf")
  const Excel: Entry :=
    Entry("ejemplo.xlsx", "application/vnd.openxmlformats-officedocument.spreadsheetml.sheet")

  /** The two file names the handler can ever serve. */
  const FileNames: set<string> := {Pdf.fileName, Excel.fileName}

  /** The if-chain of the handler: `pdf` first, then `excel`, otherwise the
      request is rejected. An absent parameter never matches, as
      `"pdf".equalsIgnoreCase(null)` is false. */
  function Resolve(t: Option<string>): (r: Option<Entry>)
    ensures r.Some? ==> r.value == Pdf || r.value == Excel
    ensures r.Some? ==> r.value.fileName in FileNames
    ensures t.None? ==> r.None?
  {
    if t.Some? && EqualsIgnoreCase(PdfToken, t.value) then Some(Pdf)
    else if t.Some? && EqualsIgnoreCase(ExcelToken, t.value) then Some(Excel)
    else None
  }

  lemma LowerTokens()
    ensures LowerAscii(PdfToken) == PdfToken
    ensures LowerAscii(ExcelToken) == ExcelToken
  {
  }

  /** Every letter-casing of `pdf`, and nothing else, selects the PDF entry. */
  lemma ResolvePdfIff(t: string)
    ensures Resolve(Some(t)) == Some(Pdf) <==> LowerAscii(t) == PdfToken
  {
    LowerTokens();
    EqualsIgnoreCaseIffLower(PdfToken, t);
    EqualsIgnoreCaseIffLower(ExcelToken, t);
  }

  /** Every letter-casing of `excel`, and nothing else, selects the Excel entry. */
  lemma ResolveExcelIff(t: string)
    ensures Resolve(Some(t)) == Some(Excel) <==> LowerAscii(t) == ExcelToken
  {
    LowerTokens();
    EqualsIgnoreCaseIffLower(PdfToken, t);
    EqualsIgnoreCaseIffLower(ExcelToken, t);
  }

  /** The accepted tokens are exactly the two table keys up to case; an
      absent parameter is rejected. */
  lemma ResolveRejectsIff(t: Option<string>)
    ensures Resolve(t) == None <==>
      t.None? || (LowerAscii(t.value) != PdfToken && LowerAscii(t.value) != ExcelToken)
  {
    if t.Some? {
      ResolvePdfIff(t.value);
      ResolveExcelIff(t.value);
    }
  }

  /** Resolution looks at the token only up to letter case. */
  lemma ResolveCaseInsensitive(a: string, b: string)
    requires LowerAscii(a) == LowerAscii(b)
    ensures Resolve(Some(a)) == Resolve(Some(b))
  {
    EqualsIgnoreCaseIffLower(PdfToken, a);
    EqualsIgnoreCaseIffLower(PdfToken, b);
    EqualsIgnoreCaseIffLower(ExcelToken, a);
    EqualsIgnoreCaseIffLower(ExcelToken, b);
  }

  /** The concrete tokens listed for the handler: mixed-case spellings are
      accepted, near misses are not. */
  lemma ResolveExamples()
    ensures Resolve(Some("PDF")) == Some(Pdf)
    ensures Resolve(Some("Excel")) == Some(Excel)
    ensures Resolve(Some("ExCeL")) == Some(Excel)
    ensures Resolve(Some("")) == None
    ensures Resolve(Some("doc")) == None
    ensures Resolve(Some("PDFX")) == None
    ensures Resolve(Some("word")) == None
    ensures Resolve(None) == None
  {
    assert CharEqualsIgnoreCase('p', 'P') && CharEqualsIgnoreCase('d', 'D') && CharEqualsIgnoreCase('f', 'F');
    assert CharEqualsIgnoreCase('x', 'x') && CharEqualsIgnoreCase('c', 'C') && CharEqualsIgnoreCase('e', 'e');
    assert !CharEqualsIgnoreCase(PdfToken[0], "doc"[0]);
  }
}

/**
 * `PDFService`: the checks an uploaded file must pass, the name it is stored
 * under, and how the OCR reply's pages are joined into one markdown text.
 */
module PdfService {
  import opened Wrappers
  import opened Strings

  const MaxFileSizeMb: nat := 10
  const MaxFileSizeBytes: nat := MaxFileSizeMb * 1024 * 1024
  const PdfContentType := "application/pdf"
  const UploadDir := "/tmp/arco_uploads"

  /**
   * What the service reads of an `UploadFile`: its declared content type,
   * its filename (either may be missing) and its size in bytes, which the
   * service measures by seeking to the end of the stream.
   */
  datatype Upload = Upload(contentType: Option<string>, filename: Option<string>, size: nat)

  /** The reasons `validate_pdf` rejects a file, one per check. */
  datatype Rejection = WrongType(got: Option<string>) | MissingFilename | NotPdfExtension | TooLarge(size: nat) | Empty

  /** `not file.filename`: missing or empty. */
  predicate HasFilename(u: Upload) {
    u.filename.Some? && u.filename.value != ""
  }

  /** The checks, in the order the service runs them; the first failing one decides. */
  function Rejected(u: Upload): (r: Option<Rejection>)
    ensures r.None? <==>
              && u.contentType == Some(PdfContentType)
              && HasFilename(u)
              && EndsWith(LowerAscii(u.filename.value), ".pdf")
              && 0 < u.size <= MaxFileSizeBytes
    ensures r == Some(WrongType(u.contentType)) <==> u.contentType != Some(PdfContentType)
    ensures r == Some(MissingFilename) <==> u.contentType == Some(PdfContentType) && !HasFilename(u)
    ensures r == Some(NotPdfExtension) <==>
              u.contentType == Some(PdfContentType) && HasFilename(u) && !EndsWith(LowerAscii(u.filename.value), ".pdf")
    ensures r == Some(TooLarge(u.size)) <==>
              && u.contentType == Some(PdfContentType) && HasFilename(u) && EndsWith(LowerAscii(u.filename.value), ".pdf")
              && u.size > MaxFileSizeBytes
    ensures r == Some(Empty) <==>
              && u.contentType == Some(PdfContentType) && HasFilename(u) && EndsWith(LowerAscii(u.filename.value), ".pdf")
              && u.size == 0
  {
    if u.contentType != Some(PdfContentType) then Some(WrongType(u.contentType))
    else if !HasFilename(u) then Some(MissingFilename)
    else if !EndsWith(LowerAscii(u.filename.value), ".pdf") then Some(NotPdfExtension)
    else if u.size > MaxFileSizeBytes then Some(TooLarge(u.size))
    else if u.size == 0 then Some(Empty)
    else None
  }

  /** How Python prints an optional string inside an f-string. */
  function Shown(s: Option<string>): string {
    match s
    case Some(t) => t
    case None => "None"
  }

  const WrongTypePrefix := "Invalid file type. Only PDF files are allowed. Got: "
  const TooLargePrefix := "File too large: "
  const TooLargeSuffix := "MB. Maximum allowed: 10MB"

  /** The wrong-type message: the fixed text, then the content type as Python shows it. */
  function WrongTypeMessage(got: Option<string>): (m: string)
    ensures StartsWith(m, WrongTypePrefix) && m[|WrongTypePrefix|..] == Shown(got)
  {
    var m := WrongTypePrefix + Shown(got);
    assert m[..|WrongTypePrefix|] == WrongTypePrefix;
    assert m[|WrongTypePrefix|..] == Shown(got);
    m
  }

  /** The too-large message around the formatted size. */
  function TooLargeMessage(mb: string): (m: string)
    ensures StartsWith(m, TooLargePrefix) && EndsWith(m, TooLargeSuffix)
    ensures |m| == |TooLargePrefix| + |mb| + |TooLargeSuffix|
    ensures m[|TooLargePrefix|..|m| - |TooLargeSuffix|] == mb
  {
    var m := TooLargePrefix + mb + TooLargeSuffix;
    assert m[..|TooLargePrefix|] == TooLargePrefix;
    assert m[|m| - |TooLargeSuffix|..] == TooLargeSuffix;
    assert m[|TooLargePrefix|..|m| - |TooLargeSuffix|] == mb;
    m
  }

  /**
   * The message for each rejection. `formatMb(n)` is the size of `n` bytes in
   * megabytes with two decimals, as the service's float formatting prints it.
   */
  function RejectionMessage(r: Rejection, formatMb: nat -> string): (m: string)
    ensures r.WrongType? ==> StartsWith(m, WrongTypePrefix) && m[|WrongTypePrefix|..] == Shown(r.got)
    ensures r.MissingFilename? ==> m == "Filename is missing"
    ensures r.NotPdfExtension? ==> m == "File must have .pdf extension"
    ensures r.TooLarge? ==> StartsWith(m, TooLargePrefix) && EndsWith(m, TooLargeSuffix)
    ensures r.TooLarge? ==> |m| == |TooLargePrefix| + |formatMb(r.size)| + |TooLargeSuffix|
    ensures r.TooLarge? ==> m[|TooLargePrefix|..|m| - |TooLargeSuffix|] == formatMb(r.size)
    ensures r.Empty? ==> m == "File is empty"
  {
    match r
    case WrongType(got) => WrongTypeMessage(got)
    case MissingFilename => "Filename is missing"
    case NotPdfExtension => "File must have .pdf extension"
    case TooLarge(size) => TooLargeMessage(formatMb(size))
    case Empty => "File is empty"
  }

  /** `validate_pdf`: `(True, None)` for an acceptable file, else `(False, message)`. */
  function ValidatePdf(u: Upload, formatMb: nat -> string): (r: (bool, Option<string>))
    ensures r.0 <==> r.1.None?
    ensures r.0 <==> Rejected(u).None?
    ensures !r.0 ==> r.1 == Some(RejectionMessage(Rejected(u).value, formatMb))
  {
    match Rejected(u)
    case None => (true, None)
    case Some(why) => (false, Some(RejectionMessage(why, formatMb)))
  }

  /** A wrong content type is reported whatever the filename and size. */
  lemma ContentTypeCheckedFirst(u: Upload, formatMb: nat -> string)
    requires u.contentType != Some(PdfContentType)
    ensures ValidatePdf(u, formatMb) == (false, Some("Invalid file type. Only PDF files are allowed. Got: " + Shown(u.contentType)))
  {
  }

  /** The extension check ignores ASCII case. */
  lemma ExtensionCaseInsensitive(stem: string)
    ensures Rejected(Upload(Some(PdfContentType), Some(stem + ".PDF"), 1)).None?
    ensures Rejected(Upload(Some(PdfContentType), Some(stem + ".pdf"), 1)).None?
  {
    var upper := LowerAscii(stem + ".PDF");
    var lower := LowerAscii(stem + ".pdf");
    assert upper[|upper| - 4..] == ".pdf";
    assert lower[|lower| - 4..] == ".pdf";
  }

  /** Exactly 10 MiB passes; one byte more is too large, and that is reported before any emptiness. */
  lemma SizeBoundary(name: string, formatMb: nat -> string)
    requires EndsWith(LowerAscii(name), ".pdf")
    ensures ValidatePdf(Upload(Some(PdfContentType), Some(name), MaxFileSizeBytes), formatMb) == (true, None)
    ensures Rejected(Upload(Some(PdfContentType), Some(name), MaxFileSizeBytes + 1)) == Some(TooLarge(MaxFileSizeBytes + 1))
    ensures ValidatePdf(Upload(Some(PdfContentType), Some(name), 0), formatMb) == (false, Some("File is empty"))
  {
  }

  /**
   * `upload_pdf`, given the fresh file id and the outcome of writing the
   * file: `(file_id, path, None)` on success, `("", "", error)` otherwise. The
   * stored name is the id, an underscore and the uploaded filename.
   */
  function UploadPdf(u: Upload, fileId: string, saveError: Option<string>, formatMb: nat -> string): (r: (string, string, Option<string>))
    ensures r.2.None? <==> ValidatePdf(u, formatMb).0 && saveError.None?
    ensures r.2.Some? ==> r.0 == "" && r.1 == ""
    ensures r.2.None? ==> r.0 == fileId && r.1 == UploadDir + "/" + fileId + "_" + u.filename.value
    ensures !ValidatePdf(u, formatMb).0 ==> r.2 == ValidatePdf(u, formatMb).1
    ensures ValidatePdf(u, formatMb).0 && saveError.Some? ==> r.2 == Some("Failed to save file: " + saveError.value)
  {
    var (valid, error) := ValidatePdf(u, formatMb);
    if !valid then ("", "", error)
    else
      match saveError
      case Some(e) => ("", "", Some("Failed to save file: " + e))
      case None => (fileId, UploadDir + "/" + fileId + "_" + u.filename.value, None)
  }

  /** A stored path keeps the uploaded filename as its tail, after the id. */
  lemma StoredNameKeepsFilename(u: Upload, fileId: string, formatMb: nat -> string)
    requires ValidatePdf(u, formatMb).0
    ensures var path := UploadPdf(u, fileId, None, formatMb).1;
            EndsWith(path, "_" + u.filename.value) && StartsWith(path, UploadDir + "/" + fileId)
  {
    var path := UploadPdf(u, fileId, None, formatMb).1;
    var tail := "_" + u.filename.value;
    assert path == (UploadDir + "/" + fileId) + tail;
    assert path[|path| - |tail|..] == tail;
    assert path[..|UploadDir + "/" + fileId|] == UploadDir + "/" + fileId;
  }

  /** An OCR page; `markdown` is missing when the page has no such attribute or it is `None`. */
  datatype Page = Page(markdown: Option<string>)

  /** The OCR reply; `pages` is missing when the reply has no such attribute. */
  datatype OcrResponse = OcrResponse(pages: Option<seq<Page>>)

  /** The page texts kept: the non-empty ones, in page order. */
  function PageTexts(pages: seq<Page>): (r: seq<string>)
    ensures |r| <= |pages|
    ensures forall t :: t in r ==> t != ""
  {
    if |pages| == 0 then []
    else
      var last := pages[|pages| - 1];
      PageTexts(pages[..|pages| - 1]) + (if last.markdown.Some? && last.markdown.value != "" then [last.markdown.value] else [])
  }

  /** The text `_combine_pages_markdown` returns: nothing without a reply or without pages. */
  function CombinedMarkdown(response: Option<OcrResponse>): string {
    match response
    case None => ""
    case Some(resp) =>
      match resp.pages
      case None => ""
      case Some(pages) => Join(PageTexts(pages), "\n\n")
  }

  /** `_combine_pages_markdown`: one pass over the pages, collecting the non-empty texts. */
  method CombinePagesMarkdown(response: Option<OcrResponse>) returns (r: string)
    ensures r == CombinedMarkdown(response)
  {
    if response.None? || response.value.pages.None? {
      return "";
    }
    var pages := response.value.pages.value;
    var pagesText: seq<string> := [];
    var i := 0;
    while i < |pages|
      invariant 0 <= i <= |pages|
      invariant pagesText == PageTexts(pages[..i])
    {
      assert pages[..i + 1][..i] == pages[..i];
      var page := pages[i];
      if page.markdown.Some? && page.markdown.value != "" {
        pagesText := pagesText + [page.markdown.value];
      }
      i := i + 1;
    }
    assert pages[..|pages|] == pages;
    r := Join(pagesText, "\n\n");
  }

  /** A page's text is kept exactly when it is present and non-empty. */
  lemma {:induction false} PageTextsMembership(pages: seq<Page>, t: string)
    ensures t in PageTexts(pages) <==> t != "" && Page(Some(t)) in pages
  {
    if |pages| > 0 {
      var init := pages[..|pages| - 1];
      PageTextsMembership(init, t);
      assert pages == init + [pages[|pages| - 1]];
    }
  }

  /** Texts are kept page by page, so the result of `a + b` is the texts of `a`, then those of `b`. */
  lemma {:induction false} PageTextsConcat(a: seq<Page>, b: seq<Page>)
    ensures PageTexts(a + b) == PageTexts(a) + PageTexts(b)
  {
    if |b| == 0 {
      assert a + b == a;
    } else {
      var init := b[..|b| - 1];
      PageTextsConcat(a, init);
      assert (a + b)[..|a + b| - 1] == a + init;
      assert (a + b)[|a + b| - 1] == b[|b| - 1];
    }
  }

  /** Pages without text add nothing, so a reply with no text at all combines to "". */
  lemma {:induction false} BlankPagesCombineToNothing(pages: seq<Page>)
    requires forall p :: p in pages ==> p.markdown.None? || p.markdown.value == ""
    ensures CombinedMarkdown(Some(OcrResponse(Some(pages)))) == ""
  {
    if |pages| > 0 {
      var init := pages[..|pages| - 1];
      assert forall p :: p in init ==> p in pages;
      BlankPagesCombineToNothing(init);
      assert pages[|pages| - 1] in pages;
    }
  }

  /** Two text pages are joined by one blank line. */
  lemma TwoPagesJoined(a: string, b: string)
    requires a != "" && b != ""
    ensures CombinedMarkdown(Some(OcrResponse(Some([Page(Some(a)), Page(None), Page(Some(b))])))) == a + "\n\n" + b
  {
    var pages := [Page(Some(a)), Page(None), Page(Some(b))];
    assert pages[..2][..1] == pages[..1];
    assert pages[..1][..0] == [];
    assert PageTexts(pages[..1]) == [a];
    assert PageTexts(pages[..2]) == [a];
    assert PageTexts(pages) == [a, b];
    assert [a, b][1..] == [b];
    assert Join([a, b], "\n\n") == a + "\n\n" + Join([b], "\n\n");
  }
}

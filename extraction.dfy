/**
 * The dispatch of `extract_text_from_file`, shared by both programs: the
 * declared media type picks the PDF reader, the Word-document routine or
 * UTF-8 decoding. The three routines are foreign code and are parameters.
 */
module Extraction {
  import opened Wrappers
  import opened Strings

  newtype Byte = b: int | 0 <= b < 256
  type Bytes = seq<Byte>

  /** An uploaded file: its declared media type and its content. */
  datatype Upload = Upload(mediaType: string, content: Bytes)

  /**
   * The foreign routines, each of which may raise: reading a PDF into pages
   * with `page.extract_text()` for each page, `docx2txt.process`, and
   * `bytes.decode("utf-8")`.
   */
  datatype Libraries = Libraries(
    pdfPages: Bytes -> Result<seq<Result<string>>>,
    wordText: Bytes -> Result<string>,
    utf8: Bytes -> Result<string>)

  const PdfType: string := "application/pdf"
  const DocxType: string := "application/vnd.openxmlformats-officedocument.wordprocessingml.document"
  const DocType: string := "application/msword"

  datatype Route = Pdf | Word | PlainText

  /** Which routine a media type is sent to. */
  function RouteOf(mediaType: string): (r: Route)
    ensures r == Pdf <==> mediaType == PdfType
    ensures r == Word <==> mediaType == DocxType || mediaType == DocType
    ensures r == PlainText <==> mediaType !in {PdfType, DocxType, DocType}
  {
    if mediaType == PdfType then Pdf
    else if mediaType in [DocxType, DocType] then Word
    else PlainText
  }

  /**
   * The texts of all pages, in page order; the first page whose text
   * extraction raises makes the whole extraction raise.
   */
  function PageTexts(pages: seq<Result<string>>): (r: Result<seq<string>>)
    ensures r.Ok? <==> forall k :: 0 <= k < |pages| ==> pages[k].Ok?
    ensures r.Ok? ==> |r.value| == |pages| && forall k :: 0 <= k < |pages| ==> pages[k] == Ok(r.value[k])
    ensures r.Err? ==> exists k :: 0 <= k < |pages| && pages[k] == Err(r.message)
                        && forall q :: 0 <= q < k ==> pages[q].Ok?
    decreases |pages|
  {
    if pages == [] then Ok([])
    else
      match pages[0]
      case Err(m) => Err(m)
      case Ok(t) =>
        match PageTexts(pages[1..])
        case Err(m) =>
          ghost var k :| 0 <= k < |pages[1..]| && pages[1..][k] == Err(m) && forall q :: 0 <= q < k ==> pages[1..][q].Ok?;
          assert pages[k + 1] == Err(m);
          Err(m)
        case Ok(ts) => Ok([t] + ts)
  }

  /** `[t for t in ts if t]`. */
  function NonEmpty(ts: seq<string>): (r: seq<string>)
    decreases |ts|
  {
    if ts == [] then []
    else if ts[0] == "" then NonEmpty(ts[1..])
    else [ts[0]] + NonEmpty(ts[1..])
  }

  /** Only non-empty texts are kept ... */
  lemma {:induction false} NonEmptyKeepsNoEmpty(ts: seq<string>)
    ensures forall k :: 0 <= k < |NonEmpty(ts)| ==> NonEmpty(ts)[k] != ""
    decreases |ts|
  {
    if ts != [] {
      NonEmptyKeepsNoEmpty(ts[1..]);
    }
  }

  /** ... in their order: the filter works piece by piece ... */
  lemma {:induction false} NonEmptyOfConcat(ts: seq<string>, us: seq<string>)
    ensures NonEmpty(ts + us) == NonEmpty(ts) + NonEmpty(us)
    decreases |ts|
  {
    if ts == [] {
      assert ts + us == us;
    } else {
      assert (ts + us)[1..] == ts[1..] + us;
      NonEmptyOfConcat(ts[1..], us);
    }
  }

  /** ... dropping an empty text and keeping any other. */
  lemma NonEmptyOfOne(t: string)
    ensures NonEmpty([t]) == (if t == "" then [] else [t])
  {
    assert [t][1..] == [];
  }

  /** `" ".join(page.extract_text() for page in reader.pages if page.extract_text())` */
  function PdfText(ts: seq<string>): string {
    JoinWith(NonEmpty(ts), " ")
  }

  /** An empty page adds nothing to the PDF text, wherever it stands. */
  lemma EmptyPageAddsNothing(ts: seq<string>, us: seq<string>)
    ensures PdfText(ts + [""] + us) == PdfText(ts + us)
  {
    NonEmptyOfConcat(ts + [""], us);
    NonEmptyOfConcat(ts, [""]);
    NonEmptyOfOne("");
    NonEmptyOfConcat(ts, us);
    assert NonEmpty(ts) + [] == NonEmpty(ts);
  }

  /** The words of the PDF text are the words of the pages, page after page. */
  lemma PdfTextWords(ts: seq<string>)
    ensures Words(PdfText(ts)) == Flatten(WordsOfEach(ts))
  {
    WordsOfJoinedTexts(NonEmpty(ts));
    EmptyTextsHaveNoWords(ts);
  }

  /** Leaving out the empty texts leaves out no word. */
  lemma {:induction false} EmptyTextsHaveNoWords(ts: seq<string>)
    ensures Flatten(WordsOfEach(NonEmpty(ts))) == Flatten(WordsOfEach(ts))
    decreases |ts|
  {
    if ts != [] {
      EmptyTextsHaveNoWords(ts[1..]);
      assert WordsOfEach(ts)[1..] == WordsOfEach(ts[1..]);
      if ts[0] != "" {
        var ne := [ts[0]] + NonEmpty(ts[1..]);
        assert ne[1..] == NonEmpty(ts[1..]);
        assert WordsOfEach(ne)[1..] == WordsOfEach(ne[1..]);
      } else {
        assert Words(ts[0]) == [];
      }
    }
  }

  /**
   * The body of `extract_text_from_file` up to, not including, any `strip`:
   * the text of the routine the media type selects, or the exception that
   * routine raised.
   */
  function RawText(u: Upload, libs: Libraries): (r: Result<string>)
    ensures RouteOf(u.mediaType) == Word ==> r == libs.wordText(u.content)
    ensures RouteOf(u.mediaType) == PlainText ==> r == libs.utf8(u.content)
    ensures RouteOf(u.mediaType) == Pdf && libs.pdfPages(u.content).Err? ==> r.Err?
    ensures RouteOf(u.mediaType) == Pdf && libs.pdfPages(u.content).Ok? ==>
              (r.Ok? <==> forall k :: 0 <= k < |libs.pdfPages(u.content).value| ==> libs.pdfPages(u.content).value[k].Ok?)
  {
    match RouteOf(u.mediaType)
    case Pdf =>
      (match libs.pdfPages(u.content)
       case Err(m) => Err(m)
       case Ok(pages) =>
         match PageTexts(pages)
         case Err(m) => Err(m)
         case Ok(ts) => Ok(PdfText(ts)))
    case Word => libs.wordText(u.content)
    case PlainText => libs.utf8(u.content)
  }

  /** For a PDF whose pages all give their text, the result is the joined text of the pages. */
  lemma RawTextOfPdf(u: Upload, libs: Libraries, ts: seq<string>)
    requires u.mediaType == PdfType
    requires libs.pdfPages(u.content).Ok?
    requires |libs.pdfPages(u.content).value| == |ts|
    requires forall k :: 0 <= k < |ts| ==> libs.pdfPages(u.content).value[k] == Ok(ts[k])
    ensures RawText(u, libs) == Ok(PdfText(ts))
  {
    var pages := libs.pdfPages(u.content).value;
    var r := PageTexts(pages);
    assert r.value == ts;
  }
}
